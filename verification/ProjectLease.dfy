/**
 * The per-project lease lock of `AgentPool`: one session may run a state-changing
 * operation on a project, and a lease older than 30 minutes may be taken over.
 *
 * The first part models the lock table. The second part is the transition system of
 * overlapping operations: `executeWithProjectLock` suspends at `await fn()`, so its
 * beginning and its `finally` block are separate steps, between which any other step may
 * run. The class at the end has the source's methods over that system.
 */
module ProjectLease {
  import opened Prelude

  const PROJECT_LOCK_TIMEOUT_MS: int := 30 * 60 * 1000

  datatype Lock = Lock(sessionId: string, startedAt: int)

  type Locks = map<string, Lock>

  predicate Stale(lock: Lock, now: int) {
    now - lock.startedAt >= PROJECT_LOCK_TIMEOUT_MS
  }

  /** The source reads the clock once to test staleness and once more to stamp the lease. */
  function Acquire(locks: Locks, projectId: string, sessionId: string, checkedAt: int, stampedAt: int): (Locks, bool) {
    if projectId in locks && !Stale(locks[projectId], checkedAt) then
      (locks, false)
    else
      (locks[projectId := Lock(sessionId, stampedAt)], true)
  }

  function Release(locks: Locks, projectId: string, sessionId: string): Locks {
    if projectId in locks && locks[projectId].sessionId == sessionId then locks - {projectId} else locks
  }

  /** Reading a lease also evicts it when it is stale. */
  function Query(locks: Locks, projectId: string, now: int): (Locks, Option<Lock>) {
    if projectId !in locks then (locks, None)
    else if Stale(locks[projectId], now) then (locks - {projectId}, None)
    else (locks, Some(locks[projectId]))
  }

  /** What `executeWithProjectLock` does before its first suspension point. */
  datatype Admission = Admitted | Busy(heldBy: Option<string>)

  function Begin(locks: Locks, projectId: string, sessionId: string, checkedAt: int, nextAt: int): (Locks, Admission) {
    var (locks', acquired) := Acquire(locks, projectId, sessionId, checkedAt, nextAt);
    if acquired then
      (locks', Admitted)
    else
      var (locks'', lock) := Query(locks', projectId, nextAt);
      (locks'', Busy(if lock.Some? then Some(lock.value.sessionId) else None))
  }

  // ---------------------------------------------------------------------------
  // Overlapping operations
  // ---------------------------------------------------------------------------

  datatype Operation = Operation(sessionId: string, projectId: string, startedAt: int)

  /** `running` holds the admitted operations whose body has not settled yet. */
  datatype State = State(clock: int, locks: Locks, running: map<nat, Operation>)

  datatype Event =
    | BeginOp(op: nat, sessionId: string, projectId: string, checkedAt: int, nextAt: int)
    | FinishOp(op: nat)  // the body returned or threw; either way `finally` runs
    | QueryLock(projectId: string, at: int)

  const INITIAL: State := State(0, map[], map[])

  /** What the runtime guarantees: the clock does not go back, and only a running body can settle. */
  predicate Possible(s: State, e: Event) {
    match e
    case BeginOp(op, _, _, checkedAt, nextAt) => op !in s.running && s.clock <= checkedAt <= nextAt
    case FinishOp(op) => op in s.running
    case QueryLock(_, at) => s.clock <= at
  }

  function Step(s: State, e: Event): State
    requires Possible(s, e)
  {
    match e
    case BeginOp(op, sessionId, projectId, checkedAt, nextAt) =>
      var (locks, admission) := Begin(s.locks, projectId, sessionId, checkedAt, nextAt);
      State(nextAt, locks,
            if admission.Admitted? then s.running[op := Operation(sessionId, projectId, nextAt)] else s.running)
    case FinishOp(op) =>
      var o := s.running[op];
      s.(locks := Release(s.locks, o.projectId, o.sessionId), running := s.running - {op})
    case QueryLock(projectId, at) =>
      s.(clock := at, locks := Query(s.locks, projectId, at).0)
  }

  predicate ValidFrom(s: State, es: seq<Event>)
    decreases es
  {
    es == [] || (Possible(s, es[0]) && ValidFrom(Step(s, es[0]), es[1..]))
  }

  function RunFrom(s: State, es: seq<Event>): State
    requires ValidFrom(s, es)
    decreases es
  {
    if es == [] then s else RunFrom(Step(s, es[0]), es[1..])
  }

  predicate OwnOperation(s: State, op: nat, sessionId: string, projectId: string) {
    op in s.running && s.running[op].sessionId == sessionId && s.running[op].projectId == projectId
  }

  /** The session begins an operation on a project on which its own earlier operation still runs. */
  ghost predicate Reentrant(s: State, e: Event) {
    e.BeginOp? && exists op :: OwnOperation(s, op, e.sessionId, e.projectId)
  }

  /** The callers' discipline: no session re-enters a project. */
  ghost predicate DisciplinedFrom(s: State, es: seq<Event>)
    requires ValidFrom(s, es)
    decreases es
  {
    es == [] || (!Reentrant(s, es[0]) && DisciplinedFrom(Step(s, es[0]), es[1..]))
  }

  predicate Apart(a: Operation, b: Operation) {
    || a.startedAt + PROJECT_LOCK_TIMEOUT_MS <= b.startedAt
    || b.startedAt + PROJECT_LOCK_TIMEOUT_MS <= a.startedAt
  }

  /** Two operations on one project run at the same time only when they started 30 minutes apart. */
  ghost predicate Exclusive(s: State) {
    forall a, b :: a in s.running && b in s.running && a != b && s.running[a].projectId == s.running[b].projectId
                   ==> Apart(s.running[a], s.running[b])
  }

  /** The lease in the table is the one this operation acquired. */
  predicate Holds(s: State, o: Operation) {
    o.projectId in s.locks && s.locks[o.projectId] == Lock(o.sessionId, o.startedAt)
  }

  /** The lease was lost, and everything that happened to the project since is at least 30 minutes younger. */
  predicate Overdue(s: State, o: Operation) {
    o.startedAt + PROJECT_LOCK_TIMEOUT_MS
    <= if o.projectId in s.locks then s.locks[o.projectId].startedAt else s.clock
  }

  predicate Accounted(s: State, o: Operation) {
    o.startedAt <= s.clock && (Holds(s, o) || Overdue(s, o))
  }

  ghost predicate AllAccounted(s: State) {
    forall op :: op in s.running ==> Accounted(s, s.running[op])
  }

  predicate IsHolder(s: State, op: nat, p: string) {
    op in s.running && s.running[op].projectId == p && Holds(s, s.running[op])
  }

  ghost predicate Owned(s: State, p: string) {
    p in s.locks ==> s.locks[p].startedAt <= s.clock && exists op :: IsHolder(s, op, p)
  }

  ghost predicate AllOwned(s: State) {
    forall p :: Owned(s, p)
  }

  ghost predicate DistinctSessions(s: State) {
    forall a, b :: a in s.running && b in s.running && a != b && s.running[a].projectId == s.running[b].projectId
                   ==> s.running[a].sessionId != s.running[b].sessionId
  }

  ghost predicate Inv(s: State) {
    Exclusive(s) && AllAccounted(s) && AllOwned(s) && DistinctSessions(s)
  }

  lemma StepKeepsInv(s: State, e: Event)
    requires Inv(s) && Possible(s, e) && !Reentrant(s, e)
    ensures Inv(Step(s, e))
  {
    match e
    case BeginOp(op, sessionId, projectId, checkedAt, nextAt) =>
      if Begin(s.locks, projectId, sessionId, checkedAt, nextAt).1.Admitted? {
        BeginKeepsInv(s, e);
      } else {
        EvictKeepsInv(s, projectId, nextAt);
      }
    case FinishOp(op) =>
      FinishKeepsInv(s, op);
    case QueryLock(projectId, at) =>
      EvictKeepsInv(s, projectId, at);
  }

  /** When a lease is granted, whatever still runs on the project started at least 30 minutes ago. */
  lemma GrantedAfterTimeout(s: State, e: Event, op: nat)
    requires AllAccounted(s) && AllOwned(s) && Possible(s, e) && e.BeginOp?
    requires Begin(s.locks, e.projectId, e.sessionId, e.checkedAt, e.nextAt).1.Admitted?
    requires op in s.running && s.running[op].projectId == e.projectId
    ensures s.running[op].startedAt + PROJECT_LOCK_TIMEOUT_MS <= e.checkedAt
  {
    assert Accounted(s, s.running[op]);
    assert Owned(s, e.projectId);
  }

  lemma BeginKeepsInv(s: State, e: Event)
    requires Inv(s) && Possible(s, e) && !Reentrant(s, e) && e.BeginOp?
    requires Begin(s.locks, e.projectId, e.sessionId, e.checkedAt, e.nextAt).1.Admitted?
    ensures Inv(Step(s, e))
  {
    var s' := Step(s, e);
    forall op | op in s.running && s.running[op].projectId == e.projectId
      ensures s.running[op].startedAt + PROJECT_LOCK_TIMEOUT_MS <= e.nextAt
      ensures s.running[op].sessionId != e.sessionId
    {
      GrantedAfterTimeout(s, e, op);
      assert !OwnOperation(s, op, e.sessionId, e.projectId);
    }
    assert AllAccounted(s') by {
      forall op | op in s'.running
        ensures Accounted(s', s'.running[op])
      {
        if op != e.op {
          assert Accounted(s, s.running[op]);
        }
      }
    }
    forall p
      ensures Owned(s', p)
    {
      if p == e.projectId {
        assert IsHolder(s', e.op, p);
      } else if p in s'.locks {
        OwnedElsewhere(s, s', p);
      }
    }
  }

  lemma OwnedElsewhere(s: State, s': State, p: string)
    requires Owned(s, p) && p in s.locks && p in s'.locks && s'.locks[p] == s.locks[p] && s.clock <= s'.clock
    requires forall op :: IsHolder(s, op, p) ==> op in s'.running && s'.running[op] == s.running[op]
    ensures Owned(s', p)
  {
    var op :| IsHolder(s, op, p);
    assert IsHolder(s', op, p);
  }

  lemma EvictKeepsInv(s: State, projectId: string, at: int)
    requires Inv(s) && s.clock <= at
    ensures Inv(s.(clock := at, locks := Query(s.locks, projectId, at).0))
  {
    var s' := s.(clock := at, locks := Query(s.locks, projectId, at).0);
    assert AllAccounted(s') by {
      forall op | op in s'.running
        ensures Accounted(s', s'.running[op])
      {
        assert Accounted(s, s.running[op]);
        assert Owned(s, s.running[op].projectId);
      }
    }
    forall p
      ensures Owned(s', p)
    {
      if p in s'.locks {
        OwnedElsewhere(s, s', p);
      }
    }
  }

  lemma FinishKeepsInv(s: State, op: nat)
    requires Inv(s) && op in s.running
    ensures Inv(Step(s, FinishOp(op)))
  {
    var s' := Step(s, FinishOp(op));
    var o := s.running[op];
    assert AllAccounted(s') by {
      forall x | x in s'.running
        ensures Accounted(s', s'.running[x])
      {
        assert Accounted(s, s.running[x]);
        assert Owned(s, s.running[x].projectId);
      }
    }
    forall p
      ensures Owned(s', p)
    {
      if p in s'.locks {
        assert !IsHolder(s, op, p);
        OwnedElsewhere(s, s', p);
      }
    }
  }

  lemma {:induction false} RunKeepsInv(s: State, es: seq<Event>)
    requires Inv(s) && ValidFrom(s, es) && DisciplinedFrom(s, es)
    ensures Inv(RunFrom(s, es))
    decreases |es|
  {
    if es != [] {
      StepKeepsInv(s, es[0]);
      RunKeepsInv(Step(s, es[0]), es[1..]);
    }
  }

  /** Lease mutual exclusion, over every disciplined run of overlapping operations. */
  lemma LeaseExclusion(es: seq<Event>)
    requires ValidFrom(INITIAL, es) && DisciplinedFrom(INITIAL, es)
    ensures Exclusive(RunFrom(INITIAL, es))
  {
    RunKeepsInv(INITIAL, es);
  }

  lemma ReleaseOfOwnLease(s: State, op: nat)
    requires Inv(s) && op in s.running
    ensures var o := s.running[op];
            Step(s, FinishOp(op)).locks == if Holds(s, o) then s.locks - {o.projectId} else s.locks
  {
    var o := s.running[op];
    if !Holds(s, o) && o.projectId in s.locks {
      assert Owned(s, o.projectId);
      var x :| IsHolder(s, x, o.projectId);
      assert x != op;
    }
  }

  /**
   * In every disciplined run a settling operation frees its project exactly when the lease is still its own:
   * an evicted holder's late release changes nothing, so it never drops its successor's lease.
   */
  lemma LateReleaseIsHarmless(es: seq<Event>, op: nat)
    requires ValidFrom(INITIAL, es) && DisciplinedFrom(INITIAL, es)
    requires op in RunFrom(INITIAL, es).running
    ensures var s := RunFrom(INITIAL, es);
            var o := s.running[op];
            var s' := Step(s, FinishOp(op));
            if Holds(s, o) then s'.locks == s.locks - {o.projectId} else s'.locks == s.locks
  {
    RunKeepsInv(INITIAL, es);
    ReleaseOfOwnLease(RunFrom(INITIAL, es), op);
  }

  /** Some operation that holds the project's lease started less than 30 minutes before `now`. */
  ghost predicate YoungHolder(s: State, p: string, now: int) {
    exists op :: IsHolder(s, op, p) && now - s.running[op].startedAt < PROJECT_LOCK_TIMEOUT_MS
  }

  /** A step on one project leaves the leases of all others alone. */
  ghost predicate SameElsewhere(locks: Locks, locks': Locks, p: string) {
    forall q :: q != p ==> (q in locks <==> q in locks') && (q in locks ==> locks'[q] == locks[q])
  }

  /**
   * An operation is admitted exactly when no young operation holds the project's lease, whichever session asks, and
   * then it holds the lease itself. Otherwise the answer names a holder exactly if it is still young by then.
   */
  lemma AdmittedExactlyWithoutYoungHolder(s: State, e: Event)
    requires Inv(s) && Possible(s, e) && e.BeginOp?
    ensures var (locks, admission) := Begin(s.locks, e.projectId, e.sessionId, e.checkedAt, e.nextAt);
            && (admission.Admitted? <==> !YoungHolder(s, e.projectId, e.checkedAt))
            && (admission.Admitted? <==> e.op in Step(s, e).running)
            && (admission.Admitted? ==> IsHolder(Step(s, e), e.op, e.projectId)
                                        && Step(s, e).running[e.op] == Operation(e.sessionId, e.projectId, e.nextAt))
            && (admission.Busy? ==> (admission.heldBy.Some? <==> YoungHolder(s, e.projectId, e.nextAt)))
            && (admission.Busy? && admission.heldBy.None? ==> e.projectId !in locks)
            && (admission.Busy? && admission.heldBy.Some? ==> locks == s.locks)
            && SameElsewhere(s.locks, locks, e.projectId)
  {
    assert Owned(s, e.projectId);
  }

  /** The same after every disciplined run. */
  lemma AdmissionInEveryRun(es: seq<Event>, e: Event)
    requires ValidFrom(INITIAL, es) && DisciplinedFrom(INITIAL, es)
    requires Possible(RunFrom(INITIAL, es), e) && e.BeginOp?
    ensures var s := RunFrom(INITIAL, es);
            e.op in Step(s, e).running <==> !YoungHolder(s, e.projectId, e.checkedAt)
  {
    RunKeepsInv(INITIAL, es);
    AdmittedExactlyWithoutYoungHolder(RunFrom(INITIAL, es), e);
  }

  /** What the answer of `executeWithProjectLock` tells about the operations that run. */
  lemma BeginFacts(s: State, e: Event)
    requires Possible(s, e) && e.BeginOp?
    ensures Inv(s) && !Reentrant(s, e) ==> Inv(Step(s, e))
    ensures var admission := Begin(s.locks, e.projectId, e.sessionId, e.checkedAt, e.nextAt).1;
            && (Inv(s) && admission.Admitted?
                ==> forall x :: x in s.running && s.running[x].projectId == e.projectId
                                ==> s.running[x].startedAt + PROJECT_LOCK_TIMEOUT_MS <= e.checkedAt)
            && (Inv(s) && admission.Busy? && admission.heldBy.Some?
                ==> exists x :: OwnOperation(s, x, admission.heldBy.value, e.projectId)
                                && e.nextAt - s.running[x].startedAt < PROJECT_LOCK_TIMEOUT_MS)
  {
    if Inv(s) {
      if !Reentrant(s, e) {
        StepKeepsInv(s, e);
      }
      var admission := Begin(s.locks, e.projectId, e.sessionId, e.checkedAt, e.nextAt).1;
      if admission.Admitted? {
        forall x | x in s.running && s.running[x].projectId == e.projectId
          ensures s.running[x].startedAt + PROJECT_LOCK_TIMEOUT_MS <= e.checkedAt
        {
          GrantedAfterTimeout(s, e, x);
        }
      } else if admission.heldBy.Some? {
        assert Owned(s, e.projectId);
        var x :| IsHolder(s, x, e.projectId);
        assert OwnOperation(s, x, admission.heldBy.value, e.projectId);
      }
    }
  }

  /** After a re-entrant admission `e`: the session's first operation settles, then another session begins. */
  function Hazard(e: Event, first: nat, third: nat, other: string): seq<Event>
    requires e.BeginOp?
  {
    [FinishOp(first), BeginOp(third, other, e.projectId, e.nextAt, e.nextAt)]
  }

  lemma RunOfTwo(s: State, a: Event, b: Event)
    requires Possible(s, a) && Possible(Step(s, a), b)
    ensures ValidFrom(s, [a, b]) && RunFrom(s, [a, b]) == Step(Step(s, a), b)
    ensures !Reentrant(s, a) && !Reentrant(Step(s, a), b) ==> DisciplinedFrom(s, [a, b])
  {
    var s1 := Step(s, a);
    assert [a, b][1..] == [b] && [b][1..] == [];
    assert ValidFrom(Step(s1, b), []);
    assert ValidFrom(s1, [b]) && RunFrom(s1, [b]) == Step(s1, b);
  }

  /**
   * Without the discipline the property fails. After an admitted re-entrant operation two disciplined steps
   * suffice to reach a state in which two bodies run that started at the same moment.
   */
  lemma ReentryBreaksExclusion(s: State, e: Event, first: nat, third: nat, other: string)
    requires Possible(s, e) && e.BeginOp?
    requires Begin(s.locks, e.projectId, e.sessionId, e.checkedAt, e.nextAt).1.Admitted?
    requires OwnOperation(s, first, e.sessionId, e.projectId)
    requires third !in s.running && third != e.op
    requires other != e.sessionId
    requires forall op :: op in s.running ==> s.running[op].sessionId != other
    ensures var rest := Hazard(e, first, third, other);
            && ValidFrom(Step(s, e), rest) && DisciplinedFrom(Step(s, e), rest)
            && !Exclusive(RunFrom(Step(s, e), rest))
  {
    var rest := Hazard(e, first, third, other);
    var s1 := Step(s, e);
    var s2 := Step(s1, rest[0]);
    assert e.projectId !in s2.locks;
    var s3 := Step(s2, rest[1]);
    RunOfTwo(s1, rest[0], rest[1]);
    assert !Apart(s3.running[e.op], s3.running[third]);
  }

  /** The failure is reachable: a session that begins anew after 30 minutes is admitted beside its own operation. */
  lemma ReentryIsReachable(session: string, other: string, project: string)
    requires session != other
    ensures var t := PROJECT_LOCK_TIMEOUT_MS;
            var again := BeginOp(1, session, project, t, t);
            var es := [BeginOp(0, session, project, 0, 0), again] + Hazard(again, 0, 2, other);
            ValidFrom(INITIAL, es) && !Exclusive(RunFrom(INITIAL, es))
  {
    var t := PROJECT_LOCK_TIMEOUT_MS;
    var first := BeginOp(0, session, project, 0, 0);
    var again := BeginOp(1, session, project, t, t);
    var rest := Hazard(again, 0, 2, other);
    var s1 := Step(INITIAL, first);
    assert s1.running == map[0 := Operation(session, project, 0)];
    ReentryBreaksExclusion(s1, again, 0, 2, other);
    var es := [first, again] + rest;
    assert es[1..] == [again] + rest && es[1..][1..] == rest;
    assert ValidFrom(s1, es[1..]) && RunFrom(s1, es[1..]) == RunFrom(Step(s1, again), rest);
  }

  /**
   * The exact condition. Admitting `e` in a state a disciplined run reached is safe for every disciplined
   * continuation if and only if `e` is not re-entrant, which the caller can check before the call.
   */
  lemma SafeExactlyWhenNotReentrant(es: seq<Event>, e: Event)
    requires ValidFrom(INITIAL, es) && DisciplinedFrom(INITIAL, es)
    requires Possible(RunFrom(INITIAL, es), e) && e.BeginOp?
    requires var s := RunFrom(INITIAL, es);
             Begin(s.locks, e.projectId, e.sessionId, e.checkedAt, e.nextAt).1.Admitted?
    ensures var s := RunFrom(INITIAL, es);
            !Reentrant(s, e) <==>
            forall rest :: ValidFrom(Step(s, e), rest) && DisciplinedFrom(Step(s, e), rest)
                           ==> Exclusive(RunFrom(Step(s, e), rest))
  {
    RunKeepsInv(INITIAL, es);
    var s := RunFrom(INITIAL, es);
    if Reentrant(s, e) {
      var first :| OwnOperation(s, first, e.sessionId, e.projectId);
      var third := FreshOp(s.running.Keys + {e.op});
      var other := FreshSession((set op | op in s.running :: s.running[op].sessionId) + {e.sessionId});
      ReentryBreaksExclusion(s, e, first, third, other);
    } else {
      StepKeepsInv(s, e);
      forall rest | ValidFrom(Step(s, e), rest) && DisciplinedFrom(Step(s, e), rest)
        ensures Exclusive(RunFrom(Step(s, e), rest))
      {
        RunKeepsInv(Step(s, e), rest);
      }
    }
  }

  lemma {:induction false} FreshOp(used: set<nat>) returns (n: nat)
    ensures forall u :: u in used ==> u < n
  {
    if used == {} {
      n := 0;
    } else {
      var u :| u in used;
      var m := FreshOp(used - {u});
      n := if u < m then m else u + 1;
      assert forall v :: v in used ==> v == u || v in used - {u};
    }
  }

  lemma {:induction false} FreshSession(used: set<string>) returns (t: string)
    ensures t !in used
  {
    var n := LongerThan(used);
    t := seq(n, _ => 'x');
  }

  lemma {:induction false} LongerThan(used: set<string>) returns (n: nat)
    ensures forall u :: u in used ==> |u| < n
  {
    if used == {} {
      n := 0;
    } else {
      var u :| u in used;
      var m := LongerThan(used - {u});
      n := if |u| < m then m else |u| + 1;
      assert forall v :: v in used ==> v == u || v in used - {u};
    }
  }

  // ---------------------------------------------------------------------------
  // The class
  // ---------------------------------------------------------------------------

  /** `running` and `clock` are not in the source; they record which bodies have not settled, and the time. */
  class ProjectLocks {
    var projectLocks: Locks
    ghost var running: map<nat, Operation>
    ghost var clock: int

    ghost function View(): State
      reads this
    {
      State(clock, projectLocks, running)
    }

    constructor ()
      ensures View() == INITIAL && Inv(View())
    {
      projectLocks, running, clock := map[], map[], 0;
    }

    method AcquireProjectLock(projectId: string, sessionId: string, checkedAt: int, stampedAt: int)
      returns (acquired: bool)
      modifies `projectLocks
      ensures (projectLocks, acquired) == Acquire(old(projectLocks), projectId, sessionId, checkedAt, stampedAt)
    {
      if projectId in projectLocks {
        var existing := projectLocks[projectId];
        if checkedAt - existing.startedAt < PROJECT_LOCK_TIMEOUT_MS {
          return false;
        }
      }
      projectLocks := projectLocks[projectId := Lock(sessionId, stampedAt)];
      return true;
    }

    method ReleaseProjectLock(projectId: string, sessionId: string)
      modifies `projectLocks
      ensures projectLocks == Release(old(projectLocks), projectId, sessionId)
    {
      if projectId in projectLocks && projectLocks[projectId].sessionId == sessionId {
        projectLocks := projectLocks - {projectId};
      }
    }

    /** In a disciplined run a lease is reported exactly while an operation younger than 30 minutes holds it. */
    method GetProjectLock(projectId: string, now: int) returns (lock: Option<Lock>)
      requires clock <= now
      modifies `projectLocks, `clock
      ensures View() == Step(old(View()), QueryLock(projectId, now))
      ensures old(Inv(View())) ==> Inv(View())
      ensures old(Inv(View())) ==>
                (lock.Some? <==> exists op :: IsHolder(old(View()), op, projectId)
                                              && now - old(running)[op].startedAt < PROJECT_LOCK_TIMEOUT_MS)
      ensures lock.Some? ==> projectLocks == old(projectLocks) && projectId in projectLocks
                             && lock.value == projectLocks[projectId]
      ensures lock.None? ==> projectId !in projectLocks
      ensures SameElsewhere(old(projectLocks), projectLocks, projectId)
    {
      ghost var before := View();
      if Inv(before) {
        EvictKeepsInv(before, projectId, now);
        assert Owned(before, projectId);
      }
      clock := now;
      if projectId !in projectLocks {
        return None;
      }
      var existing := projectLocks[projectId];
      if now - existing.startedAt >= PROJECT_LOCK_TIMEOUT_MS {
        projectLocks := projectLocks - {projectId};
        return None;
      }
      return Some(existing);
    }

    /**
     * `executeWithProjectLock` up to `await fn()`. An admitted operation overlaps only operations that started at
     * least 30 minutes before, a refused one is told the session of a running operation that is younger.
     */
    method BeginWithProjectLock(ghost op: nat, sessionId: string, projectId: string, checkedAt: int, nextAt: int)
      returns (admission: Admission)
      requires op !in running && clock <= checkedAt <= nextAt
      modifies this
      ensures View() == Step(old(View()), BeginOp(op, sessionId, projectId, checkedAt, nextAt))
      ensures admission.Admitted? <==> op in running
      ensures old(Inv(View())) && !old(Reentrant(View(), BeginOp(op, sessionId, projectId, checkedAt, nextAt)))
              ==> Inv(View())
      ensures old(Inv(View())) ==> (admission.Admitted? <==> !old(YoungHolder(View(), projectId, checkedAt)))
      ensures admission.Admitted? ==> IsHolder(View(), op, projectId)
                                      && running[op] == Operation(sessionId, projectId, nextAt)
      ensures SameElsewhere(old(projectLocks), projectLocks, projectId)
      ensures old(Inv(View())) && admission.Admitted? ==>
                forall x :: x in old(running) && old(running)[x].projectId == projectId
                            ==> old(running)[x].startedAt + PROJECT_LOCK_TIMEOUT_MS <= checkedAt
      ensures old(Inv(View())) && admission.Busy? && admission.heldBy.Some? ==>
                exists x :: OwnOperation(old(View()), x, admission.heldBy.value, projectId)
                            && nextAt - old(running)[x].startedAt < PROJECT_LOCK_TIMEOUT_MS
    {
      ghost var before := View();
      ghost var e := BeginOp(op, sessionId, projectId, checkedAt, nextAt);
      BeginFacts(before, e);
      if Inv(before) {
        AdmittedExactlyWithoutYoungHolder(before, e);
      }
      var acquired := AcquireProjectLock(projectId, sessionId, checkedAt, nextAt);
      if !acquired {
        var lock := GetProjectLock(projectId, nextAt);
        return Busy(if lock.Some? then Some(lock.value.sessionId) else None);
      }
      running := running[op := Operation(sessionId, projectId, nextAt)];
      clock := nextAt;
      return Admitted;
    }

    /** The `finally` block. In a disciplined run it removes the operation's own lease and never another one. */
    method FinishOperation(ghost op: nat, sessionId: string, projectId: string)
      requires OwnOperation(View(), op, sessionId, projectId)
      modifies this
      ensures View() == Step(old(View()), FinishOp(op))
      ensures old(Inv(View())) ==> Inv(View())
      ensures old(Inv(View())) ==>
                projectLocks == if old(Holds(View(), running[op])) then old(projectLocks) - {projectId}
                                else old(projectLocks)
    {
      ghost var before := View();
      if Inv(before) {
        FinishKeepsInv(before, op);
        ReleaseOfOwnLease(before, op);
      }
      ReleaseProjectLock(projectId, sessionId);
      running := running - {op};
    }
  }
}
