/**
 * `ensureOrgMcpPatToken` and `rotateOrgMcpPatToken` as they interleave. Each runs behind
 * the promise-chain lock and suspends at every database call, so other requests, other
 * database activity and the passing of time come between any two of its steps.
 */
module OrgTokenProtocol {
  import opened Prelude
  import opened TokenStore
  import PromiseLock

  datatype Request = EnsureToken(expires: Expiry) | RotateToken(expires: Expiry)

  /** Where an operation is: each constructor but the last names its next awaited database call. */
  datatype Work =
    | Listing
    | RegeneratingLegacy(legacy: seq<string>, pats: seq<string>)
    | RevokingLegacy(legacy: seq<string>, pats: seq<string>)
    | Revoking(ids: seq<string>, keeper: Option<string>)
    | Regenerating
    | Creating
    | Finished(rowId: string)

  function NextRevocation(ids: seq<string>, keeper: Option<string>): Work {
    if ids != [] then Revoking(ids, keeper)
    else if keeper.Some? then Finished(keeper.value)
    else Regenerating
  }

  function AfterLegacy(pats: seq<string>): Work {
    if pats == [] then Regenerating else NextRevocation(pats[1..], Some(pats[0]))
  }

  function NextLegacy(legacy: seq<string>, pats: seq<string>): Work {
    if legacy == [] then AfterLegacy(pats) else RevokingLegacy(legacy, pats)
  }

  function AfterListing(request: Request, rows: seq<Row>, now: int): Work {
    var active := ActiveOrg(rows, now);
    match request
    case RotateToken(_) => NextRevocation(Ids(active), None)
    case EnsureToken(_) =>
      var legacy := Ids(OfType(active, LegacyDefault));
      var pats := Ids(OfType(active, Pat));
      if legacy == [] then AfterLegacy(pats) else RegeneratingLegacy(legacy, pats)
  }

  predicate CanAdvance(request: Request, work: Work) {
    match work
    case RevokingLegacy(legacy, _) => legacy != []
    case Revoking(ids, _) => ids != []
    case Creating => Issuable(request.expires)
    case Finished(_) => false
    case _ => true
  }

  /** One successful database call of an operation. */
  function Advance(request: Request, work: Work, db: Db, now: int, draw: Draw): (Work, Db)
    requires CanAdvance(request, work)
  {
    match work
    case Listing => (AfterListing(request, db.rows, now), db)
    case RegeneratingLegacy(legacy, pats) => (NextLegacy(legacy, pats), db.(apiToken := Some(draw.apiToken)))
    case RevokingLegacy(legacy, pats) => (NextLegacy(legacy[1..], pats), db.(rows := Revoke(db.rows, legacy[0])))
    case Revoking(ids, keeper) => (NextRevocation(ids[1..], keeper), db.(rows := Revoke(db.rows, ids[0])))
    case Regenerating => (Creating, db.(apiToken := Some(draw.apiToken)))
    case Creating => (Finished(draw.id), db.(rows := [NewOrgPat(draw.id, draw.token, request.expires)] + db.rows))
  }

  // ---------------------------------------------------------------------------
  // The transition system
  // ---------------------------------------------------------------------------

  /** `mutex`, `requests` and `work` are indexed by ticket. */
  datatype State = State(mutex: PromiseLock.State, requests: seq<Request>, work: seq<Work>, db: Db, now: int)

  datatype Event =
    | Call(request: Request)
    | Enter(ticket: nat)
    | DbCall(ticket: nat, draw: Draw)
    | Throw(ticket: nat)
    | Return(ticket: nat)
    | Elsewhere(db: Db, now: int)
    | IssueElsewhere(row: Row)

  /** The ids of the organisation's access tokens that are usable at a given time. */
  ghost function UsableOrgPats(rows: seq<Row>, now: int): set<string> {
    set r | r in rows && IsOrgPat(r) && IsTokenUsable(r, now) :: r.id
  }

  ghost predicate InsideAt(s: State, t: nat) {
    t < |s.mutex.calls| && t < |s.work| && t < |s.requests| && s.mutex.calls[t].Inside?
  }

  /**
   * `IssueElsewhere` is a token issued outside the lock, such as by the token route. Apart from that, anything may
   * happen to the database that creates no usable access token of the organisation.
   */
  ghost predicate Possible(s: State, e: Event) {
    match e
    case Call(_) => true
    case Enter(t) => PromiseLock.CanEnter(s.mutex, t)
    case DbCall(t, _) => InsideAt(s, t) && CanAdvance(s.requests[t], s.work[t])
    case Throw(t) => InsideAt(s, t)
    case Return(t) => InsideAt(s, t) && s.work[t].Finished?
    case Elsewhere(db, now) => s.now <= now && UsableOrgPats(db.rows, now) <= UsableOrgPats(s.db.rows, now)
    case IssueElsewhere(row) => !HasId(s.db.rows, row.id)
  }

  ghost function Step(s: State, e: Event): State
    requires Possible(s, e)
  {
    match e
    case Call(request) =>
      s.(mutex := PromiseLock.Call(PromiseLock.Chained, s.mutex),
         requests := s.requests + [request],
         work := s.work + [Listing])
    case Enter(t) => s.(mutex := PromiseLock.Enter(s.mutex, t))
    case DbCall(t, draw) =>
      var (work, db) := Advance(s.requests[t], s.work[t], s.db, s.now, draw);
      s.(work := s.work[t := work], db := db)
    case Throw(t) => s.(mutex := PromiseLock.Leave(s.mutex, t, true))
    case Return(t) => s.(mutex := PromiseLock.Leave(s.mutex, t, false))
    case Elsewhere(db, now) => s.(db := db, now := now)
    case IssueElsewhere(row) => s.(db := s.db.(rows := [row] + s.db.rows))
  }

  ghost predicate ValidFrom(s: State, es: seq<Event>)
    decreases es
  {
    es == [] || (Possible(s, es[0]) && ValidFrom(Step(s, es[0]), es[1..]))
  }

  ghost function RunFrom(s: State, es: seq<Event>): State
    requires ValidFrom(s, es)
    decreases es
  {
    if es == [] then s else RunFrom(Step(s, es[0]), es[1..])
  }

  predicate UsableOrgPat(row: Row, now: int) {
    IsOrgPat(row) && IsTokenUsable(row, now)
  }

  /** What the operation has found in the table leads it to create a token. */
  predicate WillCreate(work: Work) {
    match work
    case RegeneratingLegacy(_, pats) => pats == []
    case RevokingLegacy(_, pats) => pats == []
    case Revoking(_, keeper) => keeper.None?
    case Regenerating => true
    case Creating => true
    case _ => false
  }

  /** And that token would be usable. */
  predicate MayCreate(request: Request, work: Work, now: int) {
    WillCreate(work) && request.expires.At? && request.expires.at > now
  }

  /** No token is usable, and no operation that has listed is going to create a usable one. */
  ghost predicate SafeToIssue(s: State) {
    && UsableOrgPats(s.db.rows, s.now) == {}
    && forall t: nat :: InsideAt(s, t) ==> !MayCreate(s.requests[t], s.work[t], s.now)
  }

  /**
   * Outside the lock a usable token of the organisation is issued only if that is safe, and in strict runs only if
   * no operation has listed at all.
   */
  ghost predicate Lawful(s: State, e: Event, strict: bool) {
    e.IssueElsewhere? && UsableOrgPat(e.row, s.now) ==>
      SafeToIssue(s) && (strict ==> forall t: nat :: InsideAt(s, t) ==> s.work[t] == Listing)
  }

  ghost predicate LawfulFrom(s: State, es: seq<Event>, strict: bool)
    requires ValidFrom(s, es)
    decreases es
  {
    es == [] || (Lawful(s, es[0], strict) && LawfulFrom(Step(s, es[0]), es[1..], strict))
  }

  /** Any table at all may be there at first, with any number of duplicates. */
  function Start(db: Db, now: int): State {
    State(PromiseLock.INITIAL, [], [], db, now)
  }

  ghost predicate AtMostOne(ids: set<string>) {
    forall a, b :: a in ids && b in ids ==> a == b
  }

  ghost predicate SomeReturned(s: State) {
    exists t :: 0 <= t < |s.mutex.calls| && s.mutex.calls[t] == PromiseLock.Done(false)
  }

  /** The usable tokens the operation in `work` has not dealt with yet, and the one it keeps. */
  ghost predicate Covers(work: Work, usable: set<string>) {
    match work
    case Listing => true
    case RegeneratingLegacy(_, pats) => forall x :: x in usable ==> x in pats
    case RevokingLegacy(_, pats) => forall x :: x in usable ==> x in pats
    case Revoking(ids, keeper) => forall x :: x in usable ==> x in ids || keeper == Some(x)
    case Regenerating => usable == {}
    case Creating => usable == {}
    case Finished(rowId) => usable <= {rowId}
  }

  /** An operation is at a revoking call only while there is something left to revoke. */
  predicate HasNext(work: Work) {
    match work
    case RevokingLegacy(legacy, _) => legacy != []
    case Revoking(ids, _) => ids != []
    case _ => true
  }

  /** An operation need not cover the usable token if there is only one and it is not going to create another. */
  ghost predicate Handles(request: Request, work: Work, usable: set<string>, now: int, strict: bool) {
    Covers(work, usable) || (!strict && AtMostOne(usable) && !MayCreate(request, work, now))
  }

  ghost predicate Inv(s: State, strict: bool) {
    && PromiseLock.Inv(PromiseLock.Chained, s.mutex)
    && |s.work| == |s.requests| == |s.mutex.calls|
    && (forall t :: 0 <= t < |s.work| ==> HasNext(s.work[t]))
    && (forall t :: 0 <= t < |s.work| && s.mutex.calls[t].Waiting? ==> s.work[t] == Listing)
    && (forall t :: 0 <= t < |s.work| && s.mutex.calls[t].Inside?
                    ==> Handles(s.requests[t], s.work[t], UsableOrgPats(s.db.rows, s.now), s.now, strict))
    && (SomeReturned(s) ==> AtMostOne(UsableOrgPats(s.db.rows, s.now)))
  }

  // ----- how each database call affects the usable tokens -----

  lemma UsableAfterRevoke(rows: seq<Row>, id: string, now: int)
    ensures UsableOrgPats(Revoke(rows, id), now) <= UsableOrgPats(rows, now) - {id}
  {
    var r := Revoke(rows, id);
    forall row | row in r && IsOrgPat(row) && IsTokenUsable(row, now)
      ensures row.id in UsableOrgPats(rows, now) - {id}
    {
      var i :| 0 <= i < |r| && r[i] == row;
      assert rows[i] in rows;
    }
  }

  lemma UsableAfterCreate(rows: seq<Row>, row: Row, now: int)
    ensures UsableOrgPats([row] + rows, now) <= UsableOrgPats(rows, now) + {row.id}
  {
    forall r | r in [row] + rows && IsOrgPat(r) && IsTokenUsable(r, now)
      ensures r.id in UsableOrgPats(rows, now) + {row.id}
    {
      assert r == row || r in rows;
    }
  }

  lemma UsableShrinksWithTime(rows: seq<Row>, now: int, later: int)
    requires now <= later
    ensures UsableOrgPats(rows, later) <= UsableOrgPats(rows, now)
  {
    forall r | r in rows && IsOrgPat(r) && IsTokenUsable(r, later)
      ensures r.id in UsableOrgPats(rows, now)
    {
      assert IsTokenUsable(r, now);
    }
  }

  lemma UsableAreListed(rows: seq<Row>, now: int)
    ensures forall x :: x in UsableOrgPats(rows, now) ==> x in Ids(ActiveOrg(rows, now))
    ensures forall x :: x in UsableOrgPats(rows, now) ==> x in Ids(OfType(ActiveOrg(rows, now), Pat))
  {
    var active := ActiveOrg(rows, now);
    var pats := OfType(active, Pat);
    ActiveOrgMembers(rows, now);
    OfTypeMembers(active, Pat);
    forall x | x in UsableOrgPats(rows, now)
      ensures x in Ids(active) && x in Ids(pats)
    {
      var r :| r in rows && IsOrgPat(r) && IsTokenUsable(r, now) && r.id == x;
      var i :| 0 <= i < |active| && active[i] == r;
      assert Ids(active)[i] == x;
      var j :| 0 <= j < |pats| && pats[j] == r;
      assert Ids(pats)[j] == x;
    }
  }

  lemma NextRevocationCovers(ids: seq<string>, keeper: Option<string>, usable: set<string>)
    requires forall x :: x in usable ==> x in ids || keeper == Some(x)
    ensures Covers(NextRevocation(ids, keeper), usable)
  {
    if ids == [] {
      assert keeper.Some? ==> usable <= {keeper.value};
      assert keeper.None? ==> usable == {};
    }
  }

  lemma NextLegacyCovers(legacy: seq<string>, pats: seq<string>, usable: set<string>)
    requires forall x :: x in usable ==> x in pats
    ensures Covers(NextLegacy(legacy, pats), usable) && Covers(AfterLegacy(pats), usable)
  {
    if pats == [] {
      assert usable == {};
    } else {
      assert pats == [pats[0]] + pats[1..];
      NextRevocationCovers(pats[1..], Some(pats[0]), usable);
    }
  }

  lemma AdvanceCovers(request: Request, work: Work, db: Db, now: int, draw: Draw)
    requires CanAdvance(request, work) && Covers(work, UsableOrgPats(db.rows, now))
    ensures var (work', db') := Advance(request, work, db, now, draw);
            && Covers(work', UsableOrgPats(db'.rows, now))
            && (UsableOrgPats(db'.rows, now) <= UsableOrgPats(db.rows, now) || AtMostOne(UsableOrgPats(db'.rows, now)))
  {
    var usable := UsableOrgPats(db.rows, now);
    match work
    case Listing =>
      UsableAreListed(db.rows, now);
      var active := ActiveOrg(db.rows, now);
      match request {
        case RotateToken(_) => NextRevocationCovers(Ids(active), None, usable);
        case EnsureToken(_) => NextLegacyCovers([], Ids(OfType(active, Pat)), usable);
      }
    case RegeneratingLegacy(legacy, pats) => NextLegacyCovers(legacy, pats, usable);
    case RevokingLegacy(legacy, pats) =>
      UsableAfterRevoke(db.rows, legacy[0], now);
      NextLegacyCovers(legacy[1..], pats, UsableOrgPats(Revoke(db.rows, legacy[0]), now));
    case Revoking(ids, keeper) =>
      UsableAfterRevoke(db.rows, ids[0], now);
      assert ids == [ids[0]] + ids[1..];
      NextRevocationCovers(ids[1..], keeper, UsableOrgPats(Revoke(db.rows, ids[0]), now));
    case Regenerating =>
    case Creating =>
      UsableAfterCreate(db.rows, NewOrgPat(draw.id, draw.token, request.expires), now);
  }

  // ----- the invariant -----

  lemma StepKeepsInv(s: State, e: Event, strict: bool)
    requires Inv(s, strict) && Possible(s, e) && Lawful(s, e, strict)
    ensures Inv(Step(s, e), strict)
  {
    match e
    case Call(request) => CallKeepsInv(s, request, strict);
    case Enter(t) => EnterKeepsInv(s, t, strict);
    case DbCall(t, draw) => DbCallKeepsInv(s, t, draw, strict);
    case Throw(t) => ThrowKeepsInv(s, t, strict);
    case Return(t) => ReturnKeepsInv(s, t, strict);
    case Elsewhere(db, now) =>
      UsableShrinksWithTime(s.db.rows, s.now, now);
      ShrinkKeepsInv(s, db, now, strict);
    case IssueElsewhere(row) => IssueKeepsInv(s, row, strict);
  }

  lemma EnterKeepsInv(s: State, t: nat, strict: bool)
    requires Inv(s, strict) && Possible(s, Enter(t))
    ensures Inv(Step(s, Enter(t)), strict)
  {
    PromiseLock.EnterKeepsInv(PromiseLock.Chained, s.mutex, t);
    ReturnedBefore(s, Step(s, Enter(t)));
  }

  lemma ThrowKeepsInv(s: State, t: nat, strict: bool)
    requires Inv(s, strict) && Possible(s, Throw(t))
    ensures Inv(Step(s, Throw(t)), strict)
  {
    PromiseLock.LeaveKeepsInv(PromiseLock.Chained, s.mutex, t, true);
    ReturnedBefore(s, Step(s, Throw(t)));
  }

  lemma IssueKeepsInv(s: State, row: Row, strict: bool)
    requires Inv(s, strict) && Lawful(s, IssueElsewhere(row), strict)
    ensures Inv(s.(db := s.db.(rows := [row] + s.db.rows)), strict)
  {
    var s' := s.(db := s.db.(rows := [row] + s.db.rows));
    UsableAfterIssue(s.db.rows, row, s.now);
    if UsableOrgPat(row, s.now) {
      ReturnedBefore(s, s');
      assert UsableOrgPats(s'.db.rows, s.now) == {row.id};
      forall t | 0 <= t < |s.work| && s.mutex.calls[t].Inside?
        ensures Handles(s.requests[t], s.work[t], {row.id}, s.now, strict)
      {
        assert InsideAt(s, t);
      }
    } else {
      ShrinkKeepsInv(s, s'.db, s.now, strict);
    }
  }

  lemma ReturnKeepsInv(s: State, t: nat, strict: bool)
    requires Inv(s, strict) && Possible(s, Return(t))
    ensures Inv(Step(s, Return(t)), strict)
  {
    PromiseLock.LeaveKeepsInv(PromiseLock.Chained, s.mutex, t, false);
    assert Handles(s.requests[t], s.work[t], UsableOrgPats(s.db.rows, s.now), s.now, strict);
  }

  /** A step that lets no call return leaves no new `SomeReturned`. */
  lemma ReturnedBefore(s: State, s': State)
    requires |s'.mutex.calls| >= |s.mutex.calls|
    requires forall t :: 0 <= t < |s'.mutex.calls| && s'.mutex.calls[t] == PromiseLock.Done(false)
                         ==> t < |s.mutex.calls| && s.mutex.calls[t] == PromiseLock.Done(false)
    ensures SomeReturned(s') ==> SomeReturned(s)
  {
  }

  lemma CallKeepsInv(s: State, request: Request, strict: bool)
    requires Inv(s, strict)
    ensures Inv(Step(s, Call(request)), strict)
  {
    PromiseLock.CallKeepsInv(PromiseLock.Chained, s.mutex);
    ReturnedBefore(s, Step(s, Call(request)));
  }

  lemma ShrinkKeepsInv(s: State, db: Db, now: int, strict: bool)
    requires Inv(s, strict) && s.now <= now && UsableOrgPats(db.rows, now) <= UsableOrgPats(s.db.rows, s.now)
    ensures Inv(s.(db := db, now := now), strict)
  {
    var s' := s.(db := db, now := now);
    ReturnedBefore(s, s');
  }

  /** An operation that is not going to create a usable token adds none, and does not change its mind. */
  lemma AdvanceWithoutCreating(request: Request, work: Work, db: Db, now: int, draw: Draw)
    requires CanAdvance(request, work) && !work.Listing? && !MayCreate(request, work, now)
    ensures var (work', db') := Advance(request, work, db, now, draw);
            && !MayCreate(request, work', now)
            && UsableOrgPats(db'.rows, now) <= UsableOrgPats(db.rows, now)
  {
    match work
    case RevokingLegacy(legacy, _) => UsableAfterRevoke(db.rows, legacy[0], now);
    case Revoking(ids, _) => UsableAfterRevoke(db.rows, ids[0], now);
    case Creating => UsableAfterIssue(db.rows, NewOrgPat(draw.id, draw.token, request.expires), now);
    case _ =>
  }

  lemma AdvanceHandles(request: Request, work: Work, db: Db, now: int, draw: Draw, strict: bool)
    requires CanAdvance(request, work) && Handles(request, work, UsableOrgPats(db.rows, now), now, strict)
    ensures var (work', db') := Advance(request, work, db, now, draw);
            var usable := UsableOrgPats(db'.rows, now);
            && Handles(request, work', usable, now, strict)
            && (usable <= UsableOrgPats(db.rows, now) || AtMostOne(usable))
  {
    if Covers(work, UsableOrgPats(db.rows, now)) {
      AdvanceCovers(request, work, db, now, draw);
    } else {
      AdvanceWithoutCreating(request, work, db, now, draw);
    }
  }

  lemma DbCallKeepsInv(s: State, t: nat, draw: Draw, strict: bool)
    requires Inv(s, strict) && InsideAt(s, t) && CanAdvance(s.requests[t], s.work[t])
    ensures Inv(Step(s, DbCall(t, draw)), strict)
  {
    AdvanceHandles(s.requests[t], s.work[t], s.db, s.now, draw, strict);
    var s' := Step(s, DbCall(t, draw));
    ReturnedBefore(s, s');
  }

  lemma {:induction false} RunKeepsInv(s: State, es: seq<Event>, strict: bool)
    requires Inv(s, strict) && ValidFrom(s, es) && LawfulFrom(s, es, strict)
    ensures Inv(RunFrom(s, es), strict)
    decreases es
  {
    if es != [] {
      StepKeepsInv(s, es[0], strict);
      RunKeepsInv(Step(s, es[0]), es[1..], strict);
    }
  }

  /**
   * Once any ensure or rotate has returned, every later state of every interleaving has at most one usable
   * access token of the organisation, whatever the table held at first and whichever operations threw, as long as
   * tokens are issued outside the lock only when that is safe.
   */
  lemma SingleOrgToken(db: Db, now: int, es: seq<Event>)
    requires ValidFrom(Start(db, now), es) && LawfulFrom(Start(db, now), es, false)
    ensures var s := RunFrom(Start(db, now), es);
            SomeReturned(s) ==> AtMostOne(UsableOrgPats(s.db.rows, s.now))
  {
    RunKeepsInv(Start(db, now), es, false);
  }

  /** When an operation of a strict run returns, the row it reports is the only one that can still be usable. */
  lemma ReturnedRowIsTheOne(db: Db, now: int, es: seq<Event>, t: nat)
    requires ValidFrom(Start(db, now), es) && LawfulFrom(Start(db, now), es, true)
    requires Possible(RunFrom(Start(db, now), es), Return(t))
    ensures var s := RunFrom(Start(db, now), es);
            UsableOrgPats(s.db.rows, s.now) <= {s.work[t].rowId}
  {
    RunKeepsInv(Start(db, now), es, true);
  }

  lemma ElsewhereEffect(s: State, db: Db, now: int)
    requires Possible(s, Elsewhere(db, now))
    ensures Step(s, Elsewhere(db, now)) == State(s.mutex, s.requests, s.work, db, now)
  {
  }

  /** An operation that returns or throws leaves the database alone, is done, and lets the next one in. */
  lemma EndingFreesTheLock(db: Db, now: int, es: seq<Event>, t: nat, threw: bool)
    requires ValidFrom(Start(db, now), es) && LawfulFrom(Start(db, now), es, false)
    requires Possible(RunFrom(Start(db, now), es), if threw then Throw(t) else Return(t))
    ensures var s := RunFrom(Start(db, now), es);
            var s' := Step(s, if threw then Throw(t) else Return(t));
            && s'.db == s.db && s'.work == s.work && |s'.mutex.calls| == |s.mutex.calls|
            && s'.mutex.calls[t] == PromiseLock.Done(threw)
            && (t + 1 < |s.mutex.calls| ==> Possible(s', Enter(t + 1)))
  {
    RunKeepsInv(Start(db, now), es, false);
    var s := RunFrom(Start(db, now), es);
    PromiseLock.LeaveKeepsInv(PromiseLock.Chained, s.mutex, t, threw);
    PromiseLock.SettledExactlyWhenAllDone(PromiseLock.Chained, PromiseLock.Leave(s.mutex, t, threw), t + 1);
  }

  // ----- issuing outside the lock -----

  lemma UsableAfterIssue(rows: seq<Row>, row: Row, now: int)
    ensures UsableOrgPats([row] + rows, now)
         == UsableOrgPats(rows, now) + if UsableOrgPat(row, now) then {row.id} else {}
  {
    var all := [row] + rows;
    assert row in all && forall r :: r in all <==> r == row || r in rows;
  }

  /** Issuing a usable token of the organisation keeps at most one if and only if none is usable before. */
  lemma IssuingKeepsOneExactlyWhenNone(rows: seq<Row>, row: Row, now: int)
    requires UsableOrgPat(row, now) && !HasId(rows, row.id)
    ensures AtMostOne(UsableOrgPats([row] + rows, now)) <==> UsableOrgPats(rows, now) == {}
  {
    UsableAfterIssue(rows, row, now);
    if x :| x in UsableOrgPats(rows, now) {
      var r :| r in rows && r.id == x;
      var i :| 0 <= i < |rows| && rows[i] == r;
      assert x != row.id;
    }
  }

  ghost predicate HasOne(s: State) {
    AtMostOne(UsableOrgPats(s.db.rows, s.now))
  }

  /** Every continuation that issues safely keeps at most one usable token. */
  ghost predicate KeepsOne(s: State) {
    forall rest :: ValidFrom(s, rest) && LawfulFrom(s, rest, false) ==> HasOne(RunFrom(s, rest))
  }

  lemma {:induction false} KeepsOneFromNow(s: State)
    requires KeepsOne(s)
    ensures HasOne(s)
  {
    var none: seq<Event> := [];
    assert ValidFrom(s, none) && LawfulFrom(s, none, false) && RunFrom(s, none) == s;
  }

  lemma {:induction false} KeepsOneAfter(s: State, e: Event)
    requires KeepsOne(s) && Possible(s, e) && Lawful(s, e, false)
    ensures KeepsOne(Step(s, e))
  {
    var s' := Step(s, e);
    forall rest | ValidFrom(s', rest) && LawfulFrom(s', rest, false)
      ensures HasOne(RunFrom(s', rest))
    {
      var all := [e] + rest;
      assert all[1..] == rest;
      assert ValidFrom(s, all) && LawfulFrom(s, all, false) && RunFrom(s, all) == RunFrom(s', rest);
    }
  }

  /** The ids an operation is still going to revoke. */
  function Planned(work: Work): seq<string> {
    match work
    case RegeneratingLegacy(legacy, pats) => legacy + pats
    case RevokingLegacy(legacy, pats) => legacy + pats
    case Revoking(ids, _) => ids
    case _ => []
  }

  /** An operation that goes on to create a usable token does so beside a token it does not know of. */
  lemma {:induction false} CreatesBeside(s: State, t: nat, row: Row)
    requires InsideAt(s, t) && MayCreate(s.requests[t], s.work[t], s.now)
    requires row in s.db.rows && UsableOrgPat(row, s.now) && row.id !in Planned(s.work[t]) && HasNext(s.work[t])
    ensures !KeepsOne(s)
    decreases if s.work[t].Creating? then 0 else if s.work[t].Regenerating? then 1
              else if s.work[t].RegeneratingLegacy? then 3 else 2,
              |Planned(s.work[t])|
  {
    var draw := Draw(row.id + "x", "", "");
    var e := DbCall(t, draw);
    var s' := Step(s, e);
    if s.work[t].Creating? {
      UsableAfterIssue(s.db.rows, NewOrgPat(draw.id, draw.token, s.requests[t].expires), s.now);
      assert |draw.id| != |row.id|;
      assert row.id in UsableOrgPats(s'.db.rows, s'.now) && draw.id in UsableOrgPats(s'.db.rows, s'.now);
      if KeepsOne(s') {
        KeepsOneFromNow(s');
      }
    } else {
      StaysUsable(s, t, draw, row);
      CreatesBeside(s', t, row);
    }
    if KeepsOne(s) {
      KeepsOneAfter(s, e);
    }
  }

  lemma StaysUsable(s: State, t: nat, draw: Draw, row: Row)
    requires InsideAt(s, t) && CanAdvance(s.requests[t], s.work[t]) && WillCreate(s.work[t]) && !s.work[t].Creating?
    requires row in s.db.rows && row.id !in Planned(s.work[t])
    ensures var s' := Step(s, DbCall(t, draw));
            row in s'.db.rows && WillCreate(s'.work[t]) && row.id !in Planned(s'.work[t]) && HasNext(s'.work[t])
  {
    var s' := Step(s, DbCall(t, draw));
    var i :| 0 <= i < |s.db.rows| && s.db.rows[i] == row;
    assert s'.db.rows[i] == row;
  }

  /**
   * The exact condition. Once an operation has returned, issuing a usable token outside the lock keeps at most one
   * in every continuation if and only if none is usable before and no operation under way is going to create one.
   * The id of the new row is fresh, so that no operation plans to revoke it.
   */
  lemma SafeToIssueExactly(db: Db, now: int, es: seq<Event>, row: Row)
    requires ValidFrom(Start(db, now), es) && LawfulFrom(Start(db, now), es, false)
    requires var s := RunFrom(Start(db, now), es);
             && SomeReturned(s) && Possible(s, IssueElsewhere(row)) && UsableOrgPat(row, s.now)
             && forall t: nat :: InsideAt(s, t) ==> row.id !in Planned(s.work[t])
    ensures var s := RunFrom(Start(db, now), es);
            KeepsOne(Step(s, IssueElsewhere(row))) <==> SafeToIssue(s)
  {
    RunKeepsInv(Start(db, now), es, false);
    var s := RunFrom(Start(db, now), es);
    var s' := Step(s, IssueElsewhere(row));
    if SafeToIssue(s) {
      StepKeepsInv(s, IssueElsewhere(row), false);
      SafeKeepsOne(s');
    } else if KeepsOne(s') {
      KeepsOneFromNow(s');
      IssuingKeepsOneExactlyWhenNone(s.db.rows, row, s.now);
      var t: nat :| InsideAt(s, t) && MayCreate(s.requests[t], s.work[t], s.now);
      assert s'.db.rows[0] == row && InsideAt(s', t);
      CreatesBeside(s', t, row);
    }
  }

  lemma SafeKeepsOne(s: State)
    requires Inv(s, false) && SomeReturned(s)
    ensures KeepsOne(s)
  {
    forall rest | ValidFrom(s, rest) && LawfulFrom(s, rest, false)
      ensures HasOne(RunFrom(s, rest))
    {
      RunKeepsInv(s, rest, false);
      ReturnedForGood(s, rest);
    }
  }

  lemma {:induction false} ReturnedForGood(s: State, es: seq<Event>)
    requires ValidFrom(s, es) && SomeReturned(s)
    ensures SomeReturned(RunFrom(s, es))
    decreases es
  {
    if es != [] {
      var t :| 0 <= t < |s.mutex.calls| && s.mutex.calls[t] == PromiseLock.Done(false);
      var s' := Step(s, es[0]);
      assert s'.mutex.calls[t] == PromiseLock.Done(false);
      ReturnedForGood(s', es[1..]);
    }
  }

  lemma {:induction false} OneMore(s: State, es: seq<Event>, e: Event)
    requires ValidFrom(s, es) && Possible(RunFrom(s, es), e)
    ensures ValidFrom(s, es + [e]) && RunFrom(s, es + [e]) == Step(RunFrom(s, es), e)
    decreases es
  {
    var all := es + [e];
    if es == [] {
      assert all[1..] == [] && ValidFrom(Step(s, e), []);
    } else {
      OneMore(Step(s, es[0]), es[1..], e);
      assert all[1..] == es[1..] + [e];
    }
  }

  /** The state in which the only operation, an ensure, is about to create its token in an empty table. */
  function AboutToCreate(at: int, now: int, draw: Draw): State {
    State(PromiseLock.State(PromiseLock.Then(PromiseLock.Fulfilled, 0), [PromiseLock.Inside], [0]),
          [EnsureToken(At(at))], [Creating], Db([], Some(draw.apiToken)), now)
  }

  lemma {:induction false} EnsureUpToCreate(at: int, now: int, draw: Draw) returns (es: seq<Event>)
    ensures var start := Start(Db([], None), now);
            ValidFrom(start, es) && RunFrom(start, es) == AboutToCreate(at, now, draw)
  {
    var start := Start(Db([], None), now);
    var request := EnsureToken(At(at));
    var none: seq<Row> := [];
    es := [];
    OneMore(start, es, Call(request));
    es := es + [Call(request)];
    var s1 := RunFrom(start, es);
    assert s1.mutex.calls == [PromiseLock.Waiting(PromiseLock.Fulfilled)];
    OneMore(start, es, Enter(0));
    es := es + [Enter(0)];
    var s2 := AboutToCreate(at, now, draw).(work := [Listing], db := Db([], None));
    assert RunFrom(start, es) == s2;
    OneMore(start, es, DbCall(0, draw));
    es := es + [DbCall(0, draw)];
    assert ActiveOrg(none, now) == [] && OfType(none, Pat) == [] && OfType(none, LegacyDefault) == [];
    assert RunFrom(start, es) == s2.(work := [Regenerating]);
    OneMore(start, es, DbCall(0, draw));
    es := es + [DbCall(0, draw)];
    assert RunFrom(start, es) == AboutToCreate(at, now, draw);
  }

  ghost predicate TwoTokens(s: State) {
    SomeReturned(s) && !HasOne(s)
  }

  /** The failing run: an ensure has returned its token, and the token route issues another one. */
  lemma {:induction false} IssueAfterEnsure(at: int, now: int, draw: Draw, row: Row) returns (es: seq<Event>)
    requires now < at && UsableOrgPat(row, now) && row.id != draw.id
    ensures var start := Start(Db([], None), now); ValidFrom(start, es) && TwoTokens(RunFrom(start, es))
  {
    var start := Start(Db([], None), now);
    es := EnsureUpToCreate(at, now, draw);
    var made := NewOrgPat(draw.id, draw.token, At(at));
    OneMore(start, es, DbCall(0, draw));
    es := es + [DbCall(0, draw)];
    assert RunFrom(start, es).db.rows == [made];
    OneMore(start, es, Return(0));
    es := es + [Return(0)];
    assert RunFrom(start, es).mutex.calls[0] == PromiseLock.Done(false);
    OneMore(start, es, IssueElsewhere(row));
    es := es + [IssueElsewhere(row)];
    var t := RunFrom(start, es);
    assert t.mutex.calls[0] == PromiseLock.Done(false);
    BothUsable(t.db.rows, row, made, now);
  }

  /** It fails with no usable token before as well, if an ensure has listed and not yet created. */
  lemma {:induction false} IssueInsideEnsure(at: int, now: int, draw: Draw, row: Row) returns (es: seq<Event>)
    requires now < at && UsableOrgPat(row, now) && row.id != draw.id
    ensures var start := Start(Db([], None), now); ValidFrom(start, es) && TwoTokens(RunFrom(start, es))
  {
    var start := Start(Db([], None), now);
    es := EnsureUpToCreate(at, now, draw);
    var made := NewOrgPat(draw.id, draw.token, At(at));
    OneMore(start, es, IssueElsewhere(row));
    es := es + [IssueElsewhere(row)];
    assert RunFrom(start, es).db.rows == [row];
    OneMore(start, es, DbCall(0, draw));
    es := es + [DbCall(0, draw)];
    assert RunFrom(start, es).db.rows == [made, row];
    OneMore(start, es, Return(0));
    es := es + [Return(0)];
    var t := RunFrom(start, es);
    assert t.mutex.calls[0] == PromiseLock.Done(false);
    BothUsable(t.db.rows, made, row, now);
  }

  lemma BothUsable(rows: seq<Row>, a: Row, b: Row, now: int)
    requires rows == [a, b] && a.id != b.id && UsableOrgPat(a, now) && UsableOrgPat(b, now)
    ensures !AtMostOne(UsableOrgPats(rows, now))
  {
    assert rows[0] in rows && rows[1] in rows;
    assert a.id in UsableOrgPats(rows, now) && b.id in UsableOrgPats(rows, now);
  }

  // ----- what else the service does to the table is covered by `Elsewhere` -----

  lemma ValidateIsElsewhere(db: Db, token: Token, now: int)
    ensures UsableOrgPats(Validate(db, token, now).0.rows, now) <= UsableOrgPats(db.rows, now)
  {
    var rows' := Validate(db, token, now).0.rows;
    FirstLegacyIsLegacy(db.rows);
    forall r | r in rows' && IsOrgPat(r) && IsTokenUsable(r, now)
      ensures r.id in UsableOrgPats(db.rows, now)
    {
      assert r in db.rows;
    }
  }

  lemma IssuingForOthersIsElsewhere(db: Db, row: Row, now: int)
    requires !IsOrgPat(row)
    ensures UsableOrgPats([row] + db.rows, now) <= UsableOrgPats(db.rows, now)
  {
    forall r | r in [row] + db.rows && IsOrgPat(r) && IsTokenUsable(r, now)
      ensures r.id in UsableOrgPats(db.rows, now)
    {
      assert r in db.rows;
    }
  }

  // ---------------------------------------------------------------------------
  // Alone, and without the lock
  // ---------------------------------------------------------------------------

  /** The id that the next call of an operation revokes, if a row still has it. */
  function RevokedNow(work: Work, rows: seq<Row>): seq<string> {
    match work
    case RevokingLegacy(legacy, _) => if legacy != [] && HasId(rows, legacy[0]) then [legacy[0]] else []
    case Revoking(ids, _) => if ids != [] && HasId(rows, ids[0]) then [ids[0]] else []
    case _ => []
  }

  /**
   * The database calls of one operation, run to the end with nothing in between: the database and what the caller
   * is told. `revoked` collects the ids revoked so far.
   */
  function RunAlone(request: Request, work: Work, revoked: seq<string>, db: Db, now: int, draw: Draw): (Db, Outcome)
    decreases match work
              case Listing => 5
              case RegeneratingLegacy(_, _) => 4
              case RevokingLegacy(_, _) => 3
              case Revoking(_, _) => 2
              case Regenerating => 1
              case Creating => 0
              case Finished(_) => 0,
              match work
              case RevokingLegacy(legacy, _) => |legacy|
              case Revoking(ids, _) => |ids|
              case _ => 0,
              if work.Creating? then 1 else 0
  {
    if !CanAdvance(request, work) then
      (db, if work.Finished? then Kept(work.rowId, revoked) else Failed)
    else
      var (work', db') := Advance(request, work, db, now, draw);
      if work.Creating? then (db', Created(NewOrgPat(draw.id, draw.token, request.expires), revoked))
      else RunAlone(request, work', revoked + RevokedNow(work, db.rows), db', now, draw)
  }

  predicate AllHaveRows(rows: seq<Row>, ids: seq<string>) {
    forall i :: 0 <= i < |ids| ==> HasId(rows, ids[i])
  }

  lemma {:induction false} RevokingAlone(
      request: Request, ids: seq<string>, keeper: Option<string>, revoked: seq<string>, db: Db, now: int, draw: Draw)
    requires AllHaveRows(db.rows, ids)
    ensures RunAlone(request, NextRevocation(ids, keeper), revoked, db, now, draw)
         == RunAlone(request, NextRevocation([], keeper), revoked + ids,
                     db.(rows := RevokeAll(db.rows, ids)), now, draw)
    decreases |ids|
  {
    if ids == [] {
      assert revoked + ids == revoked;
    } else {
      RevokeKeepsIds(db.rows, ids[0]);
      RevokingAlone(request, ids[1..], keeper, revoked + [ids[0]], db.(rows := Revoke(db.rows, ids[0])), now, draw);
      assert revoked + [ids[0]] + ids[1..] == revoked + ids;
    }
  }

  lemma {:induction false} LegacyAlone(
      request: Request, legacy: seq<string>, pats: seq<string>, revoked: seq<string>, db: Db, now: int, draw: Draw)
    requires AllHaveRows(db.rows, legacy)
    ensures RunAlone(request, NextLegacy(legacy, pats), revoked, db, now, draw)
         == RunAlone(request, AfterLegacy(pats), revoked + legacy,
                     db.(rows := RevokeAll(db.rows, legacy)), now, draw)
    decreases |legacy|
  {
    if legacy == [] {
      assert revoked + legacy == revoked;
    } else {
      RevokeKeepsIds(db.rows, legacy[0]);
      var db' := db.(rows := Revoke(db.rows, legacy[0]));
      LegacyAlone(request, legacy[1..], pats, revoked + [legacy[0]], db', now, draw);
      assert revoked + [legacy[0]] + legacy[1..] == revoked + legacy;
    }
  }

  lemma IssuingAlone(request: Request, revoked: seq<string>, db: Db, now: int, draw: Draw)
    ensures RunAlone(request, Regenerating, revoked, db, now, draw) == Issue(db.rows, draw, request.expires, revoked)
  {
    var created := db.(apiToken := Some(draw.apiToken));
    assert revoked + [] == revoked;
    assert RunAlone(request, Regenerating, revoked, db, now, draw)
        == RunAlone(request, Creating, revoked, created, now, draw);
  }

  lemma ListedHaveRows(rows: seq<Row>, now: int)
    ensures var active := ActiveOrg(rows, now);
            && AllHaveRows(rows, Ids(active))
            && AllHaveRows(rows, Ids(OfType(active, LegacyDefault)))
            && AllHaveRows(rows, Ids(OfType(active, Pat)))
  {
    var active := ActiveOrg(rows, now);
    ActiveOrgHaveIds(rows, now);
    OfTypeMembers(active, LegacyDefault);
    OfTypeMembers(active, Pat);
  }

  lemma RotateAlone(expires: Expiry, db: Db, now: int, draw: Draw)
    ensures RunAlone(RotateToken(expires), Listing, [], db, now, draw) == Rotate(db, now, expires, draw)
  {
    var request := RotateToken(expires);
    var ids := Ids(ActiveOrg(db.rows, now));
    ListedHaveRows(db.rows, now);
    assert [] + RevokedNow(Listing, db.rows) == [];
    assert RunAlone(request, Listing, [], db, now, draw)
        == RunAlone(request, NextRevocation(ids, None), [], db, now, draw);
    RevokingAlone(request, ids, None, [], db, now, draw);
    assert [] + ids == ids;
    IssuingAlone(request, ids, db.(rows := RevokeAll(db.rows, ids)), now, draw);
  }

  /** Up to the point where the access tokens are dealt with, an ensure only touches the legacy token. */
  lemma EnsureAloneLegacy(expires: Expiry, db: Db, now: int, draw: Draw)
    ensures var active := ActiveOrg(db.rows, now);
            var legacy := Ids(OfType(active, LegacyDefault));
            var db' := Db(RevokeAll(db.rows, legacy), if legacy == [] then db.apiToken else Some(draw.apiToken));
            RunAlone(EnsureToken(expires), Listing, [], db, now, draw) ==
            RunAlone(EnsureToken(expires), AfterLegacy(Ids(OfType(active, Pat))), legacy, db', now, draw)
  {
    var request := EnsureToken(expires);
    var active := ActiveOrg(db.rows, now);
    var legacy, pats := Ids(OfType(active, LegacyDefault)), Ids(OfType(active, Pat));
    var none: seq<string> := [];
    ListedHaveRows(db.rows, now);
    assert none + RevokedNow(Listing, db.rows) == none;
    if legacy == [] {
      assert RunAlone(request, Listing, none, db, now, draw)
          == RunAlone(request, AfterLegacy(pats), none, db, now, draw);
    } else {
      var regenerated := db.(apiToken := Some(draw.apiToken));
      assert none + RevokedNow(RegeneratingLegacy(legacy, pats), db.rows) == none;
      assert RunAlone(request, Listing, none, db, now, draw)
          == RunAlone(request, RegeneratingLegacy(legacy, pats), none, db, now, draw);
      assert RunAlone(request, RegeneratingLegacy(legacy, pats), none, db, now, draw)
          == RunAlone(request, NextLegacy(legacy, pats), none, regenerated, now, draw);
      LegacyAlone(request, legacy, pats, none, regenerated, now, draw);
      assert none + legacy == legacy;
    }
  }

  lemma {:induction false} EnsureAlone(expires: Expiry, db: Db, now: int, draw: Draw)
    ensures RunAlone(EnsureToken(expires), Listing, [], db, now, draw) == Ensure(db, now, expires, draw)
  {
    var request := EnsureToken(expires);
    var active := ActiveOrg(db.rows, now);
    var legacy, pats := Ids(OfType(active, LegacyDefault)), Ids(OfType(active, Pat));
    var db1 := Db(RevokeAll(db.rows, legacy), if legacy == [] then db.apiToken else Some(draw.apiToken));
    EnsureAloneLegacy(expires, db, now, draw);
    if pats == [] {
      IssuingAlone(request, legacy, db1, now, draw);
    } else {
      ListedHaveRows(db.rows, now);
      RevokeAllKeepsIds(db.rows, legacy);
      KeepingAlone(request, pats, legacy, db1, now, draw);
    }
  }

  lemma {:induction false} KeepingAlone(
      request: Request, pats: seq<string>, revoked: seq<string>, db: Db, now: int, draw: Draw)
    requires pats != [] && AllHaveRows(db.rows, pats)
    ensures RunAlone(request, AfterLegacy(pats), revoked, db, now, draw)
         == (db.(rows := RevokeAll(db.rows, pats[1..])), Kept(pats[0], revoked + pats[1..]))
  {
    RevokingAlone(request, pats[1..], Some(pats[0]), revoked, db, now, draw);
  }

  lemma RevokeAllKeepsIds(rows: seq<Row>, ids: seq<string>)
    ensures forall x :: HasId(rows, x) ==> HasId(RevokeAll(rows, ids), x)
  {
    RevokeAllAt(rows, ids);
    forall x | HasId(rows, x)
      ensures HasId(RevokeAll(rows, ids), x)
    {
      var i :| 0 <= i < |rows| && rows[i].id == x;
      assert RevokeAll(rows, ids)[i].id == x;
    }
  }

  /**
   * Without interference the steps compute what the sequential operations of `TokenStore` compute: the same
   * database, and the same answer with the same row and the same revoked ids.
   */
  lemma AloneIsSequential(request: Request, db: Db, now: int, draw: Draw)
    ensures RunAlone(request, Listing, [], db, now, draw)
         == match request
            case RotateToken(expires) => Rotate(db, now, expires, draw)
            case EnsureToken(expires) => Ensure(db, now, expires, draw)
  {
    match request
    case RotateToken(expires) => RotateAlone(expires, db, now, draw);
    case EnsureToken(expires) => EnsureAlone(expires, db, now, draw);
  }

  lemma HeadIdIsDistinct(rows: seq<Row>)
    requires rows != [] && DistinctIds(rows)
    ensures DistinctIds(rows[1..]) && forall r :: r in rows[1..] ==> r.id != rows[0].id
  {
    forall r | r in rows[1..]
      ensures r.id != rows[0].id
    {
      var i :| 0 <= i < |rows[1..]| && rows[1..][i] == r;
      assert rows[i + 1] == r;
    }
  }

  lemma ConsKeepsDistinct(row: Row, rest: seq<Row>)
    requires DistinctIds(rest) && forall r :: r in rest ==> r.id != row.id
    ensures DistinctIds([row] + rest)
  {
    var all := [row] + rest;
    forall i, j | 0 <= i < j < |all|
      ensures all[i].id != all[j].id
    {
      assert all[j] == rest[j - 1] && rest[j - 1] in rest;
    }
  }

  lemma {:induction false} OfTypeKeepsIdsDistinct(rows: seq<Row>, tokenType: TokenType)
    requires DistinctIds(rows)
    ensures DistinctIds(OfType(rows, tokenType))
  {
    if rows != [] {
      HeadIdIsDistinct(rows);
      OfTypeKeepsIdsDistinct(rows[1..], tokenType);
      OfTypeMembers(rows[1..], tokenType);
      ConsKeepsDistinct(rows[0], OfType(rows[1..], tokenType));
      assert [] + OfType(rows[1..], tokenType) == OfType(rows[1..], tokenType);
    }
  }

  lemma {:induction false} ActiveKeepsIdsDistinct(rows: seq<Row>, now: int)
    requires DistinctIds(rows)
    ensures DistinctIds(ActiveOrg(rows, now))
  {
    if rows != [] {
      HeadIdIsDistinct(rows);
      ActiveKeepsIdsDistinct(rows[1..], now);
      ActiveOrgMembers(rows[1..], now);
      ConsKeepsDistinct(rows[0], ActiveOrg(rows[1..], now));
      assert [] + ActiveOrg(rows[1..], now) == ActiveOrg(rows[1..], now);
    }
  }

  /** A row that is not revoked on the way stays usable. */
  lemma SurvivesRevocation(rows: seq<Row>, ids: seq<string>, row: Row, now: int)
    requires row in rows && IsOrgPat(row) && IsTokenUsable(row, now) && row.id !in ids
    ensures row in RevokeAll(rows, ids)
  {
    RevokeAllAt(rows, ids);
    var i :| 0 <= i < |rows| && rows[i] == row;
    assert RevokeAll(rows, ids)[i] == row;
  }

  /** The first usable access token in the listing, which is newest first. */
  ghost predicate IsNewest(rows: seq<Row>, id: string, now: int) {
    exists i :: 0 <= i < |rows| && rows[i].id == id && UsableOrgPat(rows[i], now)
                && forall j :: 0 <= j < i ==> !UsableOrgPat(rows[j], now)
  }

  lemma {:induction false} FirstListedIsNewest(rows: seq<Row>, now: int)
    requires OfType(ActiveOrg(rows, now), Pat) != []
    ensures IsNewest(rows, OfType(ActiveOrg(rows, now), Pat)[0].id, now)
  {
    var rest := ActiveOrg(rows[1..], now);
    if OrgWide(rows[0]) && IsTokenUsable(rows[0], now) {
      assert ([rows[0]] + rest)[1..] == rest;
    } else {
      assert [] + rest == rest;
    }
    if !UsableOrgPat(rows[0], now) {
      FirstListedIsNewest(rows[1..], now);
      var id := OfType(rest, Pat)[0].id;
      var i :| 0 <= i < |rows[1..]| && rows[1..][i].id == id && UsableOrgPat(rows[1..][i], now)
               && forall j :: 0 <= j < i ==> !UsableOrgPat(rows[1..][j], now);
      assert rows[i + 1].id == id && UsableOrgPat(rows[i + 1], now);
      forall j | 0 <= j < i + 1
        ensures !UsableOrgPat(rows[j], now)
      {
        assert j > 0 ==> rows[j] == rows[1..][j - 1];
      }
    }
  }

  /**
   * An uninterrupted ensure that finds usable tokens keeps the newest of them usable, revokes the others and
   * reports it; one that finds none creates the only usable token, or fails because of its expiry and leaves none.
   */
  lemma EnsureLeavesExactlyOne(db: Db, now: int, expires: Expiry, draw: Draw)
    requires DistinctIds(db.rows)
    ensures var (db', outcome) := Ensure(db, now, expires, draw);
            match outcome
            case Kept(rowId, _) => UsableOrgPats(db'.rows, now) == {rowId} && IsNewest(db.rows, rowId, now)
            case Created(row, _) => UsableOrgPats(db.rows, now) == {} && expires.At?
                                    && UsableOrgPats(db'.rows, now) == if expires.at > now then {row.id} else {}
            case Failed => UsableOrgPats(db.rows, now) == {} && !expires.At? && UsableOrgPats(db'.rows, now) == {}
  {
    var active := ActiveOrg(db.rows, now);
    UsableAreListed(db.rows, now);
    if OfType(active, Pat) == [] {
      assert UsableOrgPats(db.rows, now) == {};
      UsableOnlyShrinks(db.rows, Ids(OfType(active, LegacyDefault)), now);
      var row := NewOrgPat(draw.id, draw.token, expires);
      CreatesIntoEmpty(RevokeAll(db.rows, Ids(OfType(active, LegacyDefault))), now, row);
    } else {
      EnsureKeeps(db.rows, now);
      FirstListedIsNewest(db.rows, now);
    }
  }

  // ----- what the sequential operations do to each row -----

  predicate ActiveOrgRow(row: Row, now: int) {
    row.scopeKind == Org && row.scopeProjectId == None && IsTokenUsable(row, now)
  }

  lemma ListedExactly(rows: seq<Row>, now: int, i: nat)
    requires DistinctIds(rows) && i < |rows|
    ensures rows[i].id in Ids(ActiveOrg(rows, now)) <==> ActiveOrgRow(rows[i], now)
    ensures forall tokenType :: rows[i].id in Ids(OfType(ActiveOrg(rows, now), tokenType))
                                <==> ActiveOrgRow(rows[i], now) && rows[i].tokenType == tokenType
  {
    var active := ActiveOrg(rows, now);
    ActiveOrgMembers(rows, now);
    IdListed(rows, active, i);
    forall tokenType
      ensures rows[i].id in Ids(OfType(active, tokenType))
              <==> ActiveOrgRow(rows[i], now) && rows[i].tokenType == tokenType
    {
      OfTypeMembers(active, tokenType);
      IdListed(rows, OfType(active, tokenType), i);
    }
  }

  lemma IdListed(rows: seq<Row>, some: seq<Row>, i: nat)
    requires DistinctIds(rows) && i < |rows| && forall r :: r in some ==> r in rows
    ensures rows[i].id in Ids(some) <==> rows[i] in some
  {
    if rows[i] in some {
      var k :| 0 <= k < |some| && some[k] == rows[i];
      assert Ids(some)[k] == rows[i].id;
    }
    if rows[i].id in Ids(some) {
      var k :| 0 <= k < |some| && Ids(some)[k] == rows[i].id;
      assert some[k] in some;
      var j :| 0 <= j < |rows| && rows[j] == some[k];
    }
  }

  /** The rows of a table after an operation, without the one it may have created. */
  function OldRows(db: Db, outcome: Outcome): seq<Row> {
    if outcome.Created? && db.rows != [] then db.rows[1..] else db.rows
  }

  /**
   * A rotation revokes exactly the organisation's usable rows and changes no other row; it reports their ids, always
   * stores the new API token, and creates its row exactly when the expiry is a valid time.
   */
  lemma RotateEffect(db: Db, now: int, expires: Expiry, draw: Draw)
    requires DistinctIds(db.rows)
    ensures var (db', outcome) := Rotate(db, now, expires, draw);
            && (outcome.Created? <==> expires.At?) && (outcome.Failed? <==> !expires.At?)
            && (outcome.Created? ==> db'.rows != [] && db'.rows[0] == outcome.row)
            && db'.apiToken == Some(draw.apiToken)
            && |OldRows(db', outcome)| == |db.rows|
            && (forall i :: 0 <= i < |db.rows| ==>
                  OldRows(db', outcome)[i]
                  == db.rows[i].(revoked := db.rows[i].revoked || ActiveOrgRow(db.rows[i], now)))
            && (outcome.Created? ==> forall i :: 0 <= i < |db.rows| ==>
                  (db.rows[i].id in outcome.revokedIds <==> ActiveOrgRow(db.rows[i], now)))
  {
    var ids := Ids(ActiveOrg(db.rows, now));
    RevokeAllAt(db.rows, ids);
    forall i | 0 <= i < |db.rows|
      ensures db.rows[i].id in ids <==> ActiveOrgRow(db.rows[i], now)
    {
      ListedExactly(db.rows, now, i);
    }
  }

  /** A usable organisation row that an ensure revokes: a legacy one, or an access token with a newer one before it. */
  ghost predicate Superseded(rows: seq<Row>, i: int, now: int)
    requires 0 <= i < |rows|
  {
    && ActiveOrgRow(rows[i], now)
    && (|| rows[i].tokenType == LegacyDefault
        || (rows[i].tokenType == Pat && exists j :: 0 <= j < i && UsableOrgPat(rows[j], now)))
  }

  ghost predicate HasActiveLegacy(rows: seq<Row>, now: int) {
    exists i :: 0 <= i < |rows| && ActiveOrgRow(rows[i], now) && rows[i].tokenType == LegacyDefault
  }

  lemma EnsureRevokes(rows: seq<Row>, now: int, i: nat)
    requires DistinctIds(rows) && i < |rows|
    ensures var active := ActiveOrg(rows, now);
            var pats := Ids(OfType(active, Pat));
            (rows[i].id in Ids(OfType(active, LegacyDefault)) || (pats != [] && rows[i].id in pats[1..]))
            <==> Superseded(rows, i, now)
  {
    var active := ActiveOrg(rows, now);
    var patRows := OfType(active, Pat);
    var pats := Ids(patRows);
    ListedExactly(rows, now, i);
    if pats != [] {
      ActiveKeepsIdsDistinct(rows, now);
      OfTypeKeepsIdsDistinct(active, Pat);
      FirstListedIsNewest(rows, now);
      assert pats == [pats[0]] + pats[1..];
      assert pats[0] !in pats[1..] by {
        assert forall k :: 1 <= k < |pats| ==> pats[k] == patRows[k].id && patRows[0].id != patRows[k].id;
      }
      var n :| 0 <= n < |rows| && rows[n].id == pats[0] && UsableOrgPat(rows[n], now)
               && forall j :: 0 <= j < n ==> !UsableOrgPat(rows[j], now);
      assert rows[i].id == pats[0] <==> i == n;
    }
  }

  /**
   * An ensure revokes exactly the superseded rows and changes no other, reports their ids, and stores a new API token
   * exactly if it found a usable legacy row or no usable access token.
   */
  lemma EnsureEffect(db: Db, now: int, expires: Expiry, draw: Draw)
    requires DistinctIds(db.rows)
    ensures var (db', outcome) := Ensure(db, now, expires, draw);
            && (outcome.Created? ==>
                  && db'.rows != [] && db'.rows[0] == outcome.row
                  && outcome.row == Row(draw.id, Hash(draw.token), Org, None, None, Pat, expires, false))
            && db'.apiToken == (if HasActiveLegacy(db.rows, now) || !outcome.Kept? then Some(draw.apiToken)
                                else db.apiToken)
            && |OldRows(db', outcome)| == |db.rows|
            && (forall i :: 0 <= i < |db.rows| ==>
                  OldRows(db', outcome)[i]
                  == db.rows[i].(revoked := db.rows[i].revoked || Superseded(db.rows, i, now)))
            && (!outcome.Failed? ==> forall i :: 0 <= i < |db.rows| ==>
                  (db.rows[i].id in outcome.revokedIds <==> Superseded(db.rows, i, now)))
  {
    var active := ActiveOrg(db.rows, now);
    var legacy, pats := Ids(OfType(active, LegacyDefault)), Ids(OfType(active, Pat));
    var rows := RevokeAll(db.rows, legacy);
    RevokeAllAt(db.rows, legacy);
    if pats != [] {
      RevokeAllAt(rows, pats[1..]);
    }
    forall i | 0 <= i < |db.rows|
      ensures (db.rows[i].id in legacy || (pats != [] && db.rows[i].id in pats[1..])) <==> Superseded(db.rows, i, now)
    {
      EnsureRevokes(db.rows, now, i);
    }
    LegacyListed(db.rows, now);
  }

  lemma LegacyListed(rows: seq<Row>, now: int)
    requires DistinctIds(rows)
    ensures Ids(OfType(ActiveOrg(rows, now), LegacyDefault)) != [] <==> HasActiveLegacy(rows, now)
  {
    var active := ActiveOrg(rows, now);
    var legacy := OfType(active, LegacyDefault);
    ActiveOrgMembers(rows, now);
    OfTypeMembers(active, LegacyDefault);
    if legacy != [] {
      assert legacy[0] in legacy;
      var i :| 0 <= i < |rows| && rows[i] == legacy[0];
    }
    if HasActiveLegacy(rows, now) {
      var i :| 0 <= i < |rows| && ActiveOrgRow(rows[i], now) && rows[i].tokenType == LegacyDefault;
      assert rows[i] in legacy;
    }
  }

  lemma CreatesIntoEmpty(rows: seq<Row>, now: int, row: Row)
    requires UsableOrgPats(rows, now) == {} && IsOrgPat(row)
    ensures UsableOrgPats([row] + rows, now) == if IsTokenUsable(row, now) then {row.id} else {}
  {
    UsableAfterCreate(rows, row, now);
    var all := [row] + rows;
    assert all[0] == row && row in all;
    if !IsTokenUsable(row, now) {
      forall r | r in all && IsOrgPat(r) && IsTokenUsable(r, now)
        ensures r.id in UsableOrgPats(rows, now)
      {
        assert r in rows;
      }
    }
  }

  lemma EnsureKeeps(rows: seq<Row>, now: int)
    requires DistinctIds(rows) && OfType(ActiveOrg(rows, now), Pat) != []
    ensures var active := ActiveOrg(rows, now);
            var pats := Ids(OfType(active, Pat));
            var revoked := RevokeAll(rows, Ids(OfType(active, LegacyDefault)));
            && UsableOrgPats(RevokeAll(revoked, pats[1..]), now) == {pats[0]}
            && pats[0] in UsableOrgPats(rows, now)
  {
    var active := ActiveOrg(rows, now);
    var patRows := OfType(active, Pat);
    var legacy, pats := Ids(OfType(active, LegacyDefault)), Ids(patRows);
    var keeper := patRows[0];
    ActiveOrgMembers(rows, now);
    OfTypeMembers(active, Pat);
    assert keeper in patRows && keeper in active;
    ActiveKeepsIdsDistinct(rows, now);
    OfTypeKeepsIdsDistinct(active, Pat);
    KeeperIsNotLegacy(active, keeper);
    assert keeper.id !in pats[1..] by {
      assert forall i :: 1 <= i < |pats| ==> pats[i] == patRows[i].id;
    }
    KeeperRemains(rows, legacy, pats, keeper, now);
  }

  lemma KeeperRemains(rows: seq<Row>, legacy: seq<string>, pats: seq<string>, keeper: Row, now: int)
    requires keeper in rows && IsOrgPat(keeper) && IsTokenUsable(keeper, now)
    requires pats != [] && pats[0] == keeper.id && keeper.id !in legacy && keeper.id !in pats[1..]
    requires pats == Ids(OfType(ActiveOrg(rows, now), Pat))
    ensures UsableOrgPats(RevokeAll(RevokeAll(rows, legacy), pats[1..]), now) == {keeper.id}
  {
    SurvivesRevocation(rows, legacy, keeper, now);
    SurvivesRevocation(RevokeAll(rows, legacy), pats[1..], keeper, now);
    UsableAreListed(rows, now);
    UsableOnlyShrinks(rows, legacy, now);
    UsableOnlyShrinks(RevokeAll(rows, legacy), pats[1..], now);
    assert pats == [pats[0]] + pats[1..];
  }

  lemma KeeperIsNotLegacy(active: seq<Row>, keeper: Row)
    requires DistinctIds(active)
    requires keeper in active && keeper.tokenType == Pat
    ensures keeper.id !in Ids(OfType(active, LegacyDefault))
  {
    var legacyRows := OfType(active, LegacyDefault);
    OfTypeMembers(active, LegacyDefault);
    forall k | 0 <= k < |legacyRows|
      ensures legacyRows[k].id != keeper.id
    {
      assert legacyRows[k] in active;
    }
  }

  lemma UsableOnlyShrinks(rows: seq<Row>, ids: seq<string>, now: int)
    ensures UsableOrgPats(RevokeAll(rows, ids), now) <= UsableOrgPats(rows, now)
    ensures forall x :: x in ids ==> x !in UsableOrgPats(RevokeAll(rows, ids), now)
  {
    RevokeAllAt(rows, ids);
    var r := RevokeAll(rows, ids);
    forall row | row in r && IsOrgPat(row) && IsTokenUsable(row, now)
      ensures row.id in UsableOrgPats(rows, now) && row.id !in ids
    {
      var i :| 0 <= i < |r| && r[i] == row;
      assert rows[i] in rows;
    }
  }

  /** The lock is needed: two ensure operations that both list before either creates leave two usable tokens. */
  lemma TwoTokensWithoutTheLock(a: Draw, b: Draw, at: int, now: int)
    requires a.id != b.id && now < at
    ensures var request := EnsureToken(At(at));
            var empty := Db([], None);
            var (w1, d1) := Advance(request, Listing, empty, now, a);
            var (w2, d2) := Advance(request, Listing, d1, now, b);
            && w1 == w2 == Regenerating
            && var one := RunAlone(request, w1, [], d2, now, a).0;
               {a.id, b.id} <= UsableOrgPats(RunAlone(request, w2, [], one, now, b).0.rows, now)
  {
    var request := EnsureToken(At(at));
    var empty := Db([], None);
    assert ActiveOrg(empty.rows, now) == [];
    IssuingAlone(request, [], empty, now, a);
    var one := RunAlone(request, Regenerating, [], empty, now, a).0;
    IssuingAlone(request, [], one, now, b);
    var two := RunAlone(request, Regenerating, [], one, now, b).0;
    assert two.rows == [NewOrgPat(b.id, b.token, At(at)), NewOrgPat(a.id, a.token, At(at))];
    assert two.rows[0] in two.rows && two.rows[1] in two.rows;
  }
}
