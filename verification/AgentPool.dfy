/**
 * The agent pool: at most five agents, one per session, with an idle timer per inactive
 * session and eviction of the least recently accessed idle session when the pool is full.
 *
 * A JavaScript `Map` iterates in insertion order, so the pool is a map and the sequence of
 * its keys. `armed` is the runtime's table of pending timeouts: `clearTimeout` removes a
 * handle from it, and only a handle that is still in it can fire.
 */
module AgentPool {
  import opened Prelude

  const MAX_POOL_SIZE: nat := 5
  const IDLE_TIMEOUT_MS: int := 10 * 60 * 1000

  datatype Entry = Entry(agent: nat, lastAccessedAt: int, isActive: bool)

  datatype Timeout = Timeout(sessionId: string, due: int)

  datatype Pool = Pool(
    order: seq<string>,
    entries: map<string, Entry>,
    idleTimers: map<string, nat>,
    armed: map<nat, Timeout>,
    nextTimer: nat,
    nextAgent: nat)

  datatype Access = Granted(agent: nat) | Refused(limit: nat, activeCount: nat)

  const EMPTY: Pool := Pool([], map[], map[], map[], 0, 0)

  function Without(order: seq<string>, sessionId: string): seq<string> {
    if order == [] then []
    else if order[|order| - 1] == sessionId then Without(order[..|order| - 1], sessionId)
    else Without(order[..|order| - 1], sessionId) + [order[|order| - 1]]
  }

  function Remove(s: Pool, sessionId: string): Pool {
    s.(order := Without(s.order, sessionId), entries := s.entries - {sessionId})
  }

  function ClearIdleTimer(s: Pool, sessionId: string): Pool {
    if sessionId in s.idleTimers then
      s.(armed := s.armed - {s.idleTimers[sessionId]}, idleTimers := s.idleTimers - {sessionId})
    else s
  }

  function StartIdleTimer(s: Pool, sessionId: string, now: int): Pool {
    var c := ClearIdleTimer(s, sessionId);
    c.(armed := c.armed[c.nextTimer := Timeout(sessionId, now + IDLE_TIMEOUT_MS)],
       idleTimers := c.idleTimers[sessionId := c.nextTimer],
       nextTimer := c.nextTimer + 1)
  }

  /** The scan of `evictOldest` over a prefix of the iteration order. */
  function Oldest(order: seq<string>, entries: map<string, Entry>): Option<string>
    ensures Oldest(order, entries).Some? ==> Oldest(order, entries).value in entries
  {
    if order == [] then None
    else
      var last := order[|order| - 1];
      var best := Oldest(order[..|order| - 1], entries);
      if last !in entries || entries[last].isActive then best
      else if best.None? || entries[last].lastAccessedAt < entries[best.value].lastAccessedAt then Some(last)
      else best
  }

  function EvictOldest(s: Pool): Pool {
    var oldest := Oldest(s.order, s.entries);
    if oldest.None? then s else Remove(ClearIdleTimer(s, oldest.value), oldest.value)
  }

  function ActiveCount(order: seq<string>, entries: map<string, Entry>): nat {
    if order == [] then 0
    else
      var last := order[|order| - 1];
      ActiveCount(order[..|order| - 1], entries) + (if last in entries && entries[last].isActive then 1 else 0)
  }

  function Admit(s: Pool, sessionId: string, now: int): (Pool, Access) {
    (s.(order := s.order + [sessionId],
        entries := s.entries[sessionId := Entry(s.nextAgent, now, true)],
        nextAgent := s.nextAgent + 1),
     Granted(s.nextAgent))
  }

  function Reuse(s: Pool, id: string, now: int): Pool
    requires id in s.entries
  {
    ClearIdleTimer(s.(entries := s.entries[id := s.entries[id].(isActive := true, lastAccessedAt := now)]), id)
  }

  function GetOrCreate(s: Pool, sessionId: string, now: int): (Pool, Access) {
    if sessionId in s.entries then
      (Reuse(s, sessionId, now), Granted(s.entries[sessionId].agent))
    else if |s.order| >= MAX_POOL_SIZE then
      var e := EvictOldest(s);
      if |e.order| >= MAX_POOL_SIZE then (e, Refused(MAX_POOL_SIZE, ActiveCount(e.order, e.entries)))
      else Admit(e, sessionId, now)
    else Admit(s, sessionId, now)
  }

  function Release(s: Pool, sessionId: string, now: int): Pool {
    if sessionId !in s.entries then s
    else
      var entry := s.entries[sessionId].(isActive := false, lastAccessedAt := now);
      StartIdleTimer(s.(entries := s.entries[sessionId := entry]), sessionId, now)
  }

  function InvalidateAll(s: Pool): Pool {
    s.(order := [], entries := map[], idleTimers := map[], armed := s.armed - s.idleTimers.Values)
  }

  /** The timeout callback. A handle that fires is no longer armed. */
  function Fire(s: Pool, handle: nat): Pool
    requires handle in s.armed
  {
    var sessionId := s.armed[handle].sessionId;
    var f := s.(armed := s.armed - {handle});
    if sessionId !in f.entries || f.entries[sessionId].isActive then f
    else Remove(f, sessionId).(idleTimers := f.idleTimers - {sessionId})
  }

  // ---------------------------------------------------------------------------
  // The invariant
  // ---------------------------------------------------------------------------

  ghost predicate Ordered(s: Pool) {
    && (forall i, j :: 0 <= i < j < |s.order| ==> s.order[i] != s.order[j])
    && (forall x :: x in s.order <==> x in s.entries)
  }

  /** The sessions with an idle timer are exactly the pooled inactive ones. */
  ghost predicate TimersMatch(s: Pool) {
    forall x :: x in s.idleTimers <==> x in s.entries && !s.entries[x].isActive
  }

  predicate TimerOf(s: Pool, x: string) {
    && x in s.entries && x in s.idleTimers
    && s.idleTimers[x] in s.armed
    && s.armed[s.idleTimers[x]] == Timeout(x, s.entries[x].lastAccessedAt + IDLE_TIMEOUT_MS)
  }

  predicate Recorded(s: Pool, h: nat) {
    && h in s.armed && h < s.nextTimer
    && s.armed[h].sessionId in s.idleTimers && s.idleTimers[s.armed[h].sessionId] == h
  }

  /** The timers the pool knows are the timers the runtime will fire, each due ten minutes after the last access. */
  ghost predicate TimersArmed(s: Pool) {
    && (forall x :: x in s.idleTimers ==> TimerOf(s, x))
    && (forall h :: h in s.armed ==> Recorded(s, h))
  }

  ghost predicate AgentsDistinct(s: Pool) {
    && (forall x :: x in s.entries ==> s.entries[x].agent < s.nextAgent)
    && (forall x, y :: x in s.entries && y in s.entries && x != y ==> s.entries[x].agent != s.entries[y].agent)
  }

  ghost predicate Inv(s: Pool) {
    |s.order| <= MAX_POOL_SIZE && Ordered(s) && TimersMatch(s) && TimersArmed(s) && AgentsDistinct(s)
  }

  lemma {:induction false} WithoutKeepsOthers(order: seq<string>, id: string)
    requires forall i, j :: 0 <= i < j < |order| ==> order[i] != order[j]
    ensures var w := Without(order, id);
            && (forall i, j :: 0 <= i < j < |w| ==> w[i] != w[j])
            && (forall x :: x in w <==> x in order && x != id)
            && |w| == if id in order then |order| - 1 else |order|
  {
    if order != [] {
      var n := |order| - 1;
      var front := order[..n];
      assert order == front + [order[n]];
      WithoutKeepsOthers(front, id);
      assert order[n] !in front;
    }
  }

  /** The others stay in the order they were in. */
  lemma WithoutAppend(order: seq<string>, x: string, id: string)
    ensures Without(order + [x], id) == if x == id then Without(order, id) else Without(order, id) + [x]
  {
    assert (order + [x])[..|order|] == order;
  }

  lemma RemoveKeepsOrder(s: Pool, id: string)
    requires Ordered(s)
    ensures Ordered(Remove(s, id))
    ensures |Remove(s, id).order| == if id in s.entries then |s.order| - 1 else |s.order|
  {
    WithoutKeepsOthers(s.order, id);
  }

  predicate Idle(entries: map<string, Entry>, x: string) {
    x in entries && !entries[x].isActive
  }

  /** `order[k]` is idle, and of the idle sessions it is the first in the order that was accessed longest ago. */
  ghost predicate FirstLeast(order: seq<string>, entries: map<string, Entry>, k: int) {
    && 0 <= k < |order| && Idle(entries, order[k])
    && (forall i :: 0 <= i < |order| && Idle(entries, order[i])
                    ==> entries[order[k]].lastAccessedAt <= entries[order[i]].lastAccessedAt)
    && (forall i :: 0 <= i < k && Idle(entries, order[i])
                    ==> entries[order[k]].lastAccessedAt < entries[order[i]].lastAccessedAt)
  }

  /** The scan returns the first idle session of least access time, and nothing only when no session is idle. */
  lemma {:induction false} OldestIsLeast(order: seq<string>, entries: map<string, Entry>)
    ensures var o := Oldest(order, entries);
            if o.None? then forall i :: 0 <= i < |order| ==> !Idle(entries, order[i])
            else exists k :: FirstLeast(order, entries, k) && order[k] == o.value
  {
    if order != [] {
      var n := |order| - 1;
      var front := order[..n];
      OldestIsLeast(front, entries);
      var best := Oldest(front, entries);
      if best.Some? {
        var k :| FirstLeast(front, entries, k) && front[k] == best.value;
        if Oldest(order, entries) == best {
          assert FirstLeast(order, entries, k);
        } else {
          assert FirstLeast(order, entries, n);
        }
      } else if Idle(entries, order[n]) {
        assert FirstLeast(order, entries, n);
      }
    }
  }

  /** The same in terms of the pool: the evicted session is pooled, idle and no idle session was accessed before it. */
  lemma OldestInPool(s: Pool)
    requires Ordered(s)
    ensures var o := Oldest(s.order, s.entries);
            if o.None? then forall x :: x in s.entries ==> s.entries[x].isActive
            else
              && Idle(s.entries, o.value)
              && forall x :: Idle(s.entries, x) ==> s.entries[o.value].lastAccessedAt <= s.entries[x].lastAccessedAt
  {
    OldestIsLeast(s.order, s.entries);
    forall x | x in s.entries
      ensures exists i :: 0 <= i < |s.order| && s.order[i] == x
    {
      assert x in s.order;
    }
  }

  lemma {:induction false} AllActiveCount(order: seq<string>, entries: map<string, Entry>)
    requires forall x :: x in order ==> x in entries && entries[x].isActive
    ensures ActiveCount(order, entries) == |order|
  {
    if order != [] {
      AllActiveCount(order[..|order| - 1], entries);
    }
  }

  lemma ClearKeepsTimersArmed(s: Pool, id: string)
    requires TimersArmed(s) && id in s.idleTimers
    ensures TimersArmed(ClearIdleTimer(s, id))
  {
    var c := ClearIdleTimer(s, id);
    forall x | x in c.idleTimers
      ensures TimerOf(c, x)
    {
      assert TimerOf(s, x) && TimerOf(s, id);
    }
    forall h | h in c.armed
      ensures Recorded(c, h)
    {
      assert Recorded(s, h);
    }
  }

  /** Dropping an idle session together with its timer. */
  lemma DropKeepsInv(s: Pool, id: string)
    requires Inv(s) && id in s.entries && !s.entries[id].isActive
    ensures Inv(Remove(ClearIdleTimer(s, id), id))
  {
    var c := ClearIdleTimer(s, id);
    ClearKeepsTimersArmed(s, id);
    RemoveKeepsOrder(c, id);
    RemoveKeepsTimersArmed(c, id);
    assert TimersMatch(Remove(c, id));
    assert AgentsDistinct(Remove(c, id));
  }

  lemma RemoveKeepsTimersArmed(c: Pool, id: string)
    requires TimersArmed(c) && id !in c.idleTimers
    ensures TimersArmed(Remove(c, id))
  {
    var r := Remove(c, id);
    forall x | x in r.idleTimers
      ensures TimerOf(r, x)
    {
      assert TimerOf(c, x);
    }
    forall h | h in r.armed
      ensures Recorded(r, h)
    {
      assert Recorded(c, h);
    }
  }

  lemma EvictKeepsInv(s: Pool)
    requires Inv(s)
    ensures Inv(EvictOldest(s))
  {
    OldestInPool(s);
    var oldest := Oldest(s.order, s.entries);
    if oldest.Some? {
      DropKeepsInv(s, oldest.value);
    }
  }

  lemma AdmitKeepsInv(s: Pool, id: string, now: int)
    requires Inv(s) && id !in s.entries && |s.order| < MAX_POOL_SIZE
    ensures Inv(Admit(s, id, now).0)
  {
    var r := Admit(s, id, now).0;
    assert id !in s.order;
    forall x | x in r.idleTimers
      ensures TimerOf(r, x)
    {
      assert TimerOf(s, x);
    }
    forall h | h in r.armed
      ensures Recorded(r, h)
    {
      assert Recorded(s, h);
    }
  }

  /** Updating a session's access time or activity touches neither the order nor the agents. */
  lemma RetouchKeepsRest(s: Pool, r: Pool, id: string)
    requires Ordered(s) && AgentsDistinct(s) && id in s.entries
    requires r.order == s.order && r.nextAgent == s.nextAgent && id in r.entries
    requires r.entries[id].agent == s.entries[id].agent
    requires r.entries == s.entries[id := r.entries[id]]
    ensures Ordered(r) && AgentsDistinct(r)
  {
  }

  lemma ReuseKeepsInv(s: Pool, id: string, now: int)
    requires Inv(s) && id in s.entries
    ensures Inv(Reuse(s, id, now))
  {
    var r := Reuse(s, id, now);
    RetouchKeepsRest(s, r, id);
    assert TimersMatch(r);
    ReuseKeepsTimers(s, id, now);
  }

  lemma ReuseKeepsTimers(s: Pool, id: string, now: int)
    requires TimersArmed(s) && id in s.entries
    ensures TimersArmed(Reuse(s, id, now))
  {
    var r := Reuse(s, id, now);
    if id in s.idleTimers {
      assert TimerOf(s, id);
    }
    forall x | x in r.idleTimers
      ensures TimerOf(r, x)
    {
      assert TimerOf(s, x);
    }
    forall h | h in r.armed
      ensures Recorded(r, h)
    {
      assert Recorded(s, h);
    }
  }

  lemma GetOrCreateKeepsInv(s: Pool, id: string, now: int)
    requires Inv(s)
    ensures Inv(GetOrCreate(s, id, now).0)
  {
    if id in s.entries {
      ReuseKeepsInv(s, id, now);
    } else if |s.order| >= MAX_POOL_SIZE {
      EvictKeepsInv(s);
      if |EvictOldest(s).order| < MAX_POOL_SIZE {
        AdmitKeepsInv(EvictOldest(s), id, now);
      }
    } else {
      AdmitKeepsInv(s, id, now);
    }
  }

  lemma ReleaseKeepsInv(s: Pool, id: string, now: int)
    requires Inv(s)
    ensures Inv(Release(s, id, now))
  {
    if id in s.entries {
      var r := Release(s, id, now);
      RetouchKeepsRest(s, r, id);
      assert TimersMatch(r);
      ReleaseKeepsTimers(s, id, now);
    }
  }

  lemma ReleaseKeepsTimers(s: Pool, id: string, now: int)
    requires TimersArmed(s) && id in s.entries
    ensures TimersArmed(Release(s, id, now))
  {
    var r := Release(s, id, now);
    if id in s.idleTimers {
      assert TimerOf(s, id);
    }
    forall x | x in r.idleTimers
      ensures TimerOf(r, x)
    {
      if x != id {
        assert TimerOf(s, x);
        assert Recorded(s, s.idleTimers[x]);
      }
    }
    forall h | h in r.armed
      ensures Recorded(r, h)
    {
      if h != s.nextTimer {
        assert Recorded(s, h);
      }
    }
  }

  lemma InvalidateKeepsInv(s: Pool)
    requires Inv(s)
    ensures Inv(InvalidateAll(s)) && InvalidateAll(s).armed == map[]
  {
    forall h | h in s.armed
      ensures h in s.idleTimers.Values
    {
      assert Recorded(s, h);
    }
  }

  lemma FireKeepsInv(s: Pool, h: nat)
    requires Inv(s) && h in s.armed
    ensures var id := s.armed[h].sessionId;
            && id in s.entries && !s.entries[id].isActive
            && Fire(s, h) == Remove(ClearIdleTimer(s, id), id)
    ensures Inv(Fire(s, h))
  {
    assert Recorded(s, h);
    var id := s.armed[h].sessionId;
    assert TimerOf(s, id);
    DropKeepsInv(s, id);
  }

  // ---------------------------------------------------------------------------
  // Every run
  // ---------------------------------------------------------------------------

  datatype Event =
    | Get(sessionId: string, now: int)
    | Put(sessionId: string, now: int)
    | Reset
    | TimerFires(handle: nat, now: int)

  /** A timeout fires at or after its due time, and not once it has been cleared. */
  predicate Possible(s: Pool, e: Event) {
    e.TimerFires? ==> e.handle in s.armed && s.armed[e.handle].due <= e.now
  }

  function Step(s: Pool, e: Event): Pool
    requires Possible(s, e)
  {
    match e
    case Get(sessionId, now) => GetOrCreate(s, sessionId, now).0
    case Put(sessionId, now) => Release(s, sessionId, now)
    case Reset => InvalidateAll(s)
    case TimerFires(handle, _) => Fire(s, handle)
  }

  lemma StepKeepsInv(s: Pool, e: Event)
    requires Inv(s) && Possible(s, e)
    ensures Inv(Step(s, e))
  {
    match e
    case Get(sessionId, now) => GetOrCreateKeepsInv(s, sessionId, now);
    case Put(sessionId, now) => ReleaseKeepsInv(s, sessionId, now);
    case Reset => InvalidateKeepsInv(s);
    case TimerFires(handle, _) => FireKeepsInv(s, handle);
  }

  predicate ValidFrom(s: Pool, es: seq<Event>)
    decreases es
  {
    es == [] || (Possible(s, es[0]) && ValidFrom(Step(s, es[0]), es[1..]))
  }

  function RunFrom(s: Pool, es: seq<Event>): Pool
    requires ValidFrom(s, es)
    decreases es
  {
    if es == [] then s else RunFrom(Step(s, es[0]), es[1..])
  }

  /** The pool invariant holds after every sequence of calls and timer callbacks, in any order. */
  lemma {:induction false} PoolInvariant(s: Pool, es: seq<Event>)
    requires Inv(s) && ValidFrom(s, es)
    ensures Inv(EMPTY) && Inv(RunFrom(s, es))
    decreases es
  {
    if es != [] {
      StepKeepsInv(s, es[0]);
      PoolInvariant(Step(s, es[0]), es[1..]);
    }
  }

  /** An active session leaves the pool only through `invalidateAll`. */
  lemma ActiveSessionsStay(s: Pool, e: Event, id: string)
    requires Inv(s) && Possible(s, e) && !e.Reset?
    requires id in s.entries && s.entries[id].isActive
    ensures id in Step(s, e).entries && Step(s, e).entries[id].agent == s.entries[id].agent
  {
    match e
    case Get(_, now) => ActiveSurvivesGet(s, e, id);
    case Put(_, _) =>
    case TimerFires(handle, _) => FireKeepsInv(s, handle);
  }

  lemma ActiveSurvivesGet(s: Pool, e: Event, id: string)
    requires Inv(s) && e.Get? && id in s.entries && s.entries[id].isActive
    ensures id in Step(s, e).entries && Step(s, e).entries[id].agent == s.entries[id].agent
  {
    OldestInPool(s);
  }

  /** Access evicts only from a full pool, and then an idle session no idle session was accessed before. */
  lemma EvictsLeastRecentlyUsed(s: Pool, id: string, now: int, gone: string)
    requires Inv(s) && gone in s.entries && gone !in Step(s, Get(id, now)).entries
    ensures id !in s.entries && |s.order| == MAX_POOL_SIZE && !s.entries[gone].isActive
    ensures forall x :: x in s.entries && !s.entries[x].isActive
                        ==> s.entries[gone].lastAccessedAt <= s.entries[x].lastAccessedAt
    ensures forall x :: x in s.entries && x != gone ==> x in Step(s, Get(id, now)).entries
  {
    OldestInPool(s);
  }

  /** A timer removes only a session that has been idle, untouched, for ten minutes. */
  lemma ExpiresOnlyWhenIdle(s: Pool, e: Event, gone: string)
    requires Inv(s) && Possible(s, e) && e.TimerFires? && gone in s.entries && gone !in Step(s, e).entries
    ensures !s.entries[gone].isActive && e.now - s.entries[gone].lastAccessedAt >= IDLE_TIMEOUT_MS
  {
    FireKeepsInv(s, e.handle);
    assert Recorded(s, e.handle);
    assert TimerOf(s, s.armed[e.handle].sessionId);
  }

  /** The answer of `getOrCreate`: refusal exactly when the session is unpooled and all five entries are active. */
  lemma RefusesExactlyWhenSaturated(s: Pool, id: string, now: int)
    requires Inv(s)
    ensures var (s', access) := GetOrCreate(s, id, now);
            && (access.Refused? <==> id !in s.entries && |s.order| == MAX_POOL_SIZE
                                     && forall x :: x in s.entries ==> s.entries[x].isActive)
            && (access.Refused? ==> s' == s && access == Refused(MAX_POOL_SIZE, MAX_POOL_SIZE))
            && (access.Granted? ==> id in s'.entries && s'.entries[id] == Entry(access.agent, now, true))
            && (access.Granted? && id in s.entries ==> access.agent == s.entries[id].agent)
            && (access.Granted? && id !in s.entries
                ==> forall x :: x in s.entries ==> s.entries[x].agent != access.agent)
  {
    OldestInPool(s);
    var oldest := Oldest(s.order, s.entries);
    if oldest.Some? {
      RemoveKeepsOrder(ClearIdleTimer(s, oldest.value), oldest.value);
    } else {
      assert forall x :: x in s.entries ==> x in s.order;
      AllActiveCount(s.order, s.entries);
    }
  }

  // ----- what each operation changes, and what it leaves alone -----

  /** The session has the same timer as before, or none as before. */
  ghost predicate SameTimer(s: Pool, s': Pool, x: string) {
    && (x in s.idleTimers <==> x in s'.idleTimers)
    && (x in s.idleTimers ==> && s'.idleTimers[x] == s.idleTimers[x]
                              && s.idleTimers[x] in s.armed && s.idleTimers[x] in s'.armed
                              && s'.armed[s.idleTimers[x]] == s.armed[s.idleTimers[x]])
  }

  /** A released session is inactive from now on and its timer is due after the idle timeout; nothing else changes. */
  ghost predicate Released(s: Pool, s': Pool, id: string, now: int) {
    if id !in s.entries then s' == s
    else
      && s'.entries == s.entries[id := Entry(s.entries[id].agent, now, false)]
      && s'.order == s.order
      && id in s'.idleTimers && s'.idleTimers[id] in s'.armed
      && s'.armed[s'.idleTimers[id]] == Timeout(id, now + IDLE_TIMEOUT_MS)
      && (forall x :: x != id ==> SameTimer(s, s', x))
  }

  lemma ReleaseEffect(s: Pool, id: string, now: int)
    requires Inv(s)
    ensures Released(s, Release(s, id, now), id, now)
  {
    var s' := Release(s, id, now);
    forall x | x != id && x in s.idleTimers
      ensures SameTimer(s, s', x)
    {
      assert TimerOf(s, x) && Recorded(s, s.idleTimers[x]);
    }
  }

  /** A granted session is active from now on, without a timer, and last in the order if it is new. */
  ghost predicate Accessed(s: Pool, s': Pool, id: string, agent: nat, now: int) {
    && id in s'.entries && s'.entries[id] == Entry(agent, now, true) && id !in s'.idleTimers
    && (forall x :: x != id && x in s'.entries
                    ==> x in s.entries && s'.entries[x] == s.entries[x] && SameTimer(s, s', x))
    && (id in s.entries || |s.order| < MAX_POOL_SIZE ==> forall x :: x in s.entries ==> x in s'.entries)
    && (id in s.entries ==> s'.order == s.order)
    && (id !in s.entries && |s.order| < MAX_POOL_SIZE ==> s'.order == s.order + [id])
    && (id !in s.entries && |s.order| == MAX_POOL_SIZE
        ==> exists gone :: gone in s.entries && gone !in s'.entries && s'.order == Without(s.order, gone) + [id])
  }

  lemma AccessEffect(s: Pool, id: string, now: int)
    requires Inv(s)
    ensures var (s', access) := GetOrCreate(s, id, now);
            access.Granted? ==> Accessed(s, s', id, access.agent, now)
  {
    var (s', access) := GetOrCreate(s, id, now);
    if access.Granted? {
      OldestInPool(s);
      var oldest := Oldest(s.order, s.entries);
      if oldest.Some? {
        RemoveKeepsOrder(ClearIdleTimer(s, oldest.value), oldest.value);
      }
      forall x | x != id && x in s'.entries
        ensures x in s.entries && s'.entries[x] == s.entries[x] && SameTimer(s, s', x)
      {
        OthersKeepTimers(s, id, now, x);
      }
      if id !in s.entries && |s.order| == MAX_POOL_SIZE {
        assert oldest.value in s.entries && oldest.value !in s'.entries;
      }
    }
  }

  lemma OthersKeepTimers(s: Pool, id: string, now: int, x: string)
    requires Inv(s) && x != id && x in GetOrCreate(s, id, now).0.entries
    ensures SameTimer(s, GetOrCreate(s, id, now).0, x)
  {
    OldestInPool(s);
    if x in s.idleTimers {
      assert TimerOf(s, x) && Recorded(s, s.idleTimers[x]);
      forall y | y in s.idleTimers && y != x
        ensures s.idleTimers[y] != s.idleTimers[x]
      {
        assert TimerOf(s, y);
      }
    }
  }

  /** A timer that fires takes its session out of the pool, and nothing else. */
  lemma FireEffect(s: Pool, h: nat)
    requires Inv(s) && h in s.armed
    ensures var (s', id) := (Fire(s, h), s.armed[h].sessionId);
            && id in s.entries && s'.entries == s.entries - {id} && s'.order == Without(s.order, id)
            && s'.idleTimers == s.idleTimers - {id} && s'.armed == s.armed - {h}
  {
    FireKeepsInv(s, h);
    assert Recorded(s, h);
  }

  /** The session has been released and not accessed since. */
  ghost predicate Untouched(es: seq<Event>, id: string) {
    forall i :: 0 <= i < |es| ==> !(es[i].Get? && es[i].sessionId == id)
  }

  lemma StepKeepsIdle(s: Pool, e: Event, id: string)
    requires Inv(s) && Possible(s, e) && !(e.Get? && e.sessionId == id) && (id in s.entries ==> Idle(s.entries, id))
    ensures id in Step(s, e).entries ==> Idle(Step(s, e).entries, id)
  {
    match e
    case Get(other, now) => AccessEffect(s, other, now); RefusesExactlyWhenSaturated(s, other, now);
    case Put(other, now) => ReleaseEffect(s, other, now);
    case Reset =>
    case TimerFires(h, _) => FireEffect(s, h);
  }

  lemma {:induction false} RunKeepsIdle(s: Pool, es: seq<Event>, id: string)
    requires Inv(s) && ValidFrom(s, es) && Untouched(es, id) && (id in s.entries ==> Idle(s.entries, id))
    ensures id in RunFrom(s, es).entries ==> Idle(RunFrom(s, es).entries, id)
    decreases es
  {
    if es != [] {
      StepKeepsIdle(s, es[0], id);
      StepKeepsInv(s, es[0]);
      RunKeepsIdle(Step(s, es[0]), es[1..], id);
    }
  }

  /** As long as a released session is pooled and not accessed again, nobody is refused. */
  lemma ReleaseMakesRoom(s: Pool, released: string, now: int, es: seq<Event>, id: string, later: int)
    requires Inv(s) && ValidFrom(Release(s, released, now), es) && Untouched(es, released)
    requires released in RunFrom(Release(s, released, now), es).entries
    ensures GetOrCreate(RunFrom(Release(s, released, now), es), id, later).1.Granted?
  {
    ReleaseEffect(s, released, now);
    ReleaseKeepsInv(s, released, now);
    RunKeepsIdle(Release(s, released, now), es, released);
    PoolInvariant(Release(s, released, now), es);
    RefusesExactlyWhenSaturated(RunFrom(Release(s, released, now), es), id, later);
  }

  // ---------------------------------------------------------------------------
  // The class
  // ---------------------------------------------------------------------------

  class SessionPool {
    var order: seq<string>
    var entries: map<string, Entry>
    var idleTimers: map<string, nat>
    var armed: map<nat, Timeout>
    var nextTimer: nat
    var nextAgent: nat

    ghost function View(): Pool
      reads this
    {
      Pool(order, entries, idleTimers, armed, nextTimer, nextAgent)
    }

    constructor ()
      ensures View() == EMPTY
    {
      order, entries, idleTimers, armed, nextTimer, nextAgent := [], map[], map[], map[], 0, 0;
    }

    method ClearTimer(sessionId: string)
      modifies this
      ensures View() == ClearIdleTimer(old(View()), sessionId)
    {
      if sessionId in idleTimers {
        armed := armed - {idleTimers[sessionId]};
        idleTimers := idleTimers - {sessionId};
      }
    }

    method StartTimer(sessionId: string, now: int)
      modifies this
      ensures View() == StartIdleTimer(old(View()), sessionId, now)
    {
      ClearTimer(sessionId);
      armed := armed[nextTimer := Timeout(sessionId, now + IDLE_TIMEOUT_MS)];
      idleTimers := idleTimers[sessionId := nextTimer];
      nextTimer := nextTimer + 1;
    }

    method Evict()
      requires Inv(View())
      modifies this
      ensures View() == EvictOldest(old(View()))
    {
      var oldest: Option<string> := None;
      for i := 0 to |order|
        invariant oldest == Oldest(order[..i], entries)
      {
        assert order[..i + 1][..i] == order[..i];
        assert order[i] in order;
        var entry := entries[order[i]];
        if entry.isActive {
          continue;
        }
        if oldest.None? || entry.lastAccessedAt < entries[oldest.value].lastAccessedAt {
          oldest := Some(order[i]);
        }
      }
      assert order[..|order|] == order;
      if oldest.None? {
        return;
      }
      ClearTimer(oldest.value);
      order := Without(order, oldest.value);
      entries := entries - {oldest.value};
    }

    method CountActive() returns (active: nat)
      requires Inv(View())
      ensures active == ActiveCount(order, entries)
    {
      active := 0;
      for i := 0 to |order|
        invariant active == ActiveCount(order[..i], entries)
      {
        assert order[..i + 1][..i] == order[..i];
        assert order[i] in order;
        if entries[order[i]].isActive {
          active := active + 1;
        }
      }
      assert order[..|order|] == order;
    }

    method MarkActive(sessionId: string, now: int) returns (agent: nat)
      requires sessionId in entries
      modifies this
      ensures View() == Reuse(old(View()), sessionId, now) && agent == old(entries[sessionId].agent)
    {
      agent := entries[sessionId].agent;
      entries := entries[sessionId := entries[sessionId].(isActive := true, lastAccessedAt := now)];
      ClearTimer(sessionId);
    }

    method Add(sessionId: string, now: int) returns (access: Access)
      modifies this
      ensures (View(), access) == Admit(old(View()), sessionId, now)
    {
      access := Granted(nextAgent);
      order := order + [sessionId];
      entries := entries[sessionId := Entry(nextAgent, now, true)];
      nextAgent := nextAgent + 1;
    }

    method GetOrCreateAgent(sessionId: string, now: int) returns (access: Access)
      requires Inv(View())
      modifies this
      ensures (View(), access) == GetOrCreate(old(View()), sessionId, now)
      ensures Inv(View())
      ensures if access.Granted? then Accessed(old(View()), View(), sessionId, access.agent, now)
              else View() == old(View())
    {
      ghost var before := View();
      GetOrCreateKeepsInv(before, sessionId, now);
      AccessEffect(before, sessionId, now);
      RefusesExactlyWhenSaturated(before, sessionId, now);
      if sessionId in entries {
        var agent := MarkActive(sessionId, now);
        return Granted(agent);
      }
      if |order| >= MAX_POOL_SIZE {
        EvictKeepsInv(before);
        Evict();
        if |order| >= MAX_POOL_SIZE {
          var activeCount := CountActive();
          return Refused(MAX_POOL_SIZE, activeCount);
        }
      }
      access := Add(sessionId, now);
    }

    method ReleaseAgent(sessionId: string, now: int)
      requires Inv(View())
      modifies this
      ensures View() == Release(old(View()), sessionId, now)
      ensures Inv(View()) && Released(old(View()), View(), sessionId, now)
    {
      ReleaseKeepsInv(View(), sessionId, now);
      ReleaseEffect(View(), sessionId, now);
      if sessionId in entries {
        entries := entries[sessionId := entries[sessionId].(isActive := false, lastAccessedAt := now)];
        StartTimer(sessionId, now);
      }
    }

    method ClearAllTimers()
      requires TimersArmed(View())
      modifies `idleTimers, `armed
      ensures idleTimers == map[] && armed == map[]
    {
      while |idleTimers| > 0
        invariant TimersArmed(View())
      {
        var sessionId :| sessionId in idleTimers;
        ClearKeepsTimersArmed(View(), sessionId);
        armed := armed - {idleTimers[sessionId]};
        idleTimers := idleTimers - {sessionId};
      }
      assert forall h :: h in armed ==> Recorded(View(), h);
    }

    /** Clears every timer, then forgets every session. */
    method InvalidateEverything()
      requires Inv(View())
      modifies this
      ensures View() == InvalidateAll(old(View()))
      ensures Inv(View()) && order == [] && entries == map[] && idleTimers == map[] && armed == map[]
    {
      InvalidateKeepsInv(View());
      ClearAllTimers();
      order, entries := [], map[];
    }

    method FireTimer(handle: nat)
      requires Inv(View()) && handle in armed
      modifies this
      ensures View() == Fire(old(View()), handle)
      ensures Inv(View())
      ensures var id := old(armed)[handle].sessionId;
              && id in old(entries) && entries == old(entries) - {id} && order == Without(old(order), id)
              && idleTimers == old(idleTimers) - {id} && armed == old(armed) - {handle}
    {
      FireKeepsInv(View(), handle);
      FireEffect(View(), handle);
      var sessionId := armed[handle].sessionId;
      armed := armed - {handle};
      if sessionId !in entries || entries[sessionId].isActive {
        return;
      }
      order := Without(order, sessionId);
      entries := entries - {sessionId};
      idleTimers := idleTimers - {sessionId};
    }
  }
}
