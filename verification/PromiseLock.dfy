/**
 * The mutex built from chained promises. Each call replaces the lock field by a promise
 * that settles after the caller's own operation, and waits for the promise it replaced.
 *
 * `AuthService.withOrgMcpPatTokenLock` stores `previous.then(() => current)`, and
 * `Agent.withLock` stores `current` itself; `Style` tells them apart and every theorem
 * below holds for both.
 */
module PromiseLock {

  datatype Style = Chained | Direct

  /** `Deferred(t)` is the promise that call `t` resolves in its `finally` block. */
  datatype Promise = Fulfilled | Deferred(ticket: nat) | Then(first: Promise, ticket: nat)

  predicate Settled(p: Promise, released: set<nat>) {
    match p
    case Fulfilled => true
    case Deferred(t) => t in released
    case Then(first, t) => Settled(first, released) && t in released
  }

  function Replace(style: Style, previous: Promise, ticket: nat): Promise {
    match style
    case Chained => Then(previous, ticket)
    case Direct => Deferred(ticket)
  }

  datatype Phase = Waiting(previous: Promise) | Inside | Done(threw: bool)

  /** Calls are numbered in call order; `entered` records the order in which operations started. */
  datatype State = State(lock: Promise, calls: seq<Phase>, entered: seq<nat>)

  const INITIAL: State := State(Fulfilled, [], [])

  function Released(s: State): set<nat> {
    set t | 0 <= t < |s.calls| && s.calls[t].Done?
  }

  predicate CanEnter(s: State, t: nat) {
    t < |s.calls| && s.calls[t].Waiting? && Settled(s.calls[t].previous, Released(s))
  }

  function Call(style: Style, s: State): State {
    s.(lock := Replace(style, s.lock, |s.calls|), calls := s.calls + [Waiting(s.lock)])
  }

  function Enter(s: State, t: nat): State
    requires CanEnter(s, t)
  {
    s.(calls := s.calls[t := Inside], entered := s.entered + [t])
  }

  function Leave(s: State, t: nat, threw: bool): State
    requires t < |s.calls| && s.calls[t].Inside?
  {
    s.(calls := s.calls[t := Done(threw)])
  }

  // ---------------------------------------------------------------------------
  // What every interleaving keeps
  // ---------------------------------------------------------------------------

  /** The promise the lock field holds after `n` calls. */
  function LockAfter(style: Style, n: nat): Promise {
    if n == 0 then Fulfilled else Replace(style, LockAfter(style, n - 1), n - 1)
  }

  predicate AllDoneBefore(s: State, t: nat) {
    t <= |s.calls| && forall j :: 0 <= j < t ==> s.calls[j].Done?
  }

  /** Done calls first, then at most one inside, then the waiting ones. */
  ghost predicate Inv(style: Style, s: State) {
    && s.lock == LockAfter(style, |s.calls|)
    && (forall t :: 0 <= t < |s.calls| && s.calls[t].Waiting? ==> s.calls[t].previous == LockAfter(style, t))
    && |s.entered| <= |s.calls|
    && (forall t :: 0 <= t < |s.entered| ==> s.entered[t] == t && !s.calls[t].Waiting?)
    && (forall t :: |s.entered| <= t < |s.calls| ==> s.calls[t].Waiting?)
    && (forall t :: 0 <= t < |s.entered| - 1 ==> s.calls[t].Done?)
  }

  lemma {:induction false} SettledWhenAllDone(style: Style, n: nat, released: set<nat>)
    requires forall j :: 0 <= j < n ==> j in released
    ensures Settled(LockAfter(style, n), released)
  {
    if n > 0 {
      SettledWhenAllDone(style, n - 1, released);
    }
  }

  /** A chained promise settles exactly when every call in the chain is done, whatever else is. */
  lemma {:induction false} ChainedSettlesWithAll(n: nat, released: set<nat>)
    ensures Settled(LockAfter(Chained, n), released) <==> forall j :: 0 <= j < n ==> j in released
  {
    if n > 0 {
      ChainedSettlesWithAll(n - 1, released);
    }
  }

  /** In either style the awaited promise settles exactly when every earlier call is done. */
  lemma SettledExactlyWhenAllDone(style: Style, s: State, t: nat)
    requires Inv(style, s) && t <= |s.calls|
    ensures Settled(LockAfter(style, t), Released(s)) <==> AllDoneBefore(s, t)
  {
    if AllDoneBefore(s, t) {
      SettledWhenAllDone(style, t, Released(s));
    }
  }

  lemma CallKeepsInv(style: Style, s: State)
    requires Inv(style, s)
    ensures Inv(style, Call(style, s))
  {
  }

  lemma EnterKeepsInv(style: Style, s: State, t: nat)
    requires Inv(style, s) && CanEnter(s, t)
    ensures AllDoneBefore(s, t) && t == |s.entered|
    ensures Inv(style, Enter(s, t))
  {
    SettledExactlyWhenAllDone(style, s, t);
  }

  lemma LeaveKeepsInv(style: Style, s: State, t: nat, threw: bool)
    requires Inv(style, s) && t < |s.calls| && s.calls[t].Inside?
    ensures t == |s.entered| - 1 && AllDoneBefore(s, t)
    ensures Inv(style, Leave(s, t, threw))
  {
  }

  datatype Event = CallIt | EnterIt(ticket: nat) | LeaveIt(ticket: nat, threw: bool)

  predicate Possible(s: State, e: Event) {
    match e
    case CallIt => true
    case EnterIt(t) => CanEnter(s, t)
    case LeaveIt(t, _) => t < |s.calls| && s.calls[t].Inside?
  }

  function Step(style: Style, s: State, e: Event): State
    requires Possible(s, e)
  {
    match e
    case CallIt => Call(style, s)
    case EnterIt(t) => Enter(s, t)
    case LeaveIt(t, threw) => Leave(s, t, threw)
  }

  predicate ValidFrom(style: Style, s: State, es: seq<Event>)
    decreases es
  {
    es == [] || (Possible(s, es[0]) && ValidFrom(style, Step(style, s, es[0]), es[1..]))
  }

  function RunFrom(style: Style, s: State, es: seq<Event>): State
    requires ValidFrom(style, s, es)
    decreases es
  {
    if es == [] then s else RunFrom(style, Step(style, s, es[0]), es[1..])
  }

  lemma {:induction false} RunKeepsInv(style: Style, s: State, es: seq<Event>)
    requires Inv(style, s) && ValidFrom(style, s, es)
    ensures Inv(style, RunFrom(style, s, es))
    decreases es
  {
    if es != [] {
      match es[0] {
        case CallIt => CallKeepsInv(style, s);
        case EnterIt(t) => EnterKeepsInv(style, s, t);
        case LeaveIt(t, threw) => LeaveKeepsInv(style, s, t, threw);
      }
      RunKeepsInv(style, Step(style, s, es[0]), es[1..]);
    }
  }

  /** One operation at a time, started in call order, whichever of them throw. */
  lemma OneAtATimeInCallOrder(style: Style, es: seq<Event>)
    requires ValidFrom(style, INITIAL, es)
    ensures var s := RunFrom(style, INITIAL, es);
            && (forall a, b :: 0 <= a < b < |s.calls| && s.calls[b].Inside? ==> s.calls[a].Done?)
            && (forall k :: 0 <= k < |s.entered| ==> s.entered[k] == k)
  {
    RunKeepsInv(style, INITIAL, es);
  }

  /**
   * An operation that ends, by returning or by throwing, is done, changes no other call, and lets the next waiting
   * call enter; that call is inside once it has entered.
   */
  lemma LeavingLetsNextEnter(style: Style, es: seq<Event>, t: nat, threw: bool)
    requires ValidFrom(style, INITIAL, es) && Possible(RunFrom(style, INITIAL, es), LeaveIt(t, threw))
    ensures var s := RunFrom(style, INITIAL, es);
            var s' := Step(style, s, LeaveIt(t, threw));
            && |s'.calls| == |s.calls| && s'.calls[t] == Done(threw)
            && (forall j :: 0 <= j < |s.calls| && j != t ==> s'.calls[j] == s.calls[j])
            && (t + 1 < |s.calls| ==> CanEnter(s', t + 1) && Step(style, s', EnterIt(t + 1)).calls[t + 1] == Inside)
  {
    RunKeepsInv(style, INITIAL, es);
    var s := RunFrom(style, INITIAL, es);
    LeaveKeepsInv(style, s, t, threw);
    SettledExactlyWhenAllDone(style, Leave(s, t, threw), t + 1);
  }

  /** A call waits for the calls before it, and only a free lock lets it enter at once. */
  lemma CallingWaits(style: Style, es: seq<Event>)
    requires ValidFrom(style, INITIAL, es)
    ensures var s := RunFrom(style, INITIAL, es);
            var s' := Step(style, s, CallIt);
            && |s'.calls| == |s.calls| + 1 && s'.calls[|s.calls|].Waiting?
            && (forall j :: 0 <= j < |s.calls| ==> s'.calls[j] == s.calls[j])
            && (CanEnter(s', |s.calls|) <==> AllDoneBefore(s, |s.calls|))
  {
    RunKeepsInv(style, INITIAL, es);
    var s := RunFrom(style, INITIAL, es);
    CallKeepsInv(style, s);
    SettledExactlyWhenAllDone(style, Call(style, s), |s.calls|);
  }

  /**
   * No lost wakeup: whenever nothing is inside, the earliest waiting call may enter, and it is the only one
   * that may, even when earlier operations threw.
   */
  lemma NextInLineMayEnter(style: Style, es: seq<Event>, t: nat)
    requires ValidFrom(style, INITIAL, es)
    requires t < |RunFrom(style, INITIAL, es).calls|
    ensures var s := RunFrom(style, INITIAL, es);
            CanEnter(s, t) <==> s.calls[t].Waiting? && AllDoneBefore(s, t)
  {
    RunKeepsInv(style, INITIAL, es);
    var s := RunFrom(style, INITIAL, es);
    SettledExactlyWhenAllDone(style, s, t);
  }

  // ---------------------------------------------------------------------------
  // The class
  // ---------------------------------------------------------------------------

  class Mutex {
    const style: Style
    var lock: Promise
    ghost var nextTicket: nat

    ghost predicate Valid()
      reads this
    {
      lock == LockAfter(style, nextTicket)
    }

    constructor (style: Style)
      ensures Valid() && this.style == style && nextTicket == 0
    {
      this.style := style;
      lock := Fulfilled;
      nextTicket := 0;
    }

    /**
     * The synchronous part of a call: read the field, then overwrite it by a promise that waits for `current`,
     * the caller's own. What the caller then awaits has settled once all earlier calls are done, and not before
     * the one right before it is.
     */
    method TakeTicket(current: nat) returns (previous: Promise)
      requires Valid() && current == nextTicket
      modifies this
      ensures Valid() && nextTicket == current + 1
      ensures forall released: set<nat> :: (forall j :: 0 <= j < current ==> j in released)
                                           ==> Settled(previous, released)
      ensures style == Chained ==>
                forall released: set<nat> :: Settled(previous, released)
                                             ==> forall j :: 0 <= j < current ==> j in released
      ensures forall released: set<nat> :: current > 0 && Settled(previous, released) ==> current - 1 in released
      ensures forall released: set<nat> :: Settled(lock, released) ==> current in released
    {
      previous := lock;
      lock := match style case Chained => Then(previous, current) case Direct => Deferred(current);
      nextTicket := nextTicket + 1;
      forall released: set<nat>
        ensures style == Chained && Settled(previous, released) ==> forall j :: 0 <= j < current ==> j in released
      {
        ChainedSettlesWithAll(current, released);
      }
      forall released: set<nat> | forall j :: 0 <= j < current ==> j in released
        ensures Settled(previous, released)
      {
        SettledWhenAllDone(style, current, released);
      }
    }
  }
}
