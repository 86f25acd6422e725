/**
 * The bridge between an agent's question and the user's answer: pending asks keyed by
 * request id, a five-minute timer per ask, and supersession when an id is asked again.
 *
 * Every ask ever made is kept in `asks`, with the settle calls its promise received in
 * order; a promise takes the first and ignores the rest. `armed` holds the asks whose timer
 * the runtime still has.
 */
module QuestionBridge {
  import opened Prelude

  const QUESTION_SESSION_TIMEOUT_MS: int := 5 * 60 * 1000

  datatype Answer = Answer(questionIndex: nat, selectedLabels: seq<string>, customText: Option<string>)

  /** `HandlerThrew` is the rejection a promise gets when the UI callback inside `ask` throws. */
  datatype Settlement = Resolved(answers: seq<Answer>) | TimedOut | HandlerThrew

  datatype Asked = Asked(requestId: string, askedAt: int, calls: seq<Settlement>)

  datatype State = State(pending: map<string, nat>, asks: seq<Asked>, armed: set<nat>)

  const EMPTY := State(map[], [], {})

  function Settle(asks: seq<Asked>, n: nat, x: Settlement): seq<Asked>
    requires n < |asks|
  {
    asks[n := asks[n].(calls := asks[n].calls + [x])]
  }

  function Ask(s: State, requestId: string, now: int, handlerThrows: bool): State {
    var n := |s.asks|;
    State(s.pending[requestId := n],
          s.asks + [Asked(requestId, now, if handlerThrows then [HandlerThrew] else [])],
          s.armed + {n})
  }

  predicate Indexed(s: State) {
    forall id :: id in s.pending ==> s.pending[id] < |s.asks|
  }

  function Reply(s: State, requestId: string, answers: seq<Answer>): State
    requires Indexed(s)
  {
    if requestId !in s.pending then s
    else
      var n := s.pending[requestId];
      State(s.pending - {requestId}, Settle(s.asks, n, Resolved(answers)), s.armed - {n})
  }

  /** Rejecting resolves the promise with no answers. */
  function Dismissed(a: Asked): Asked {
    a.(calls := a.calls + [Resolved([])])
  }

  function RejectAll(s: State): State {
    State(map[],
          seq(|s.asks|, i requires 0 <= i < |s.asks| =>
            if i in s.pending.Values then Dismissed(s.asks[i]) else s.asks[i]),
          s.armed - s.pending.Values)
  }

  /** An absent id and the empty id both mean "every pending ask". */
  function Reject(s: State, requestId: Option<string>): State
    requires Indexed(s)
  {
    if requestId.Some? && requestId.value != "" then Reply(s, requestId.value, []) else RejectAll(s)
  }

  predicate HasPending(s: State, requestId: Option<string>) {
    if requestId.Some? && requestId.value != "" then requestId.value in s.pending else s.pending != map[]
  }

  /** The timeout callback of ask `n`: the entry is removed only if it is still the current one. */
  function Fire(s: State, n: nat): State
    requires n < |s.asks|
  {
    var id := s.asks[n].requestId;
    State(if id in s.pending && s.pending[id] == n then s.pending - {id} else s.pending,
          Settle(s.asks, n, TimedOut),
          s.armed - {n})
  }

  // ---------------------------------------------------------------------------
  // The invariant
  // ---------------------------------------------------------------------------

  predicate Threw(a: Asked) {
    a.calls != [] && a.calls[0] == HandlerThrew
  }

  /** Settle calls made by the bridge, as opposed to the throwing handler. */
  function BridgeCalls(a: Asked): int {
    |a.calls| - if Threw(a) then 1 else 0
  }

  predicate Current(s: State, id: string) {
    && id in s.pending && s.pending[id] < |s.asks| && s.asks[s.pending[id]].requestId == id && s.pending[id] in s.armed
  }

  ghost predicate Latest(s: State, id: string)
    requires id in s.pending
  {
    forall m :: 0 <= m < |s.asks| && s.asks[m].requestId == id ==> m <= s.pending[id]
  }

  /** An ask awaits settlement exactly while its timer is armed, and then is settled by one bridge call. */
  predicate Balanced(s: State, n: nat)
    requires n < |s.asks|
  {
    BridgeCalls(s.asks[n]) == if n in s.armed then 0 else 1
  }

  ghost predicate Inv(s: State) {
    && (forall id :: id in s.pending ==> Current(s, id) && Latest(s, id))
    && (forall n :: n in s.armed ==> n < |s.asks|)
    && (forall n :: 0 <= n < |s.asks| ==> Balanced(s, n))
  }

  lemma AskKeepsInv(s: State, id: string, now: int, throws: bool)
    requires Inv(s)
    ensures Inv(Ask(s, id, now, throws))
  {
    var s' := Ask(s, id, now, throws);
    forall n | 0 <= n < |s'.asks|
      ensures Balanced(s', n)
    {
      if n < |s.asks| {
        assert Balanced(s, n);
      }
    }
    forall x | x in s'.pending
      ensures Current(s', x) && Latest(s', x)
    {
      if x != id {
        assert Current(s, x) && Latest(s, x);
      }
    }
  }

  lemma SettleKeepsInv(s: State, n: nat, x: Settlement)
    requires Inv(s) && n in s.armed && x != HandlerThrew
    ensures var id := s.asks[n].requestId;
            Inv(State(if id in s.pending && s.pending[id] == n then s.pending - {id} else s.pending,
                      Settle(s.asks, n, x), s.armed - {n}))
  {
    var id := s.asks[n].requestId;
    var s' := State(if id in s.pending && s.pending[id] == n then s.pending - {id} else s.pending,
                    Settle(s.asks, n, x), s.armed - {n});
    forall k | 0 <= k < |s'.asks|
      ensures Balanced(s', k)
    {
      assert Balanced(s, k);
    }
    forall y | y in s'.pending
      ensures Current(s', y) && Latest(s', y)
    {
      assert Current(s, y) && Latest(s, y);
    }
  }

  lemma ReplyKeepsInv(s: State, id: string, answers: seq<Answer>)
    requires Inv(s)
    ensures Inv(Reply(s, id, answers))
  {
    if id in s.pending {
      assert Current(s, id);
      SettleKeepsInv(s, s.pending[id], Resolved(answers));
    }
  }

  lemma RejectAllKeepsInv(s: State)
    requires Inv(s)
    ensures Inv(RejectAll(s))
  {
    var s' := RejectAll(s);
    forall k | 0 <= k < |s'.asks|
      ensures Balanced(s', k)
    {
      assert Balanced(s, k);
      if k in s.pending.Values {
        var id :| id in s.pending && s.pending[id] == k;
        assert Current(s, id);
      }
    }
  }

  // ---------------------------------------------------------------------------
  // Every run
  // ---------------------------------------------------------------------------

  datatype Event =
    | AskIt(requestId: string, handlerThrows: bool, at: int)
    | ReplyIt(requestId: string, answers: seq<Answer>, at: int)
    | RejectIt(target: Option<string>, at: int)
    | TimerFires(n: nat, at: int)

  /** A timer fires no earlier than it is due. */
  predicate Possible(s: State, e: Event) {
    e.TimerFires? ==> e.n in s.armed && e.n < |s.asks| && s.asks[e.n].askedAt + QUESTION_SESSION_TIMEOUT_MS <= e.at
  }

  ghost function Step(s: State, e: Event): State
    requires Inv(s) && Possible(s, e)
  {
    match e
    case AskIt(id, throws, at) => Ask(s, id, at, throws)
    case ReplyIt(id, answers, _) => Reply(s, id, answers)
    case RejectIt(id, _) => Reject(s, id)
    case TimerFires(n, _) => Fire(s, n)
  }

  lemma StepKeepsInv(s: State, e: Event)
    requires Inv(s) && Possible(s, e)
    ensures Inv(Step(s, e))
  {
    match e
    case AskIt(id, throws, at) => AskKeepsInv(s, id, at, throws);
    case ReplyIt(id, answers, _) => ReplyKeepsInv(s, id, answers);
    case RejectIt(id, _) =>
      RejectAllKeepsInv(s);
      if id.Some? {
        ReplyKeepsInv(s, id.value, []);
      }
    case TimerFires(n, _) => SettleKeepsInv(s, n, TimedOut);
  }

  /** The states of a run; invalid continuations have none. */
  ghost function RunFrom(s: State, es: seq<Event>): Option<State>
    requires Inv(s)
    decreases es
  {
    if es == [] then Some(s)
    else if !Possible(s, es[0]) then None
    else
      StepKeepsInv(s, es[0]);
      RunFrom(Step(s, es[0]), es[1..])
  }

  lemma {:induction false} RunKeepsInv(s: State, es: seq<Event>)
    requires Inv(s) && RunFrom(s, es).Some?
    ensures Inv(RunFrom(s, es).value)
    decreases es
  {
    if es != [] {
      StepKeepsInv(s, es[0]);
      RunKeepsInv(Step(s, es[0]), es[1..]);
    }
  }

  /** Every asked question is settled at most once, except that one settled by its throwing handler is settled again. */
  lemma SettlesAtMostOnce(es: seq<Event>, n: nat)
    requires RunFrom(EMPTY, es).Some? && n < |RunFrom(EMPTY, es).value.asks|
    ensures var a := RunFrom(EMPTY, es).value.asks[n];
            && |a.calls| <= 2
            && (|a.calls| == 2 ==> a.calls[0] == HandlerThrew)
            && (a.calls == [] ==> n in RunFrom(EMPTY, es).value.armed)
  {
    RunKeepsInv(EMPTY, es);
    assert Balanced(RunFrom(EMPTY, es).value, n);
  }

  /** A runtime whose timers are at most `slack` late: no step happens while a timer is more overdue than that. */
  predicate Punctual(s: State, e: Event, slack: int) {
    forall n :: n in s.armed && n < |s.asks| ==> e.at <= s.asks[n].askedAt + QUESTION_SESSION_TIMEOUT_MS + slack
  }

  /** With such a runtime every ask of every run has been settled before anything happens after its deadline. */
  lemma SettledByDeadline(es: seq<Event>, e: Event, slack: int, n: nat)
    requires RunFrom(EMPTY, es).Some? && n < |RunFrom(EMPTY, es).value.asks|
    requires Punctual(RunFrom(EMPTY, es).value, e, slack)
    requires RunFrom(EMPTY, es).value.asks[n].askedAt + QUESTION_SESSION_TIMEOUT_MS + slack < e.at
    ensures RunFrom(EMPTY, es).value.asks[n].calls != []
  {
    RunKeepsInv(EMPTY, es);
    assert Balanced(RunFrom(EMPTY, es).value, n);
  }

  /** And no step of the bridge settles an ask after its deadline. */
  lemma SettlesInTime(s: State, e: Event, slack: int, n: nat)
    requires Inv(s) && Possible(s, e) && Punctual(s, e, slack) && n < |s.asks|
    ensures n < |Step(s, e).asks|
    ensures Step(s, e).asks[n] != s.asks[n] ==> e.at <= s.asks[n].askedAt + QUESTION_SESSION_TIMEOUT_MS + slack
  {
    assert forall id :: id in s.pending ==> Current(s, id);
  }

  /** A superseded ask's timer rejects that ask and touches neither the newer entry nor any other ask. */
  lemma SupersededTimerIsHarmless(s: State, n: nat, id: string)
    requires Inv(s) && n in s.armed && n < |s.asks| && id in s.pending && s.pending[id] != n
    ensures var s' := Fire(s, n);
            && id in s'.pending && s'.pending[id] == s.pending[id]
            && (forall m :: 0 <= m < |s.asks| && m != n ==> s'.asks[m] == s.asks[m])
            && s'.asks[n].calls == s.asks[n].calls + [TimedOut]
            && s'.armed == s.armed - {n}
  {
    assert Current(s, id);
  }

  /** A reply reaches the newest ask of its id, and only that one. */
  lemma ReplyReachesNewestAsk(s: State, id: string, answers: seq<Answer>)
    requires Inv(s) && id in s.pending
    ensures var n := s.pending[id];
            var s' := Reply(s, id, answers);
            && (forall m :: 0 <= m < |s.asks| && s.asks[m].requestId == id ==> m <= n)
            && s'.asks[n].calls == s.asks[n].calls + [Resolved(answers)]
            && (s'.asks[n].calls[0] == Resolved(answers) <==> !Threw(s.asks[n]))
            && (!Threw(s.asks[n]) ==> s'.asks[n].calls == [Resolved(answers)])
            && (forall m :: 0 <= m < |s.asks| && m != n ==> s'.asks[m] == s.asks[m])
            && |s'.asks| == |s.asks| && s'.pending == s.pending - {id} && s'.armed == s.armed - {n}
            && Reply(s', id, answers) == s'
  {
    assert Current(s, id) && Latest(s, id);
    assert Balanced(s, s.pending[id]);
  }

  // ----- what each operation changes, and what it leaves alone -----

  /** Ask `n` receives one more settle call, its timer is disarmed, and no other ask and no other timer is touched. */
  ghost predicate SettlesOnly(s: State, s': State, n: nat, x: Settlement) {
    && n < |s.asks| == |s'.asks|
    && s'.asks[n] == s.asks[n].(calls := s.asks[n].calls + [x])
    && (forall m :: 0 <= m < |s.asks| && m != n ==> s'.asks[m] == s.asks[m])
    && s'.armed == s.armed - {n}
  }

  /** A new ask is pending under its id, unsettled unless its handler threw, with its timer armed; the others stay. */
  ghost predicate Registered(s: State, s': State, id: string, now: int, throws: bool) {
    var n := |s.asks|;
    && |s'.asks| == n + 1 && (forall m :: 0 <= m < n ==> s'.asks[m] == s.asks[m])
    && s'.asks[n].requestId == id && s'.asks[n].askedAt == now
    && s'.asks[n].calls == (if throws then [HandlerThrew] else [])
    && id in s'.pending && s'.pending[id] == n && n in s'.armed
    && (forall x :: x != id ==> (x in s'.pending <==> x in s.pending))
    && (forall x :: x != id && x in s.pending ==> s'.pending[x] == s.pending[x])
    && (forall m :: m != n ==> (m in s'.armed <==> m in s.armed))
  }

  /** Dismissing an id settles its newest ask without answers; with no id it does so to every pending ask. */
  ghost predicate Dismisses(s: State, s': State, requestId: Option<string>) {
    if requestId.Some? && requestId.value != "" then
      var id := requestId.value;
      if id in s.pending then
        SettlesOnly(s, s', s.pending[id], Resolved([])) && s'.pending == s.pending - {id}
      else s' == s
    else
      && s'.pending == map[] && |s'.asks| == |s.asks|
      && (forall m :: 0 <= m < |s.asks| ==>
            s'.asks[m] == if IsPending(s, m) then s.asks[m].(calls := s.asks[m].calls + [Resolved([])]) else s.asks[m])
      && (forall m :: m in s'.armed <==> m in s.armed && !IsPending(s, m))
  }

  ghost predicate IsPending(s: State, m: nat) {
    exists id :: id in s.pending && s.pending[id] == m
  }

  lemma ReplyEffect(s: State, id: string, answers: seq<Answer>)
    requires Inv(s)
    ensures if id in s.pending then
              && SettlesOnly(s, Reply(s, id, answers), s.pending[id], Resolved(answers))
              && Reply(s, id, answers).pending == s.pending - {id}
            else Reply(s, id, answers) == s
  {
    if id in s.pending {
      assert Current(s, id);
    }
  }

  lemma RejectEffect(s: State, requestId: Option<string>)
    requires Inv(s)
    ensures Dismisses(s, Reject(s, requestId), requestId)
  {
    if requestId.Some? && requestId.value != "" {
      if requestId.value in s.pending {
        assert Current(s, requestId.value);
      }
    } else {
      forall m: nat
        ensures IsPending(s, m) <==> m in s.pending.Values
      {
      }
    }
  }

  /** The timer of an ask rejects that ask, and takes its id out of the pending ones only if it is the current ask. */
  lemma TimeoutEffect(s: State, n: nat)
    requires Inv(s) && n in s.armed
    ensures n < |s.asks| && SettlesOnly(s, Fire(s, n), n, TimedOut)
    ensures var id := s.asks[n].requestId;
            Fire(s, n).pending == if id in s.pending && s.pending[id] == n then s.pending - {id} else s.pending
  {
  }

  /** An unanswered ask times out five minutes after it was made, and not before; an answered one never does. */
  lemma TimesOutAfterFiveMinutes(s: State, id: string, now: int, answers: seq<Answer>, at: int)
    requires Inv(s)
    ensures var (asked, n) := (Ask(s, id, now, false), |s.asks|);
            && Inv(asked)
            && (Possible(asked, TimerFires(n, at)) <==> at >= now + 5 * 60 * 1000)
            && Fire(asked, n).asks[n].calls == [TimedOut] && id !in Fire(asked, n).pending
            && Reply(asked, id, answers).asks[n].calls == [Resolved(answers)]
            && !Possible(Reply(asked, id, answers), TimerFires(n, at))
  {
    AskKeepsInv(s, id, now, false);
  }

  /** No later step changes whether an ask was rejected by its own handler. */
  lemma StepKeepsThrew(s: State, e: Event, n: nat)
    requires Inv(s) && Possible(s, e) && n < |s.asks|
    ensures var s' := Step(s, e); n < |s'.asks| && (Threw(s'.asks[n]) <==> Threw(s.asks[n]))
  {
    if e.ReplyIt? && e.requestId in s.pending {
      assert Current(s, e.requestId);
    } else if e.RejectIt? && e.target.Some? && e.target.value in s.pending {
      assert Current(s, e.target.value);
    }
  }

  lemma {:induction false} RunKeepsThrew(s: State, es: seq<Event>, n: nat)
    requires Inv(s) && RunFrom(s, es).Some? && n < |s.asks|
    ensures var s' := RunFrom(s, es).value; n < |s'.asks| && (Threw(s'.asks[n]) <==> Threw(s.asks[n]))
    decreases es
  {
    if es != [] {
      StepKeepsThrew(s, es[0], n);
      StepKeepsInv(s, es[0]);
      RunKeepsThrew(Step(s, es[0]), es[1..], n);
    }
  }

  /** A throwing UI callback rejects its ask at once and leaves it pending, in whatever state the bridge is. */
  lemma ThrowingHandlerStaysPending(s: State, id: string, now: int)
    requires Inv(s)
    ensures var s' := Ask(s, id, now, true);
            id in s'.pending && s'.pending[id] == |s.asks| && s'.asks[|s.asks|].calls == [HandlerThrew]
  {
  }

  /**
   * The exact condition. Ask a question, let anything happen after which it is still the pending one, then reply:
   * the asker hears the answers if and only if the UI callback did not throw. Otherwise the reply is accepted all
   * the same, and its settle call comes second.
   */
  lemma {:induction false} ReplyIsHeardExactlyWhenHandlerReturned(
      s: State, id: string, now: int, throws: bool, es: seq<Event>, answers: seq<Answer>)
    requires Inv(s) && RunFrom(s, [AskIt(id, throws, now)] + es).Some?
    requires var t := RunFrom(s, [AskIt(id, throws, now)] + es).value; id in t.pending && t.pending[id] == |s.asks|
    ensures var t := RunFrom(s, [AskIt(id, throws, now)] + es).value;
            && Inv(t)
            && var calls := Reply(t, id, answers).asks[|s.asks|].calls;
               && (calls[0] == Resolved(answers) <==> !throws)
               && (throws ==> calls == [HandlerThrew, Resolved(answers)])
  {
    var n := |s.asks|;
    var run := [AskIt(id, throws, now)] + es;
    assert run[1..] == es;
    var asked := Step(s, run[0]);
    StepKeepsInv(s, run[0]);
    RunKeepsInv(s, run);
    RunKeepsThrew(asked, es, n);
    var t := RunFrom(s, run).value;
    assert Current(t, id) && Balanced(t, n);
    ReplyReachesNewestAsk(t, id, answers);
  }

  lemma DismissalChanges(s: State, requestId: Option<string>)
    requires Inv(s)
    ensures HasPending(s, requestId) <==> Reject(s, requestId) != s
  {
    if s.pending == map[] {
      assert RejectAll(s).asks == s.asks;
    }
  }

  // ---------------------------------------------------------------------------
  // The class, and the pool's walk over its agents' bridges
  // ---------------------------------------------------------------------------

  class Bridge {
    var pending: map<string, nat>
    var asks: seq<Asked>
    var armed: set<nat>

    ghost function View(): State
      reads this
    {
      State(pending, asks, armed)
    }

    constructor ()
      ensures View() == EMPTY && Inv(View())
    {
      pending, asks, armed := map[], [], {};
    }

    method AskUser(requestId: string, now: int, handlerThrows: bool)
      requires Inv(View())
      modifies this
      ensures View() == Ask(old(View()), requestId, now, handlerThrows) && Inv(View())
      ensures Registered(old(View()), View(), requestId, now, handlerThrows)
    {
      AskKeepsInv(View(), requestId, now, handlerThrows);
      var n := |asks|;
      armed := armed + {n};
      pending := pending[requestId := n];
      asks := asks + [Asked(requestId, now, if handlerThrows then [HandlerThrew] else [])];
    }

    method ReplyTo(requestId: string, answers: seq<Answer>)
      requires Inv(View())
      modifies this
      ensures Inv(old(View())) && View() == Reply(old(View()), requestId, answers) && Inv(View())
    {
      ReplyKeepsInv(View(), requestId, answers);
      if requestId !in pending {
        return;
      }
      var n := pending[requestId];
      pending := pending - {requestId};
      armed := armed - {n};
      asks := Settle(asks, n, Resolved(answers));
    }

    /** There is something pending exactly if dismissing it would change the bridge. */
    method HasPendingAsk(requestId: Option<string>) returns (has: bool)
      requires Inv(View())
      ensures has == HasPending(View(), requestId)
      ensures has <==> Reject(View(), requestId) != View()
    {
      DismissalChanges(View(), requestId);
      if requestId.Some? && requestId.value != "" {
        return requestId.value in pending;
      }
      return |pending| > 0;
    }

    method OnTimeout(n: nat)
      requires Inv(View()) && n in armed
      modifies this
      ensures n < |old(asks)| && View() == Fire(old(View()), n) && Inv(View())
      ensures SettlesOnly(old(View()), View(), n, TimedOut)
      ensures var id := old(asks)[n].requestId;
              pending == if id in old(pending) && old(pending)[id] == n then old(pending) - {id} else old(pending)
    {
      SettleKeepsInv(View(), n, TimedOut);
      var id := asks[n].requestId;
      if id in pending && pending[id] == n {
        pending := pending - {id};
      }
      armed := armed - {n};
      asks := Settle(asks, n, TimedOut);
    }

    /** Dismisses one ask, or with no id every pending one. */
    method RejectAsk(requestId: Option<string>)
      requires Inv(View())
      modifies this
      ensures Inv(old(View())) && View() == Reject(old(View()), requestId) && Inv(View())
      ensures Dismisses(old(View()), View(), requestId)
    {
      RejectEffect(View(), requestId);
      if requestId.Some? && requestId.value != "" {
        ReplyTo(requestId.value, []);
        return;
      }
      ghost var before := View();
      RejectAllKeepsInv(before);
      assert forall n :: n in pending.Values ==> n < |asks|;
      var entries := pending.Values;
      pending := map[];
      DismissEach(entries);
      assert View().asks == RejectAll(before).asks;
    }

    /** Clears the timers of the given asks and resolves each with no answers. */
    method DismissEach(entries: set<nat>)
      requires forall n :: n in entries ==> n < |asks|
      modifies `asks, `armed
      ensures |asks| == |old(asks)| && armed == old(armed) - entries
      ensures forall i :: 0 <= i < |asks| ==> asks[i] == if i in entries then Dismissed(old(asks)[i]) else old(asks)[i]
    {
      var left := entries;
      while left != {}
        invariant left <= entries && |asks| == |old(asks)|
        invariant forall i :: 0 <= i < |asks| ==>
                                asks[i] == if i in entries - left then Dismissed(old(asks)[i]) else old(asks)[i]
        invariant armed == old(armed) - (entries - left)
      {
        var n :| n in left;
        armed := armed - {n};
        asks := Settle(asks, n, Resolved([]));
        left := left - {n};
      }
    }
  }

  /** `replyToQuestion`: offer the answer to every agent's bridge; several agents may share one, and some have none. */
  method ReplyToQuestion(bridges: seq<Bridge?>, requestId: string, answers: seq<Answer>) returns (delivered: bool)
    requires forall b: Bridge :: b in bridges ==> Inv(b.View())
    modifies set b: Bridge | b in bridges
    ensures forall b: Bridge :: b in bridges ==>
                                  Inv(old(b.View())) && b.View() == Reply(old(b.View()), requestId, answers)
    ensures delivered <==> ReportsDelivery(set b: Bridge | b in bridges :: old(b.View()), requestId)
  {
    ghost var before := set b: Bridge | b in bridges :: b.View();
    delivered := false;
    for i := 0 to |bridges|
      invariant forall b: Bridge :: b in bridges ==> Inv(b.View())
      invariant forall b: Bridge :: b in bridges ==>
                                      b.View() == if b in bridges[..i] then Reply(old(b.View()), requestId, answers)
                                                  else old(b.View())
      invariant delivered ==> ReportsDelivery(before, requestId)
      invariant !delivered ==> forall b: Bridge :: b in bridges[..i] ==> !HasPending(old(b.View()), Some(requestId))
    {
      assert bridges[..i + 1] == bridges[..i] + [bridges[i]];
      var candidate := bridges[i];
      if candidate != null {
        var b: Bridge := candidate;
        assert b in bridges && old(b.View()) in before;
        var has := b.HasPendingAsk(Some(requestId));
        if has {
          b.ReplyTo(requestId, answers);
          delivered := true;
        }
      }
    }
    assert bridges[..|bridges|] == bridges;
  }

  /** Some bridge of the walk reports that the question is pending with it. */
  ghost predicate ReportsDelivery(views: set<State>, requestId: string) {
    exists s :: s in views && HasPending(s, Some(requestId))
  }

  ghost predicate SomeHas(views: set<State>, requestId: string) {
    exists s :: s in views && requestId in s.pending
  }

  ghost predicate NothingPending(views: set<State>) {
    forall s :: s in views ==> s.pending == map[]
  }

  /** Some bridge of the walk is changed by the reply: the answers reach an ask. */
  ghost predicate Delivers(views: set<State>, requestId: string, answers: seq<Answer>)
    requires forall s :: s in views ==> Indexed(s)
  {
    exists s :: s in views && Reply(s, requestId, answers) != s
  }

  /**
   * The walk reports delivery exactly when the reply reaches an ask, if and only if the id is not empty, or some
   * bridge has an ask with the empty id, or no bridge has any: with the empty id each presence test asks for any
   * ask at all.
   */
  lemma DeliveryReportIsTruthful(views: set<State>, requestId: string, answers: seq<Answer>)
    requires forall s :: s in views ==> Indexed(s)
    ensures (ReportsDelivery(views, requestId) <==> Delivers(views, requestId, answers))
            <==> (requestId != "" || SomeHas(views, "") || NothingPending(views))
  {
    forall s | s in views
      ensures Reply(s, requestId, answers) != s <==> requestId in s.pending
    {
      assert requestId in s.pending ==> requestId !in Reply(s, requestId, answers).pending;
    }
    if requestId != "" {
      assert forall s: State :: HasPending(s, Some(requestId)) <==> requestId in s.pending;
    } else if SomeHas(views, "") {
      var s :| s in views && "" in s.pending;
      assert HasPending(s, Some("")) && Reply(s, "", answers) != s;
    }
  }

  /** The failing case: one question is pending, and a reply to the empty id is reported as delivered to nobody. */
  lemma EmptyIdIsMisreported(id: string, now: int, answers: seq<Answer>)
    requires id != ""
    ensures var s := Ask(EMPTY, id, now, false);
            ReportsDelivery({s}, "") && Reply(s, "", answers) == s
  {
    var s := Ask(EMPTY, id, now, false);
    assert id in s.pending && "" !in s.pending;
    assert s in {s} && HasPending(s, Some(""));
  }
}
