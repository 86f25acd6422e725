/**
 * The recovery coordinator's handlers as interleaved step machines. Each handler suspends
 * at every `await`; what the awaited call does (eligible or not, accepted or declined,
 * returned or thrown) is part of the step, and project statuses also change from outside.
 *
 * `log` records, in order and per handler, the events the handler emits and the status
 * transitions it was granted, so statements about one handler are statements about its
 * projection of the log.
 */
module RecoveryTrace {

  datatype Status = Running | Error | Recovering | Other

  datatype Kind = Health | Container | Deploy

  /** The await a handler is suspended at. */
  datatype Pc =
    | OuterCheck          // an ingested signal's own eligibility check
    | OuterBlocked        // emitting `recovery:blocked` after it
    | Check               // the handler's eligibility check
    | FailTransition      // moving an unhandled container failure to `error`
    | FailLook            // reading the status after that was declined
    | EmitBlocked
    | Transition          // moving the project to `recovering`
    | Look                // reading the status after that was declined
    | EmitDegraded
    | EmitPartialBlocked  // `recovery:blocked` with reason `partial_failure_state_transition`
    | EmitStarted
    | Done

  /** How an awaited call ended, and the project's status at that moment. */
  datatype Reply = Reply(outcome: Outcome, status: Status)

  /** `past` records how every call ended that the handler has awaited so far. */
  datatype Handler = Handler(kind: Kind, project: string, ingested: bool, pc: Pc, past: seq<Reply>)

  datatype Fact = Accepted(status: Status) | Seen(status: Status) | Started | Blocked | Degraded

  datatype Entry = Entry(handler: nat, fact: Fact)

  datatype State = State(handlers: seq<Handler>, inFlight: set<string>, status: map<string, Status>, log: seq<Entry>)

  const INITIAL := State([], {}, map[], [])

  /** How an awaited call ends. `unhandled` marks the reasons for which a container failure is put into `error`. */
  datatype Outcome = Eligible | Ineligible(unhandled: bool) | Granted | Declined | Returned | Thrown

  datatype Event =
    | BusEvent(kind: Kind, project: string)
    | Signal(kind: Kind, project: string)
    | Advance(handler: nat, outcome: Outcome)
    | StatusChange(project: string, status: Status)

  // ----- steps -----

  /** Which outcomes make sense for which await. */
  predicate Answers(pc: Pc, outcome: Outcome) {
    match pc
    case OuterCheck => outcome.Eligible? || outcome.Ineligible? || outcome.Thrown?
    case Check => outcome.Eligible? || outcome.Ineligible? || outcome.Thrown?
    case FailTransition => outcome.Granted? || outcome.Declined? || outcome.Thrown?
    case Transition => outcome.Granted? || outcome.Declined? || outcome.Thrown?
    case Done => false
    case _ => outcome.Returned? || outcome.Thrown?
  }

  predicate Possible(s: State, e: Event) {
    match e
    case Signal(kind, _) => kind != Deploy
    case Advance(h, outcome) => h < |s.handlers| && Answers(s.handlers[h].pc, outcome)
    case _ => true
  }

  function StatusOf(s: State, project: string): Status {
    if project in s.status then s.status[project] else Other
  }

  /** The next await of a handler and what it adds to the log, given the project's current status. */
  function Next(h: Handler, outcome: Outcome, status: Status): (Pc, seq<Fact>)
    requires Answers(h.pc, outcome)
  {
    match h.pc
    case OuterCheck =>
      (match outcome
       case Eligible => Check
       case Ineligible(_) => OuterBlocked
       case _ => Done, [])
    case OuterBlocked => (Done, [Blocked])
    case Check =>
      (match outcome
       case Eligible => if h.kind == Deploy then Done else Transition
       case Ineligible(unhandled) => if h.kind == Container && unhandled then FailTransition else EmitBlocked
       case _ => Done, [])
    case FailTransition =>
      (match outcome
       case Granted => (EmitBlocked, [Accepted(Error)])
       case Declined => (FailLook, [])
       case _ => (Done, []))
    case FailLook =>
      if outcome.Returned? && status == Error then (EmitBlocked, [Seen(Error)]) else (Done, [])
    case EmitBlocked => (Done, [Blocked])
    case Transition =>
      (match outcome
       case Granted => (EmitStarted, [Accepted(Recovering)])
       case Declined => (Look, [])
       case _ => (EmitDegraded, []))
    case Look =>
      if outcome.Returned? && status == Recovering then (EmitStarted, [Seen(Recovering)]) else (EmitDegraded, [])
    case EmitDegraded => (EmitPartialBlocked, [Degraded])
    case EmitPartialBlocked => (Done, [Blocked])
    case EmitStarted => (Done, [Started])
  }

  function Tagged(h: nat, facts: seq<Fact>): seq<Entry> {
    seq(|facts|, i requires 0 <= i < |facts| => Entry(h, facts[i]))
  }

  /** A new handler; an ingested signal also takes its project's slot. */
  function Arrive(s: State, handler: Handler): State {
    s.(handlers := s.handlers + [handler],
       inFlight := if handler.ingested then s.inFlight + {handler.project} else s.inFlight)
  }

  function Step(s: State, e: Event): State
    requires Possible(s, e)
  {
    match e
    case BusEvent(kind, project) => Arrive(s, Handler(kind, project, false, Check, []))
    case Signal(kind, project) =>
      if project in s.inFlight then s else Arrive(s, Handler(kind, project, true, OuterCheck, []))
    case Advance(h, outcome) =>
      var handler := s.handlers[h];
      var status := StatusOf(s, handler.project);
      var (pc, facts) := Next(handler, outcome, status);
      s.(handlers := s.handlers[h := handler.(pc := pc, past := handler.past + [Reply(outcome, status)])],
         inFlight := if handler.ingested && pc == Done then s.inFlight - {handler.project} else s.inFlight,
         status := if facts != [] && facts[0].Accepted? then s.status[handler.project := facts[0].status] else s.status,
         log := s.log + Tagged(h, facts))
    case StatusChange(project, status) => s.(status := s.status[project := status])
  }

  predicate ValidFrom(s: State, es: seq<Event>)
    decreases es
  {
    es == [] || (Possible(s, es[0]) && ValidFrom(Step(s, es[0]), es[1..]))
  }

  function RunFrom(s: State, es: seq<Event>): State
    requires ValidFrom(s, es)
    decreases es
  {
    if es == [] then s else RunFrom(Step(s, es[0]), es[1..])
  }

  // ---------------------------------------------------------------------------
  // What every interleaving keeps
  // ---------------------------------------------------------------------------

  /** The log as one handler wrote it. */
  function TraceOf(log: seq<Entry>, h: nat): seq<Fact> {
    if log == [] then []
    else
      var front := TraceOf(log[..|log| - 1], h);
      var last := log[|log| - 1];
      if last.handler == h then front + [last.fact] else front
  }

  lemma TraceAppend(log: seq<Entry>, entry: Entry, h: nat)
    ensures TraceOf(log + [entry], h) == if entry.handler == h then TraceOf(log, h) + [entry.fact] else TraceOf(log, h)
  {
    assert (log + [entry])[..|log|] == log;
  }

  lemma TraceAppendTagged(log: seq<Entry>, g: nat, facts: seq<Fact>, h: nat)
    requires |facts| <= 1
    ensures TraceOf(log + Tagged(g, facts), h) == if g == h then TraceOf(log, h) + facts else TraceOf(log, h)
  {
    if facts == [] {
      assert log + Tagged(g, facts) == log;
    } else {
      TraceAppend(log, Entry(g, facts[0]), h);
      assert Tagged(g, facts) == [Entry(g, facts[0])] && facts == [facts[0]];
    }
  }

  /** What a handler has written when it is suspended at `pc`. */
  predicate Fits(pc: Pc, trace: seq<Fact>) {
    match pc
    case EmitBlocked => trace in {[], [Accepted(Error)], [Seen(Error)]}
    case EmitPartialBlocked => trace == [Degraded]
    case EmitStarted => trace in {[Accepted(Recovering)], [Seen(Recovering)]}
    case Done => Complete(trace)
    case _ => trace == []
  }

  /** The only traces a finished handler can leave. */
  predicate Complete(trace: seq<Fact>) {
    trace in {
      [],
      [Blocked],
      [Accepted(Error), Blocked],
      [Seen(Error), Blocked],
      [Degraded, Blocked],
      [Accepted(Recovering), Started],
      [Seen(Recovering), Started]
    }
  }

  predicate Live(s: State, h: int) {
    0 <= h < |s.handlers| && s.handlers[h].ingested && s.handlers[h].pc != Done
  }

  ghost predicate TracesFit(s: State) {
    && (forall h :: 0 <= h < |s.handlers| ==> Fits(s.handlers[h].pc, TraceOf(s.log, h)))
    && (forall h: nat :: h >= |s.handlers| ==> TraceOf(s.log, h) == [])
  }

  ghost predicate SlotsMatch(s: State) {
    && (forall h :: Live(s, h) ==> s.handlers[h].project in s.inFlight)
    && (forall p :: p in s.inFlight ==> exists h :: Live(s, h) && s.handlers[h].project == p)
    && (forall g, h :: Live(s, g) && Live(s, h) && s.handlers[g].project == s.handlers[h].project ==> g == h)
  }

  // ----- which trace a history of outcomes gives -----

  /** The trace of a handler whose awaited calls, from its own eligibility check on, ended as in `q`. */
  function Verdict(kind: Kind, q: seq<Reply>): seq<Fact> {
    if q == [] then []
    else
      match q[0].outcome
      case Eligible =>
        if kind == Deploy || |q| < 2 then []
        else if q[1].outcome == Granted then [Accepted(Recovering), Started]
        else if q[1].outcome != Declined then [Degraded, Blocked]
        else if |q| < 3 then []
        else if q[2] == Reply(Returned, Recovering) then [Seen(Recovering), Started]
        else [Degraded, Blocked]
      case Ineligible(unhandled) =>
        if !(kind == Container && unhandled) then [Blocked]
        else if |q| < 2 then []
        else if q[1].outcome == Granted then [Accepted(Error), Blocked]
        else if q[1].outcome == Declined && |q| >= 3 && q[2] == Reply(Returned, Error) then [Seen(Error), Blocked]
        else []
      case _ => []
  }

  /** The calls so far leave no choice any more. */
  predicate Decided(kind: Kind, q: seq<Reply>) {
    && q != []
    && (match q[0].outcome
        case Eligible => kind == Deploy || TransitionOver(q)
        case Ineligible(unhandled) => kind == Container && unhandled ==> TransitionOver(q)
        case Thrown => true
        case _ => false)
  }

  /** The status transition was granted, threw, or was declined and the status has been read since. */
  predicate TransitionOver(q: seq<Reply>) {
    |q| >= 2 && (q[1].outcome == Granted || q[1].outcome == Thrown || (q[1].outcome == Declined && |q| >= 3))
  }

  /** The calls from the handler's own eligibility check on; an ingested signal has one of its own before. */
  function OwnCalls(h: Handler): seq<Reply> {
    if h.ingested && h.past != [] then h.past[1..] else h.past
  }

  predicate Entered(h: Handler) {
    h.ingested ==> h.past != [] && h.past[0].outcome == Eligible
  }

  function FinishedTrace(h: Handler): seq<Fact> {
    if Entered(h) then Verdict(h.kind, OwnCalls(h))
    else if h.past != [] && h.past[0].outcome.Ineligible? then [Blocked]
    else []
  }

  /** The handler's calls have led it to where it is, and what it has written is a part of the trace they decide. */
  predicate OnPath(h: Handler, trace: seq<Fact>) {
    var q := OwnCalls(h);
    match h.pc
    case OuterCheck => h.ingested && h.past == [] && trace == []
    case OuterBlocked => h.ingested && |h.past| == 1 && h.past[0].outcome.Ineligible? && trace == []
    case Check => Entered(h) && q == [] && trace == []
    case FailTransition => Entered(h) && |q| == 1 && Unhandled(h.kind, q[0]) && trace == []
    case FailLook => Entered(h) && |q| == 2 && Unhandled(h.kind, q[0]) && q[1].outcome == Declined && trace == []
    case EmitBlocked => Entered(h) && Decided(h.kind, q) && trace + [Blocked] == Verdict(h.kind, q)
    case Transition => Entered(h) && |q| == 1 && q[0].outcome == Eligible && h.kind != Deploy && trace == []
    case Look =>
      Entered(h) && |q| == 2 && q[0].outcome == Eligible && h.kind != Deploy && q[1].outcome == Declined && trace == []
    case EmitDegraded => Entered(h) && Decided(h.kind, q) && trace == [] && Verdict(h.kind, q) == [Degraded, Blocked]
    case EmitPartialBlocked =>
      Entered(h) && Decided(h.kind, q) && trace == [Degraded] && Verdict(h.kind, q) == [Degraded, Blocked]
    case EmitStarted => Entered(h) && Decided(h.kind, q) && trace + [Started] == Verdict(h.kind, q)
    case Done =>
      && trace == FinishedTrace(h)
      && (if Entered(h) then Decided(h.kind, q)
          else h.past != [] && (h.past[0].outcome.Ineligible? || h.past[0].outcome == Thrown))
  }

  predicate Unhandled(kind: Kind, r: Reply) {
    kind == Container && r.outcome == Ineligible(true)
  }

  function After(h: Handler, outcome: Outcome, status: Status): Handler
    requires Answers(h.pc, outcome)
  {
    h.(pc := Next(h, outcome, status).0, past := h.past + [Reply(outcome, status)])
  }

  lemma OneMoreCall(h: Handler, outcome: Outcome, status: Status)
    requires Answers(h.pc, outcome) && Entered(h)
    ensures OwnCalls(After(h, outcome, status)) == OwnCalls(h) + [Reply(outcome, status)]
    ensures Entered(After(h, outcome, status))
  {
    var h' := After(h, outcome, status);
    if h.ingested {
      assert h'.past[1..] == h.past[1..] + [Reply(outcome, status)];
    }
  }

  /** Once decided, later calls change nothing. */
  lemma StaysDecided(kind: Kind, q: seq<Reply>, r: Reply)
    requires Decided(kind, q)
    ensures Decided(kind, q + [r]) && Verdict(kind, q + [r]) == Verdict(kind, q)
  {
    assert forall i :: 0 <= i < |q| ==> (q + [r])[i] == q[i];
  }

  lemma NextStaysOnPath(h: Handler, outcome: Outcome, status: Status, trace: seq<Fact>)
    requires Answers(h.pc, outcome) && OnPath(h, trace)
    ensures OnPath(After(h, outcome, status), trace + Next(h, outcome, status).1)
  {
    match h.pc
    case OuterCheck => OuterStaysOnPath(h, outcome, status, trace);
    case OuterBlocked => OuterStaysOnPath(h, outcome, status, trace);
    case Check => CheckStaysOnPath(h, outcome, status, trace);
    case FailTransition => FailStaysOnPath(h, outcome, status, trace);
    case FailLook => FailStaysOnPath(h, outcome, status, trace);
    case Transition => TransitionStaysOnPath(h, outcome, status, trace);
    case Look => TransitionStaysOnPath(h, outcome, status, trace);
    case _ => EmitStaysOnPath(h, outcome, status, trace);
  }

  lemma CheckStaysOnPath(h: Handler, outcome: Outcome, status: Status, trace: seq<Fact>)
    requires Answers(h.pc, outcome) && OnPath(h, trace) && (h.pc.Check?)
    ensures OnPath(After(h, outcome, status), trace + Next(h, outcome, status).1)
  {
    OneMoreCall(h, outcome, status);
    var q := OwnCalls(h);
    var q' := q + [Reply(outcome, status)];
    assert q' == [Reply(outcome, status)] && trace + Next(h, outcome, status).1 == [];
  }

  lemma FailStaysOnPath(h: Handler, outcome: Outcome, status: Status, trace: seq<Fact>)
    requires Answers(h.pc, outcome) && OnPath(h, trace) && (h.pc.FailTransition? || h.pc.FailLook?)
    ensures OnPath(After(h, outcome, status), trace + Next(h, outcome, status).1)
  {
    OneMoreCall(h, outcome, status);
    var q := OwnCalls(h);
    var q' := q + [Reply(outcome, status)];
    assert q'[0] == q[0] && q'[|q|] == Reply(outcome, status) && (|q| == 2 ==> q'[1] == q[1]);
    assert trace + Next(h, outcome, status).1 == Next(h, outcome, status).1;
  }

  lemma TransitionStaysOnPath(h: Handler, outcome: Outcome, status: Status, trace: seq<Fact>)
    requires Answers(h.pc, outcome) && OnPath(h, trace) && (h.pc.Transition? || h.pc.Look?)
    ensures OnPath(After(h, outcome, status), trace + Next(h, outcome, status).1)
  {
    OneMoreCall(h, outcome, status);
    var q := OwnCalls(h);
    var q' := q + [Reply(outcome, status)];
    assert q'[0] == q[0] && q'[|q|] == Reply(outcome, status) && (|q| == 2 ==> q'[1] == q[1]);
    assert trace + Next(h, outcome, status).1 == Next(h, outcome, status).1;
  }

  lemma EmitStaysOnPath(h: Handler, outcome: Outcome, status: Status, trace: seq<Fact>)
    requires Answers(h.pc, outcome) && OnPath(h, trace)
    requires h.pc.EmitBlocked? || h.pc.EmitDegraded? || h.pc.EmitPartialBlocked? || h.pc.EmitStarted?
    ensures OnPath(After(h, outcome, status), trace + Next(h, outcome, status).1)
  {
    OneMoreCall(h, outcome, status);
    var q := OwnCalls(h);
    var q' := q + [Reply(outcome, status)];
    StaysDecided(h.kind, q, Reply(outcome, status));
    assert OwnCalls(After(h, outcome, status)) == q';
  }

  lemma OuterStaysOnPath(h: Handler, outcome: Outcome, status: Status, trace: seq<Fact>)
    requires Answers(h.pc, outcome) && OnPath(h, trace) && (h.pc.OuterCheck? || h.pc.OuterBlocked?)
    ensures OnPath(After(h, outcome, status), trace + Next(h, outcome, status).1)
  {
    var h' := After(h, outcome, status);
    assert trace + Next(h, outcome, status).1 == Next(h, outcome, status).1;
    if h.pc.OuterCheck? {
      assert h'.past == [Reply(outcome, status)] && h'.past[1..] == [];
    } else {
      assert h'.past[0] == h.past[0];
    }
  }

  ghost predicate OnPaths(s: State) {
    forall h :: 0 <= h < |s.handlers| ==> OnPath(s.handlers[h], TraceOf(s.log, h))
  }

  lemma AdvanceKeepsPaths(s: State, g: nat, outcome: Outcome)
    requires OnPaths(s) && Possible(s, Advance(g, outcome))
    ensures OnPaths(Step(s, Advance(g, outcome)))
  {
    var s' := Step(s, Advance(g, outcome));
    var handler := s.handlers[g];
    var status := StatusOf(s, handler.project);
    var facts := Next(handler, outcome, status).1;
    assert |facts| <= 1;
    assert s'.handlers[g] == After(handler, outcome, status);
    forall h | 0 <= h < |s'.handlers|
      ensures OnPath(s'.handlers[h], TraceOf(s'.log, h))
    {
      TraceAppendTagged(s.log, g, facts, h);
      if h == g {
        NextStaysOnPath(handler, outcome, status, TraceOf(s.log, g));
      }
    }
  }

  ghost predicate Inv(s: State) {
    TracesFit(s) && SlotsMatch(s) && OnPaths(s)
  }

  lemma NextFits(h: Handler, outcome: Outcome, status: Status, trace: seq<Fact>)
    requires Answers(h.pc, outcome) && Fits(h.pc, trace)
    ensures var (pc, facts) := Next(h, outcome, status); Fits(pc, trace + facts)
  {
    var (pc, facts) := Next(h, outcome, status);
    if facts == [] {
      assert trace + facts == trace;
    } else if trace == [] {
      assert trace + facts == facts;
    } else {
      assert trace + facts == [trace[0], facts[0]];
    }
  }

  lemma AdvanceKeepsTraces(s: State, g: nat, outcome: Outcome)
    requires TracesFit(s) && Possible(s, Advance(g, outcome))
    ensures TracesFit(Step(s, Advance(g, outcome)))
  {
    var s' := Step(s, Advance(g, outcome));
    var handler := s.handlers[g];
    var status := StatusOf(s, handler.project);
    var (pc, facts) := Next(handler, outcome, status);
    assert |facts| <= 1;
    forall h: nat
      ensures TraceOf(s'.log, h) == if g == h then TraceOf(s.log, h) + facts else TraceOf(s.log, h)
    {
      TraceAppendTagged(s.log, g, facts, h);
    }
    NextFits(handler, outcome, status, TraceOf(s.log, g));
  }

  /** A slot's owner is still live when the handlers live before are live now, with the same projects. */
  lemma SlotStaysOwned(s: State, s': State, p: string)
    requires exists h :: Live(s, h) && s.handlers[h].project == p
    requires forall h :: Live(s, h) && s.handlers[h].project == p ==> Live(s', h) && s'.handlers[h].project == p
    ensures exists h :: Live(s', h) && s'.handlers[h].project == p
  {
    var h :| Live(s, h) && s.handlers[h].project == p;
    assert Live(s', h);
  }

  lemma AdvanceKeepsSlots(s: State, g: nat, outcome: Outcome)
    requires SlotsMatch(s) && Possible(s, Advance(g, outcome))
    ensures SlotsMatch(Step(s, Advance(g, outcome)))
  {
    var s' := Step(s, Advance(g, outcome));
    assert forall h :: Live(s', h) ==> Live(s, h) && s'.handlers[h].project == s.handlers[h].project;
    assert Live(s', g) || !s.handlers[g].ingested || s'.handlers[g].pc == Done;
    forall p | p in s'.inFlight
      ensures exists h :: Live(s', h) && s'.handlers[h].project == p
    {
      SlotStaysOwned(s, s', p);
    }
    forall h | Live(s', h)
      ensures s'.handlers[h].project in s'.inFlight
    {
      assert Live(s, h);
      if Live(s, g) {
        assert g == h || s.handlers[g].project != s.handlers[h].project;
      }
    }
  }

  lemma ArrivalKeepsTraces(s: State, handler: Handler)
    requires TracesFit(s) && (handler.pc == Check || handler.pc == OuterCheck)
    ensures TracesFit(Arrive(s, handler))
  {
  }

  lemma ArrivalKeepsSlots(s: State, handler: Handler)
    requires SlotsMatch(s) && handler.pc != Done && (handler.ingested ==> handler.project !in s.inFlight)
    ensures SlotsMatch(Arrive(s, handler))
  {
    var s' := Arrive(s, handler);
    var n := |s.handlers|;
    assert forall h :: Live(s, h) ==> Live(s', h) && s'.handlers[h] == s.handlers[h];
    assert forall h :: Live(s', h) && h != n ==> Live(s, h);
    forall p | p in s'.inFlight
      ensures exists h :: Live(s', h) && s'.handlers[h].project == p
    {
      if p in s.inFlight {
        SlotStaysOwned(s, s', p);
      } else {
        assert Live(s', n);
      }
    }
  }

  /** An event of the bus always gets a handler of its own; a signal gets one exactly if its project's slot is free. */
  lemma ArrivalEffect(s: State, kind: Kind, project: string)
    requires kind != Deploy
    ensures Step(s, BusEvent(kind, project)) == s.(handlers := s.handlers + [Handler(kind, project, false, Check, [])])
    ensures project in s.inFlight ==> Step(s, Signal(kind, project)) == s
    ensures project !in s.inFlight ==>
              Step(s, Signal(kind, project))
              == s.(handlers := s.handlers + [Handler(kind, project, true, OuterCheck, [])],
                    inFlight := s.inFlight + {project})
  {
  }

  lemma StepKeepsInv(s: State, e: Event)
    requires Inv(s) && Possible(s, e)
    ensures Inv(Step(s, e))
  {
    match e
    case BusEvent(kind, project) =>
      ArrivalKeepsTraces(s, Handler(kind, project, false, Check, []));
      ArrivalKeepsSlots(s, Handler(kind, project, false, Check, []));
    case Signal(kind, project) =>
      if project !in s.inFlight {
        ArrivalKeepsTraces(s, Handler(kind, project, true, OuterCheck, []));
        ArrivalKeepsSlots(s, Handler(kind, project, true, OuterCheck, []));
      }
    case Advance(h, outcome) =>
      AdvanceKeepsTraces(s, h, outcome);
      AdvanceKeepsPaths(s, h, outcome);
      AdvanceKeepsSlots(s, h, outcome);
    case StatusChange(project, status) =>
      var s' := Step(s, e);
      assert forall h :: Live(s', h) <==> Live(s, h);
      forall p | p in s'.inFlight
        ensures exists h :: Live(s', h) && s'.handlers[h].project == p
      {
        SlotStaysOwned(s, s', p);
      }
  }

  lemma {:induction false} RunKeepsInv(s: State, es: seq<Event>)
    requires Inv(s) && ValidFrom(s, es)
    ensures Inv(RunFrom(s, es))
    decreases es
  {
    if es != [] {
      StepKeepsInv(s, es[0]);
      RunKeepsInv(Step(s, es[0]), es[1..]);
    }
  }

  /**
   * Trace safety. In its own projection of the log a handler never emits both started and blocked, every started
   * follows an accepted transition to recovering or the sight of that status, and a finished handler that emitted
   * degraded also emitted blocked afterwards.
   */
  lemma TraceSafety(es: seq<Event>, h: nat)
    requires ValidFrom(INITIAL, es) && h < |RunFrom(INITIAL, es).handlers|
    ensures var s := RunFrom(INITIAL, es);
            var t := TraceOf(s.log, h);
            && !(Started in t && Blocked in t)
            && (forall i :: 0 <= i < |t| && t[i] == Started
                            ==> i == 1 && (t[0] == Accepted(Recovering) || t[0] == Seen(Recovering)))
            && (s.handlers[h].pc == Done
                ==> Complete(t) && forall i :: 0 <= i < |t| && t[i] == Degraded ==> i + 1 < |t| && t[i + 1] == Blocked)
  {
    RunKeepsInv(INITIAL, es);
  }

  /** In every interleaving, how its awaited calls ended decides which trace a finished handler has left. */
  lemma FinishedTraceIsDecided(es: seq<Event>, h: nat)
    requires ValidFrom(INITIAL, es) && h < |RunFrom(INITIAL, es).handlers|
    requires RunFrom(INITIAL, es).handlers[h].pc == Done
    ensures var s := RunFrom(INITIAL, es); TraceOf(s.log, h) == FinishedTrace(s.handlers[h])
  {
    RunKeepsInv(INITIAL, es);
  }

  /** The failed container's move to `error` threw, or was declined and the status was not that already. */
  predicate FailureNotRecorded(kind: Kind, q: seq<Reply>) {
    && |q| >= 2 && Unhandled(kind, q[0])
    && (q[1].outcome == Thrown || (q[1].outcome == Declined && |q| >= 3 && q[2] != Reply(Returned, Error)))
  }

  /**
   * A finished handler leaves no trace exactly when an eligibility check threw, when it handles a deploy and was found
   * eligible, or when the failed container's move to `error` did not happen. In particular a health or container
   * handler that was found eligible always ends with started or blocked.
   */
  lemma SilentExactlyWhen(es: seq<Event>, h: nat)
    requires ValidFrom(INITIAL, es) && h < |RunFrom(INITIAL, es).handlers|
    requires RunFrom(INITIAL, es).handlers[h].pc == Done
    ensures var s := RunFrom(INITIAL, es);
            var handler := s.handlers[h];
            var q := OwnCalls(handler);
            && (TraceOf(s.log, h) == [] <==>
                || (handler.ingested && handler.past != [] && handler.past[0].outcome == Thrown)
                || (Entered(handler) && q != [] && q[0].outcome == Thrown)
                || (Entered(handler) && q != [] && q[0].outcome == Eligible && handler.kind == Deploy)
                || (Entered(handler) && FailureNotRecorded(handler.kind, q)))
            && (Entered(handler) && q != [] && q[0].outcome == Eligible && handler.kind != Deploy
                ==> (Started in TraceOf(s.log, h) <==>
                     |q| >= 2 && (q[1].outcome == Granted
                                  || (q[1].outcome == Declined && |q| >= 3 && q[2] == Reply(Returned, Recovering))))
                    && (Started !in TraceOf(s.log, h) ==> TraceOf(s.log, h) == [Degraded, Blocked]))
  {
    RunKeepsInv(INITIAL, es);
  }

  /** The handler has noted the outcome; if it is done, its trace is the decided one and its slot is free. */
  ghost predicate Advanced(s: State, s': State, h: nat, outcome: Outcome) {
    && h < |s.handlers| == |s'.handlers|
    && var (before, after) := (s.handlers[h], s'.handlers[h]);
       && after.past == before.past + [Reply(outcome, StatusOf(s, before.project))]
       && after.kind == before.kind && after.project == before.project && after.ingested == before.ingested
       && (after.pc == Done ==> TraceOf(s'.log, h) == FinishedTrace(after))
       && (after.ingested && after.pc == Done ==> after.project !in s'.inFlight)
  }

  lemma AdvanceEffect(s: State, h: nat, outcome: Outcome)
    requires Inv(s) && Possible(s, Advance(h, outcome))
    ensures Inv(Step(s, Advance(h, outcome))) && Advanced(s, Step(s, Advance(h, outcome)), h, outcome)
  {
    StepKeepsInv(s, Advance(h, outcome));
  }

  /** A granted transition sets the status of the handler's project and of no other. */
  lemma GrantedSetsStatus(s: State, h: nat)
    requires Possible(s, Advance(h, Granted))
    ensures var s' := Step(s, Advance(h, Granted));
            && StatusOf(s', s.handlers[h].project) == (if s.handlers[h].pc == Transition then Recovering else Error)
            && forall p :: p != s.handlers[h].project ==> StatusOf(s', p) == StatusOf(s, p)
  {
  }

  /** Per project at most one ingested signal is in flight, and the slot is taken exactly while it is. */
  lemma SignalsAreExclusive(es: seq<Event>, p: string)
    requires ValidFrom(INITIAL, es)
    ensures var s := RunFrom(INITIAL, es);
            && (p in s.inFlight <==> exists h :: Live(s, h) && s.handlers[h].project == p)
            && (forall g, h :: Live(s, g) && Live(s, h) && s.handlers[g].project == s.handlers[h].project == p
                               ==> g == h)
  {
    RunKeepsInv(INITIAL, es);
  }

  // ---------------------------------------------------------------------------
  // The class
  // ---------------------------------------------------------------------------

  /** `inFlightProjects` is the source's field; the rest records what the suspended handlers are doing. */
  class RecoveryCoordinator {
    var inFlightProjects: set<string>
    var handlers: seq<Handler>
    var status: map<string, Status>
    ghost var log: seq<Entry>

    ghost function View(): State
      reads this
    {
      State(handlers, inFlightProjects, status, log)
    }

    constructor ()
      ensures View() == INITIAL && Inv(View())
    {
      inFlightProjects, handlers, status, log := {}, [], map[], [];
      new;
      assert forall h: nat :: TraceOf([], h) == [];
    }

    /** `ingestRuntimeSignal` up to its first suspension: a signal enters exactly if its project has none live. */
    method IngestRuntimeSignal(kind: Kind, projectId: string) returns (entered: bool)
      requires Inv(View()) && kind != Deploy
      modifies this
      ensures View() == Step(old(View()), Signal(kind, projectId)) && Inv(View())
      ensures entered <==> !exists h :: Live(old(View()), h) && old(handlers)[h].project == projectId
      ensures entered ==> Live(View(), |old(handlers)|)
    {
      StepKeepsInv(View(), Signal(kind, projectId));
      if projectId in inFlightProjects {
        return false;
      }
      inFlightProjects := inFlightProjects + {projectId};
      handlers := handlers + [Handler(kind, projectId, true, OuterCheck, [])];
      return true;
    }

    /** A handler goes on after its awaited call. An ingested signal that is done has freed its project's slot. */
    method ResumeHandler(h: nat, outcome: Outcome)
      requires Inv(View()) && h < |handlers| && Answers(handlers[h].pc, outcome)
      modifies this
      ensures View() == Step(old(View()), Advance(h, outcome)) && Inv(View())
      ensures Advanced(old(View()), View(), h, outcome)
    {
      ghost var after := Step(View(), Advance(h, outcome));
      AdvanceEffect(View(), h, outcome);
      var handler := handlers[h];
      var current := if handler.project in status then status[handler.project] else Other;
      var (pc, facts) := Next(handler, outcome, current);
      handlers := handlers[h := handler.(pc := pc, past := handler.past + [Reply(outcome, current)])];
      if handler.ingested && pc == Done {
        inFlightProjects := inFlightProjects - {handler.project};
      }
      if |facts| > 0 && facts[0].Accepted? {
        status := status[handler.project := facts[0].status];
      }
      log := log + Tagged(h, facts);
      assert View() == after;
    }
  }
}
