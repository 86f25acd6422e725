/**
 * The per-provider circuit breaker. The class keeps a pruned list of failure times per
 * provider; the reference below reads the whole event history and prunes nothing.
 */
module CircuitBreaker {
  import opened Prelude
  import opened TimeWindow

  datatype Config = Config(failureThreshold: int, windowMs: int, cooldownMs: int)

  const DEFAULT_CONFIG := Config(3, 300_000, 600_000)

  datatype Circuit = Closed | Open | HalfOpen

  datatype Provider = Provider(state: Circuit, failures: seq<int>, openedAt: Option<int>)

  const FRESH := Provider(Closed, [], None)

  datatype Status = Status(state: Circuit, failureCount: nat, cooldownRemainingMs: Option<int>)

  type States = map<string, Provider>

  function Lookup(states: States, id: string): Provider {
    if id in states then states[id] else FRESH
  }

  // ----- one provider -----

  /** A failure is kept while `now - timestamp <= windowMs`. */
  function Pruned(c: Config, p: Provider, now: int): Provider {
    var failures := Since(p.failures, now - c.windowMs);
    p.(failures := failures,
       openedAt := if p.state == Closed && failures == [] then None else p.openedAt)
  }

  /** Opens the provider if it was on probation or has too many failures. */
  function Trip(c: Config, p: Provider, now: int): Provider {
    if p.state == HalfOpen || |p.failures| >= c.failureThreshold then p.(state := Open, openedAt := Some(now)) else p
  }

  function Fail(c: Config, p: Provider, now: int): Provider {
    Trip(c, Pruned(c, p.(failures := p.failures + [now]), now), now)
  }

  function Ask(c: Config, p: Provider, now: int): (Provider, bool) {
    var q := Pruned(c, p, now);
    if q.state != Open then (q, true)
    else
      var openedAt := if q.openedAt.None? then now else q.openedAt.value;
      if now - openedAt >= c.cooldownMs then (q.(state := HalfOpen, openedAt := None), true)
      else (q.(openedAt := Some(openedAt)), false)
  }

  function StatusOf(c: Config, p: Provider, now: int): Status {
    Status(p.state, |p.failures|,
           if p.state == Open && p.openedAt.Some? then
             var remaining := c.cooldownMs - (now - p.openedAt.value);
             Some(if remaining > 0 then remaining else 0)
           else None)
  }

  // ---------------------------------------------------------------------------
  // Runs
  // ---------------------------------------------------------------------------

  datatype Event =
    | Failure(id: string, isHealthCheck: bool, at: int)
    | Success(id: string, at: int)
    | CanCall(id: string, at: int)
    | GetStatus(id: string, at: int)

  /** What an event does to its own provider. */
  function Next(c: Config, p: Provider, e: Event): Provider {
    match e
    case Failure(_, isHealthCheck, at) => if isHealthCheck then p else Fail(c, p, at)
    case Success(_, _) => FRESH
    case CanCall(_, at) => Ask(c, p, at).0
    case GetStatus(_, at) => Pruned(c, p, at)
  }

  function Step(c: Config, states: States, e: Event): States {
    if e.Failure? && e.isHealthCheck then states else states[e.id := Next(c, Lookup(states, e.id), e)]
  }

  function Run(c: Config, h: seq<Event>): States {
    if h == [] then map[] else Step(c, Run(c, h[..|h| - 1]), h[|h| - 1])
  }

  /** What `canCall` answers to a question asked after history `h`. */
  function Allowed(c: Config, h: seq<Event>, id: string, now: int): bool {
    Ask(c, Lookup(Run(c, h), id), now).1
  }

  /** A clock that does not go back. */
  ghost predicate Timed(h: seq<Event>) {
    forall i, j :: 0 <= i < j < |h| ==> h[i].at <= h[j].at
  }

  ghost predicate TimedUpTo(h: seq<Event>, now: int) {
    Timed(h) && forall i :: 0 <= i < |h| ==> h[i].at <= now
  }

  lemma TimedPrefix(h: seq<Event>)
    requires h != [] && Timed(h)
    ensures Timed(h[..|h| - 1])
  {
  }

  // ----- the reference: a reading of the whole history -----

  predicate Counts(e: Event, id: string) {
    e.Failure? && e.id == id && !e.isHealthCheck
  }

  function NextFailures(failures: seq<int>, e: Event, id: string): seq<int> {
    if e.Success? && e.id == id then []
    else if Counts(e, id) then failures + [e.at]
    else failures
  }

  /** Every counted failure since the provider's last success, however old. */
  function FailuresSinceSuccess(h: seq<Event>, id: string): seq<int> {
    if h == [] then [] else NextFailures(FailuresSinceSuccess(h[..|h| - 1], id), h[|h| - 1], id)
  }

  /** `Tripped(at)` carries the time of the last opening. */
  datatype Phase = Normal | Tripped(at: int) | Probing

  function NextPhase(c: Config, phase: Phase, failures: seq<int>, e: Event, id: string): Phase {
    if e.id != id then phase
    else
      match e
      case Success(_, _) => Normal
      case Failure(_, isHealthCheck, at) =>
        if isHealthCheck then phase
        else if phase == Probing || |Since(failures, at - c.windowMs)| >= c.failureThreshold then Tripped(at)
        else phase
      case CanCall(_, at) => if phase.Tripped? && at - phase.at >= c.cooldownMs then Probing else phase
      case GetStatus(_, _) => phase
  }

  /** The phase, decided from the full failure history. */
  function PhaseOf(c: Config, h: seq<Event>, id: string): Phase {
    if h == [] then Normal
    else NextPhase(c, PhaseOf(c, h[..|h| - 1], id), FailuresSinceSuccess(h, id), h[|h| - 1], id)
  }

  function ReferenceAllows(c: Config, h: seq<Event>, id: string, now: int): bool {
    var phase := PhaseOf(c, h, id);
    !(phase.Tripped? && now - phase.at < c.cooldownMs)
  }

  /** The stored provider agrees with the reference, up to failures that left the window before `upTo`. */
  ghost predicate Agrees(c: Config, p: Provider, failures: seq<int>, phase: Phase, upTo: int) {
    && Shows(p.failures, failures, upTo - c.windowMs)
    && match phase
       case Normal => p.state == Closed && p.openedAt == None
       case Tripped(at) => p.state == Open && p.openedAt == Some(at)
       case Probing => p.state == HalfOpen && p.openedAt == None
  }

  lemma PrunedAgrees(c: Config, p: Provider, failures: seq<int>, phase: Phase, upTo: int, now: int)
    requires Agrees(c, p, failures, phase, upTo) && upTo <= now
    ensures Pruned(c, p, now).failures == Since(failures, now - c.windowMs)
    ensures Agrees(c, Pruned(c, p, now), failures, phase, now)
  {
    PruneIsExact(p.failures, failures, upTo - c.windowMs, now - c.windowMs);
  }

  lemma CountAgrees(c: Config, p: Provider, failures: seq<int>, phase: Phase, upTo: int, now: int)
    requires Agrees(c, p, failures, phase, upTo) && upTo <= now
    ensures var q := Pruned(c, p.(failures := p.failures + [now]), now);
            q.failures == Since(failures + [now], now - c.windowMs) && Agrees(c, q, failures + [now], phase, now)
  {
    AppendIsExact(p.failures, failures, now, upTo - c.windowMs, now - c.windowMs);
  }

  lemma TripAgrees(c: Config, p: Provider, failures: seq<int>, phase: Phase, id: string, now: int)
    requires Agrees(c, p, failures, phase, now) && p.failures == Since(failures, now - c.windowMs)
    ensures Agrees(c, Trip(c, p, now), failures, NextPhase(c, phase, failures, Failure(id, false, now), id), now)
  {
  }

  lemma FailAgrees(c: Config, p: Provider, failures: seq<int>, phase: Phase, upTo: int, id: string, now: int)
    requires Agrees(c, p, failures, phase, upTo) && upTo <= now
    ensures Agrees(c, Fail(c, p, now), failures + [now],
                   NextPhase(c, phase, failures + [now], Failure(id, false, now), id), now)
  {
    CountAgrees(c, p, failures, phase, upTo, now);
    TripAgrees(c, Pruned(c, p.(failures := p.failures + [now]), now), failures + [now], phase, id, now);
  }

  lemma LaterStillAgrees(c: Config, p: Provider, failures: seq<int>, phase: Phase, upTo: int, now: int)
    requires Agrees(c, p, failures, phase, upTo) && upTo <= now
    ensures Agrees(c, p, failures, phase, now)
  {
  }

  lemma AskAgrees(c: Config, p: Provider, failures: seq<int>, phase: Phase, upTo: int, now: int)
    requires Agrees(c, p, failures, phase, upTo) && upTo <= now
    ensures Agrees(c, Ask(c, p, now).0, failures,
                   if phase.Tripped? && now - phase.at >= c.cooldownMs then Probing else phase, now)
    ensures Ask(c, p, now).1 <==> !(phase.Tripped? && now - phase.at < c.cooldownMs)
  {
    PrunedAgrees(c, p, failures, phase, upTo, now);
  }

  lemma ResetAgrees(c: Config, now: int)
    ensures Agrees(c, FRESH, [], Normal, now)
  {
    assert [] == Since([], now - c.windowMs);
  }

  lemma StepIsLocal(c: Config, states: States, e: Event, id: string)
    ensures var p := Lookup(states, id);
            Lookup(Step(c, states, e), id) == if e.id == id then Next(c, p, e) else p
  {
  }

  lemma NextAgrees(c: Config, p: Provider, e: Event, failures: seq<int>, phase: Phase, upTo: int)
    requires Agrees(c, p, failures, phase, upTo) && upTo <= e.at
    ensures var failures' := NextFailures(failures, e, e.id);
            Agrees(c, Next(c, p, e), failures', NextPhase(c, phase, failures', e, e.id), e.at)
  {
    match e
    case Failure(id, isHealthCheck, at) =>
      if isHealthCheck {
        LaterStillAgrees(c, p, failures, phase, upTo, at);
      } else {
        FailAgrees(c, p, failures, phase, upTo, id, at);
      }
    case Success(_, at) => ResetAgrees(c, at);
    case CanCall(_, at) => AskAgrees(c, p, failures, phase, upTo, at);
    case GetStatus(_, at) => PrunedAgrees(c, p, failures, phase, upTo, at);
  }

  /** One event keeps one provider in agreement with the reference. */
  lemma StepAgrees(c: Config, states: States, e: Event, id: string, failures: seq<int>, phase: Phase, upTo: int)
    requires Agrees(c, Lookup(states, id), failures, phase, upTo) && upTo <= e.at
    ensures var failures' := NextFailures(failures, e, id);
            Agrees(c, Lookup(Step(c, states, e), id), failures', NextPhase(c, phase, failures', e, id), e.at)
  {
    StepIsLocal(c, states, e, id);
    if e.id == id {
      NextAgrees(c, Lookup(states, id), e, failures, phase, upTo);
    } else {
      LaterStillAgrees(c, Lookup(states, id), failures, phase, upTo, e.at);
    }
  }

  /** After every run, every provider agrees with the reference. */
  lemma {:induction false} Refines(c: Config, h: seq<Event>, id: string, upTo: int)
    requires TimedUpTo(h, upTo)
    ensures Agrees(c, Lookup(Run(c, h), id), FailuresSinceSuccess(h, id), PhaseOf(c, h, id), upTo)
  {
    if h == [] {
      ResetAgrees(c, upTo);
    } else {
      var last := h[|h| - 1].at;
      TimedPrefix(h);
      Refines(c, h[..|h| - 1], id, last);
      var front := h[..|h| - 1];
      StepAgrees(c, Run(c, front), h[|h| - 1], id, FailuresSinceSuccess(front, id), PhaseOf(c, front, id), last);
      LaterStillAgrees(c, Lookup(Run(c, h), id), FailuresSinceSuccess(h, id), PhaseOf(c, h, id), last, upTo);
    }
  }

  /** The pruned list, read at any later time, is exactly the failures since the last success within the window. */
  lemma PrunedListIsExact(c: Config, h: seq<Event>, id: string, now: int)
    requires TimedUpTo(h, now)
    ensures Pruned(c, Lookup(Run(c, h), id), now).failures == Since(FailuresSinceSuccess(h, id), now - c.windowMs)
  {
    Refines(c, h, id, now);
    PrunedAgrees(c, Lookup(Run(c, h), id), FailuresSinceSuccess(h, id), PhaseOf(c, h, id), now, now);
  }

  /** `canCall` is false exactly while the provider is open and less than the cooldown after the last opening. */
  lemma CanCallMatchesReference(c: Config, h: seq<Event>, id: string, now: int)
    requires TimedUpTo(h, now)
    ensures Allowed(c, h, id, now) <==> ReferenceAllows(c, h, id, now)
  {
    Refines(c, h, id, now);
    AskAgrees(c, Lookup(Run(c, h), id), FailuresSinceSuccess(h, id), PhaseOf(c, h, id), now, now);
  }

  // ----- the reference in terms of single events -----

  /**
   * Event `j` is a failure that opens the provider, or opens it anew: one counted during probation, or one that
   * fills the window.
   */
  ghost predicate Opens(c: Config, h: seq<Event>, id: string, j: int)
    decreases |h|, 0
  {
    && 0 <= j < |h| && Counts(h[j], id)
    && (|| OnProbation(c, h[..j], id)
        || |Since(FailuresSinceSuccess(h[..j + 1], id), h[j].at - c.windowMs)| >= c.failureThreshold)
  }

  /** A success, or a question asked once the cooldown after the opening is over. */
  predicate EndsOpening(c: Config, e: Event, id: string, openedAt: int) {
    e.id == id && (e.Success? || (e.CanCall? && e.at - openedAt >= c.cooldownMs))
  }

  /** Event `j` opened the provider last, and nothing has ended that since. */
  ghost predicate LastOpening(c: Config, h: seq<Event>, id: string, j: int)
    decreases |h|, 1
  {
    && 0 <= j < |h| && Opens(c, h, id, j)
    && (forall i :: j < i < |h| ==> !Opens(c, h, id, i) && !EndsOpening(c, h[i], id, h[j].at))
  }

  /** Event `i` is a question that ends the opening before it, because the cooldown is over. */
  ghost predicate StartsProbation(c: Config, h: seq<Event>, id: string, i: int)
    decreases |h|, 0
  {
    && 0 <= i < |h| && h[i].CanCall? && h[i].id == id
    && exists j :: 0 <= j < i && h[i].at - h[j].at >= c.cooldownMs && LastOpening(c, h[..i], id, j)
  }

  /** The first success or counted failure decides. */
  predicate EndsProbation(e: Event, id: string) {
    e.id == id && (e.Success? || Counts(e, id))
  }

  /** Event `i` put the provider on probation, and nothing has decided since. */
  ghost predicate ProbationFrom(c: Config, h: seq<Event>, id: string, i: int)
    decreases |h|, 1
  {
    StartsProbation(c, h, id, i) && forall k :: i < k < |h| ==> !EndsProbation(h[k], id)
  }

  ghost predicate OnProbation(c: Config, h: seq<Event>, id: string)
    decreases |h|, 2
  {
    exists i :: 0 <= i < |h| && h[i].CanCall? && ProbationFrom(c, h, id, i)
  }

  /** Whether an event opens the provider or starts its probation depends only on what came before it. */
  lemma EventsInPrefix(c: Config, h: seq<Event>, id: string, j: int)
    requires h != [] && j < |h| - 1
    ensures Opens(c, h, id, j) <==> Opens(c, h[..|h| - 1], id, j)
    ensures StartsProbation(c, h, id, j) <==> StartsProbation(c, h[..|h| - 1], id, j)
  {
    if 0 <= j {
      var front := h[..|h| - 1];
      assert front[..j] == h[..j] && front[..j + 1] == h[..j + 1];
    }
  }

  lemma LastOpeningInPrefix(c: Config, h: seq<Event>, id: string, j: int)
    requires h != [] && j < |h| - 1
    ensures LastOpening(c, h, id, j) <==>
            && LastOpening(c, h[..|h| - 1], id, j)
            && !Opens(c, h, id, |h| - 1) && !EndsOpening(c, h[|h| - 1], id, h[j].at)
  {
    forall i | i < |h| - 1
      ensures Opens(c, h, id, i) <==> Opens(c, h[..|h| - 1], id, i)
    {
      EventsInPrefix(c, h, id, i);
    }
  }

  lemma ProbationFromInPrefix(c: Config, h: seq<Event>, id: string, i: int)
    requires h != [] && i < |h| - 1
    ensures ProbationFrom(c, h, id, i) <==> ProbationFrom(c, h[..|h| - 1], id, i) && !EndsProbation(h[|h| - 1], id)
  {
    EventsInPrefix(c, h, id, i);
    var front := h[..|h| - 1];
    assert forall k :: 0 <= k < |front| ==> front[k] == h[k];
  }

  lemma ProbationInPrefix(c: Config, h: seq<Event>, id: string)
    requires h != []
    ensures OnProbation(c, h, id) <==>
            || StartsProbation(c, h, id, |h| - 1)
            || (OnProbation(c, h[..|h| - 1], id) && !EndsProbation(h[|h| - 1], id))
  {
    var n := |h| - 1;
    if OnProbation(c, h, id) && !StartsProbation(c, h, id, n) {
      var i :| 0 <= i < |h| && h[i].CanCall? && ProbationFrom(c, h, id, i);
      ProbationFromInPrefix(c, h, id, i);
      assert h[..n][i] == h[i];
    }
    if OnProbation(c, h[..n], id) && !EndsProbation(h[n], id) {
      var i :| 0 <= i < n && h[..n][i].CanCall? && ProbationFrom(c, h[..n], id, i);
      ProbationFromInPrefix(c, h, id, i);
      assert h[i].CanCall?;
    }
    if StartsProbation(c, h, id, n) {
      assert h[n].CanCall? && ProbationFrom(c, h, id, n);
    }
  }

  /** What the reference says of an event, once it is known what it says of the history before. */
  lemma LastEvent(c: Config, h: seq<Event>, id: string)
    requires h != []
    requires var front := h[..|h| - 1];
             && (PhaseOf(c, front, id) == Probing <==> OnProbation(c, front, id))
             && (PhaseOf(c, front, id).Tripped? <==> exists j :: LastOpening(c, front, id, j))
             && (forall j :: LastOpening(c, front, id, j) ==> PhaseOf(c, front, id) == Tripped(front[j].at))
    ensures Opens(c, h, id, |h| - 1) ==> PhaseOf(c, h, id) == Tripped(h[|h| - 1].at)
    ensures !Opens(c, h, id, |h| - 1) && PhaseOf(c, h, id).Tripped?
            ==> PhaseOf(c, h[..|h| - 1], id) == PhaseOf(c, h, id)
    ensures PhaseOf(c, h, id) == Probing <==>
            || StartsProbation(c, h, id, |h| - 1)
            || (PhaseOf(c, h[..|h| - 1], id) == Probing && !EndsProbation(h[|h| - 1], id))
  {
    assert h[..|h| - 1 + 1] == h;
    var front := h[..|h| - 1];
    if StartsProbation(c, h, id, |h| - 1) {
      var j :| 0 <= j < |front| && h[|h| - 1].at - h[j].at >= c.cooldownMs && LastOpening(c, front, id, j);
      assert PhaseOf(c, front, id) == Tripped(front[j].at);
    }
    if PhaseOf(c, front, id).Tripped? {
      var j :| LastOpening(c, front, id, j);
      assert front[j] == h[j];
    }
  }

  /**
   * The reference is tripped exactly when some event opened the provider last, since that event's time, and it is
   * probing exactly when the events put the provider on probation.
   */
  lemma {:induction false} PhaseIsReadFromEvents(c: Config, h: seq<Event>, id: string)
    ensures PhaseOf(c, h, id).Tripped? <==> exists j :: LastOpening(c, h, id, j)
    ensures forall j :: LastOpening(c, h, id, j) ==> PhaseOf(c, h, id) == Tripped(h[j].at)
    ensures PhaseOf(c, h, id) == Probing <==> OnProbation(c, h, id)
  {
    if h != [] {
      var n := |h| - 1;
      var front := h[..n];
      PhaseIsReadFromEvents(c, front, id);
      LastEvent(c, h, id);
      ProbationInPrefix(c, h, id);
      LastOpeningIsThePhase(c, h, id);
    }
  }

  lemma LastOpeningIsThePhase(c: Config, h: seq<Event>, id: string)
    requires h != []
    requires var front := h[..|h| - 1];
             && (PhaseOf(c, front, id).Tripped? <==> exists j :: LastOpening(c, front, id, j))
             && (forall j :: LastOpening(c, front, id, j) ==> PhaseOf(c, front, id) == Tripped(front[j].at))
    requires Opens(c, h, id, |h| - 1) ==> PhaseOf(c, h, id) == Tripped(h[|h| - 1].at)
    requires !Opens(c, h, id, |h| - 1) && PhaseOf(c, h, id).Tripped?
             ==> PhaseOf(c, h[..|h| - 1], id) == PhaseOf(c, h, id)
    ensures PhaseOf(c, h, id).Tripped? <==> exists j :: LastOpening(c, h, id, j)
    ensures forall j :: LastOpening(c, h, id, j) ==> PhaseOf(c, h, id) == Tripped(h[j].at)
  {
    var n := |h| - 1;
    var front := h[..n];
    forall j | LastOpening(c, h, id, j)
      ensures PhaseOf(c, h, id) == Tripped(h[j].at)
    {
      if j < n {
        LastOpeningInPrefix(c, h, id, j);
        assert h[..n + 1] == h;
        assert PhaseOf(c, front, id) == Tripped(h[j].at);
      }
    }
    if Opens(c, h, id, n) {
      assert LastOpening(c, h, id, n);
    } else if PhaseOf(c, h, id).Tripped? {
      var j :| LastOpening(c, front, id, j);
      LastOpeningInPrefix(c, h, id, j);
    }
  }

  /** `canCall` answers no exactly while less than the cooldown has passed since the last opening. */
  lemma RefusedExactlyDuringCooldown(c: Config, h: seq<Event>, id: string, now: int)
    requires TimedUpTo(h, now)
    ensures !Allowed(c, h, id, now) <==> exists j :: LastOpening(c, h, id, j) && now - h[j].at < c.cooldownMs
  {
    CanCallMatchesReference(c, h, id, now);
    PhaseIsReadFromEvents(c, h, id);
  }

  // ----- the threshold -----

  /** A closed provider has fewer failures on its list than the threshold. */
  predicate BelowThreshold(c: Config, p: Provider) {
    p.state == Closed ==> |p.failures| < c.failureThreshold
  }

  ghost predicate ClosedBelowThreshold(c: Config, h: seq<Event>, id: string) {
    BelowThreshold(c, Lookup(Run(c, h), id))
  }

  lemma StepStaysBelow(c: Config, p: Provider, now: int)
    requires c.failureThreshold >= 1 && BelowThreshold(c, p)
    ensures BelowThreshold(c, Fail(c, p, now))
    ensures BelowThreshold(c, Ask(c, p, now).0) && BelowThreshold(c, Pruned(c, p, now))
  {
    SinceNoLonger(p.failures, now - c.windowMs);
  }

  lemma {:induction false} ClosedStaysBelow(c: Config, h: seq<Event>, id: string)
    requires c.failureThreshold >= 1
    ensures ClosedBelowThreshold(c, h, id)
  {
    if h != [] {
      var front := h[..|h| - 1];
      ClosedStaysBelow(c, front, id);
      StepStaysBelow(c, Lookup(Run(c, front), id), h[|h| - 1].at);
      assert BelowThreshold(c, Lookup(Step(c, Run(c, front), h[|h| - 1]), id));
    }
  }

  lemma {:induction false} SinceNoLonger(times: seq<int>, bound: int)
    ensures |Since(times, bound)| <= |times|
  {
    if times != [] {
      SinceNoLonger(times[..|times| - 1], bound);
    }
  }

  /** That holds after every run exactly when the configured threshold is positive. */
  lemma ThresholdMustBePositive(c: Config)
    ensures (forall h: seq<Event>, id :: ClosedBelowThreshold(c, h, id)) <==> c.failureThreshold >= 1
  {
    if c.failureThreshold >= 1 {
      forall h: seq<Event>, id
        ensures ClosedBelowThreshold(c, h, id)
      {
        ClosedStaysBelow(c, h, id);
      }
    } else {
      var none: seq<Event> := [];
      assert !ClosedBelowThreshold(c, none, "");
    }
  }

  /** The status counts the failures the reference sees, and its cooldown runs from the reference's last opening. */
  lemma StatusMatchesReference(c: Config, h: seq<Event>, id: string, now: int)
    requires TimedUpTo(h, now)
    ensures var status := StatusOf(c, Pruned(c, Lookup(Run(c, h), id), now), now);
            var phase := PhaseOf(c, h, id);
            && status.failureCount == |Since(FailuresSinceSuccess(h, id), now - c.windowMs)|
            && status.state == (match phase case Normal => Closed case Tripped(_) => Open case Probing => HalfOpen)
            && status.cooldownRemainingMs ==
               if !phase.Tripped? then None
               else if now - phase.at < c.cooldownMs then Some(phase.at + c.cooldownMs - now)
               else Some(0)
  {
    Refines(c, h, id, now);
    PrunedAgrees(c, Lookup(Run(c, h), id), FailuresSinceSuccess(h, id), PhaseOf(c, h, id), now, now);
  }

  // ---------------------------------------------------------------------------
  // Non-interference
  // ---------------------------------------------------------------------------

  predicate Relevant(e: Event, id: string) {
    e.id == id && !e.GetStatus? && !(e.Failure? && e.isHealthCheck)
  }

  /** The history without health-check failures, status reads and other providers' events. */
  function Erase(h: seq<Event>, id: string): seq<Event> {
    if h == [] then []
    else
      var front := Erase(h[..|h| - 1], id);
      if Relevant(h[|h| - 1], id) then front + [h[|h| - 1]] else front
  }

  lemma {:induction false} EraseKeepsTime(h: seq<Event>, id: string, now: int)
    requires TimedUpTo(h, now)
    ensures TimedUpTo(Erase(h, id), now)
  {
    if h != [] {
      EraseKeepsTime(h[..|h| - 1], id, h[|h| - 1].at);
    }
  }

  lemma {:induction false} EraseKeepsReference(c: Config, h: seq<Event>, id: string)
    ensures FailuresSinceSuccess(Erase(h, id), id) == FailuresSinceSuccess(h, id)
    ensures PhaseOf(c, Erase(h, id), id) == PhaseOf(c, h, id)
  {
    if h != [] {
      var front := h[..|h| - 1];
      EraseKeepsReference(c, front, id);
      if Relevant(h[|h| - 1], id) {
        var erased := Erase(h, id);
        assert erased[..|erased| - 1] == Erase(front, id);
        assert erased[|erased| - 1] == h[|h| - 1];
      }
    }
  }

  /** The answers `canCall` gave for one provider along a run, in order. */
  function Answers(c: Config, h: seq<Event>, id: string): seq<bool> {
    if h == [] then []
    else
      var e := h[|h| - 1];
      var front := h[..|h| - 1];
      if e.CanCall? && e.id == id then Answers(c, front, id) + [Allowed(c, front, id, e.at)] else Answers(c, front, id)
  }

  /** Erasing everything irrelevant leaves every answer for the provider unchanged. */
  lemma {:induction false} NonInterference(c: Config, h: seq<Event>, id: string)
    requires Timed(h)
    ensures Answers(c, Erase(h, id), id) == Answers(c, h, id)
  {
    if h != [] {
      var front := h[..|h| - 1];
      var e := h[|h| - 1];
      TimedPrefix(h);
      NonInterference(c, front, id);
      if Relevant(e, id) {
        var erased := Erase(h, id);
        assert erased[..|erased| - 1] == Erase(front, id) && erased[|erased| - 1] == e;
        if e.CanCall? {
          CanCallMatchesReference(c, front, id, e.at);
          EraseKeepsTime(front, id, e.at);
          CanCallMatchesReference(c, Erase(front, id), id, e.at);
          EraseKeepsReference(c, front, id);
        }
      }
    }
  }

  // ---------------------------------------------------------------------------
  // The class
  // ---------------------------------------------------------------------------

  /** The four methods, each tied to the history of all calls so far. */
  class LlmCircuitBreaker {
    const config: Config
    var states: States
    ghost var history: seq<Event>

    ghost predicate Valid()
      reads this
    {
      Timed(history) && states == Run(config, history)
    }

    constructor (config: Config := DEFAULT_CONFIG)
      ensures Valid() && this.config == config && history == []
    {
      this.config := config;
      states, history := map[], [];
    }

    method PruneFailures(p: Provider, now: int) returns (q: Provider)
      ensures q == Pruned(config, p, now)
    {
      var kept := Prune(p.failures, now - config.windowMs);
      q := p.(failures := kept);
      if q.state == Closed && |q.failures| == 0 {
        q := q.(openedAt := None);
      }
    }

    /** Afterwards the provider is open exactly if some failure, this one included, opened it and nothing ended that. */
    method RecordFailure(id: string, isHealthCheck: bool, now: int)
      requires Valid() && TimedUpTo(history, now)
      modifies this
      ensures Valid() && history == old(history) + [Failure(id, isHealthCheck, now)]
      ensures isHealthCheck ==> states == old(states)
      ensures Lookup(states, id).state == Open <==> exists j :: LastOpening(config, history, id, j)
    {
      ghost var e := Failure(id, isHealthCheck, now);
      Extended(config, history, e);
      history := history + [e];
      Refines(config, history, id, now);
      PhaseIsReadFromEvents(config, history, id);
      if isHealthCheck {
        return;
      }
      var p := Lookup(states, id);
      p := p.(failures := p.failures + [now]);
      p := PruneFailures(p, now);
      if p.state == HalfOpen || |p.failures| >= config.failureThreshold {
        p := p.(state := Open, openedAt := Some(now));
      }
      states := states[id := p];
    }

    /** Afterwards nothing counts against the provider. */
    method RecordSuccess(id: string, ghost now: int)
      requires Valid() && TimedUpTo(history, now)
      modifies this
      ensures Valid() && history == old(history) + [Success(id, now)]
      ensures FailuresSinceSuccess(history, id) == [] && !exists j :: LastOpening(config, history, id, j)
    {
      ghost var e := Success(id, now);
      Extended(config, history, e);
      history := history + [e];
      PhaseIsReadFromEvents(config, history, id);
      states := states[id := Provider(Closed, [], None)];
    }

    /** The call is refused exactly while less than the cooldown has passed since the last opening. */
    method CanCall(id: string, now: int) returns (allowed: bool)
      requires Valid() && TimedUpTo(history, now)
      modifies this
      ensures Valid() && history == old(history) + [Event.CanCall(id, now)]
      ensures !allowed <==>
              exists j :: LastOpening(config, old(history), id, j) && now - old(history)[j].at < config.cooldownMs
    {
      RefusedExactlyDuringCooldown(config, history, id, now);
      Extended(config, history, Event.CanCall(id, now));
      history := history + [Event.CanCall(id, now)];
      var p := PruneFailures(Lookup(states, id), now);
      if p.state == Closed || p.state == HalfOpen {
        states := states[id := p];
        return true;
      }
      if p.openedAt.None? {
        p := p.(openedAt := Some(now));
      }
      if now - p.openedAt.value >= config.cooldownMs {
        states := states[id := p.(state := HalfOpen, openedAt := None)];
        return true;
      }
      states := states[id := p];
      return false;
    }

    /** The count and the cooldown are those the whole history gives. */
    method GetStatus(id: string, now: int) returns (status: Status)
      requires Valid() && TimedUpTo(history, now)
      modifies this
      ensures Valid() && history == old(history) + [Event.GetStatus(id, now)]
      ensures status.failureCount == |Since(FailuresSinceSuccess(old(history), id), now - config.windowMs)|
      ensures status.state == Open <==> exists j :: LastOpening(config, old(history), id, j)
      ensures status.state == HalfOpen <==> OnProbation(config, old(history), id)
      ensures status.state != Open ==> status.cooldownRemainingMs == None
      ensures forall j :: LastOpening(config, old(history), id, j) ==>
                            var remaining := old(history)[j].at + config.cooldownMs - now;
                            status.cooldownRemainingMs == Some(if remaining > 0 then remaining else 0)
    {
      StatusMatchesReference(config, history, id, now);
      PhaseIsReadFromEvents(config, history, id);
      Extended(config, history, Event.GetStatus(id, now));
      history := history + [Event.GetStatus(id, now)];
      var p := PruneFailures(Lookup(states, id), now);
      states := states[id := p];
      status := Status(p.state, |p.failures|, None);
      if p.state == Open && p.openedAt.Some? {
        var remaining := config.cooldownMs - (now - p.openedAt.value);
        status := status.(cooldownRemainingMs := Some(if remaining > 0 then remaining else 0));
      }
    }
  }

  lemma Extended(c: Config, h: seq<Event>, e: Event)
    requires TimedUpTo(h, e.at)
    ensures TimedUpTo(h + [e], e.at) && Run(c, h + [e]) == Step(c, Run(c, h), e)
    ensures FailuresSinceSuccess(h + [e], e.id) == NextFailures(FailuresSinceSuccess(h, e.id), e, e.id)
  {
    assert (h + [e])[..|h|] == h;
  }
}
