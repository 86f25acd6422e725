/**
 * The ops agent's hourly limits on model calls: three per project and twenty overall. The
 * lists of call times are pruned as they are read, and keep a time while `t > now - 3_600_000`.
 */
module RateLimit {
  import opened TimeWindow

  const PROJECT_LIMIT: nat := 3
  const GLOBAL_LIMIT: nat := 20

  datatype Calls = Calls(perProject: map<string, seq<int>>, overall: seq<int>)

  const NO_CALLS := Calls(map[], [])

  function OfProject(s: Calls, p: string): seq<int> {
    if p in s.perProject then s.perProject[p] else []
  }

  /** The question prunes the project's list and leaves the overall list alone. */
  function IsLimited(s: Calls, p: string, now: int): (Calls, bool) {
    var mine := Since(OfProject(s, p), HourStart(now));
    (s.(perProject := s.perProject[p := mine]),
     |mine| >= PROJECT_LIMIT || |Since(s.overall, HourStart(now))| >= GLOBAL_LIMIT)
  }

  function Record(s: Calls, p: string, now: int): Calls {
    Calls(s.perProject[p := Since(OfProject(s, p), HourStart(now)) + [now]],
          Since(s.overall, HourStart(now)) + [now])
  }

  // ---------------------------------------------------------------------------
  // Runs of the ops agent
  // ---------------------------------------------------------------------------

  /** `Attempt` is a call guarded by its check in one step; `RecordOnly` records without asking. */
  datatype Event =
    | Question(project: string, checkedAt: int)
    | Attempt(project: string, checkedAt: int, recordedAt: int)
    | RecordOnly(project: string, recordedAt: int)

  function Begins(e: Event): int {
    if e.RecordOnly? then e.recordedAt else e.checkedAt
  }

  function Ends(e: Event): int {
    if e.Question? then e.checkedAt else e.recordedAt
  }

  function Step(s: Calls, e: Event): Calls {
    match e
    case Question(p, at) => IsLimited(s, p, at).0
    case Attempt(p, checkedAt, recordedAt) =>
      var (s', limited) := IsLimited(s, p, checkedAt);
      if limited then s' else Record(s', p, recordedAt)
    case RecordOnly(p, at) => Record(s, p, at)
  }

  function Run(es: seq<Event>): Calls {
    if es == [] then NO_CALLS else Step(Run(es[..|es| - 1]), es[|es| - 1])
  }

  ghost predicate Timed(es: seq<Event>, upTo: int)
    decreases es
  {
    es == [] || (Begins(es[|es| - 1]) <= Ends(es[|es| - 1]) <= upTo && Timed(es[..|es| - 1], Begins(es[|es| - 1])))
  }

  datatype Call = Call(project: string, at: int)

  /** Every call ever made, never pruned. */
  function History(es: seq<Event>): seq<Call> {
    if es == [] then []
    else
      var front := es[..|es| - 1];
      var e := es[|es| - 1];
      match e
      case Question(_, _) => History(front)
      case Attempt(p, checkedAt, recordedAt) =>
        if IsLimited(Run(front), p, checkedAt).1 then History(front) else History(front) + [Call(p, recordedAt)]
      case RecordOnly(p, at) => History(front) + [Call(p, at)]
  }

  function Times(calls: seq<Call>): seq<int> {
    if calls == [] then [] else Times(calls[..|calls| - 1]) + [calls[|calls| - 1].at]
  }

  function TimesOf(calls: seq<Call>, p: string): seq<int> {
    if calls == [] then []
    else
      var front := TimesOf(calls[..|calls| - 1], p);
      var last := calls[|calls| - 1];
      if last.project == p then front + [last.at] else front
  }

  lemma TimesAppend(calls: seq<Call>, call: Call, p: string)
    ensures Times(calls + [call]) == Times(calls) + [call.at]
    ensures TimesOf(calls + [call], p) == if call.project == p then TimesOf(calls, p) + [call.at] else TimesOf(calls, p)
  {
    assert (calls + [call])[..|calls|] == calls;
  }

  ghost predicate Faithful(s: Calls, h: seq<Call>, p: string, now: int) {
    && Shows(OfProject(s, p), TimesOf(h, p), HourStart(now))
    && Shows(s.overall, Times(h), HourStart(now))
  }

  lemma QuestionStaysFaithful(s: Calls, h: seq<Call>, q: string, p: string, now: int, later: int)
    requires Faithful(s, h, p, now) && now <= later
    ensures Faithful(IsLimited(s, q, later).0, h, p, later)
  {
    if q == p {
      PruneIsExact(OfProject(s, p), TimesOf(h, p), HourStart(now), HourStart(later));
    }
  }

  lemma RecordStaysFaithful(s: Calls, h: seq<Call>, q: string, p: string, now: int, later: int)
    requires Faithful(s, h, p, now) && now <= later
    ensures Faithful(Record(s, q, later), h + [Call(q, later)], p, later)
  {
    TimesAppend(h, Call(q, later), p);
    KeptPlusOne(s.overall, Times(h), later, HourStart(now), HourStart(later));
    if q == p {
      KeptPlusOne(OfProject(s, p), TimesOf(h, p), later, HourStart(now), HourStart(later));
    }
  }

  lemma {:induction false} ListsStayFaithful(es: seq<Event>, p: string, upTo: int)
    requires Timed(es, upTo)
    ensures Faithful(Run(es), History(es), p, upTo)
  {
    if es == [] {
      assert [] == Since([], HourStart(upTo));
    } else {
      var front := es[..|es| - 1];
      var e := es[|es| - 1];
      var s := Run(front);
      var h := History(front);
      ListsStayFaithful(front, p, Begins(e));
      match e
      case Question(q, at) => QuestionStaysFaithful(s, h, q, p, at, at);
      case Attempt(q, checkedAt, recordedAt) =>
        QuestionStaysFaithful(s, h, q, p, checkedAt, checkedAt);
        RecordStaysFaithful(IsLimited(s, q, checkedAt).0, h, q, p, checkedAt, recordedAt);
      case RecordOnly(q, at) => RecordStaysFaithful(s, h, q, p, at, at);
    }
  }

  /** Faithful lists answer as the history they stand for. */
  lemma FaithfulAnswer(s: Calls, h: seq<Call>, p: string, now: int, later: int)
    requires Faithful(s, h, p, now) && now <= later
    ensures IsLimited(s, p, later).1 <==>
            || |Since(TimesOf(h, p), HourStart(later))| >= PROJECT_LIMIT
            || |Since(Times(h), HourStart(later))| >= GLOBAL_LIMIT
  {
    PruneIsExact(OfProject(s, p), TimesOf(h, p), HourStart(now), HourStart(later));
    PruneIsExact(s.overall, Times(h), HourStart(now), HourStart(later));
  }

  /** After any mix of questions and recorded calls the pruned lists answer as the full history would. */
  lemma {:induction false} AnswersAsFullHistory(es: seq<Event>, p: string, now: int)
    requires Timed(es, now)
    ensures IsLimited(Run(es), p, now).1 <==>
            || |Since(TimesOf(History(es), p), HourStart(now))| >= PROJECT_LIMIT
            || |Since(Times(History(es)), HourStart(now))| >= GLOBAL_LIMIT
  {
    ListsStayFaithful(es, p, now);
    FaithfulAnswer(Run(es), History(es), p, now, now);
  }

  /** A guarded call is made, and made once, exactly when fewer than both limits were made in the last hour. */
  lemma AttemptIsMadeExactlyBelowLimits(es: seq<Event>, p: string, checkedAt: int, recordedAt: int)
    requires Timed(es, checkedAt)
    ensures var below := && |Since(TimesOf(History(es), p), HourStart(checkedAt))| < PROJECT_LIMIT
                         && |Since(Times(History(es)), HourStart(checkedAt))| < GLOBAL_LIMIT;
            History(es + [Attempt(p, checkedAt, recordedAt)])
            == if below then History(es) + [Call(p, recordedAt)] else History(es)
  {
    assert (es + [Attempt(p, checkedAt, recordedAt)])[..|es|] == es;
    AnswersAsFullHistory(es, p, checkedAt);
  }

  // ----- the bound on every one-hour window -----

  ghost predicate Guarded(es: seq<Event>) {
    forall i :: 0 <= i < |es| ==> !es[i].RecordOnly?
  }

  ghost predicate WindowsBounded(h: seq<Call>, p: string) {
    && (forall start :: InHour(TimesOf(h, p), start) <= PROJECT_LIMIT)
    && (forall start :: InHour(Times(h), start) <= GLOBAL_LIMIT)
  }

  /**
   * If every recorded call follows its own negative answer in the same step, every window of one hour holds
   * at most three calls per project and twenty overall.
   */
  lemma {:induction false} EveryHourIsBounded(es: seq<Event>, p: string, upTo: int)
    requires Timed(es, upTo) && Guarded(es)
    ensures WindowsBounded(History(es), p)
  {
    if es != [] {
      var front := es[..|es| - 1];
      var e := es[|es| - 1];
      EveryHourIsBounded(front, p, Begins(e));
      if e.Attempt? && !IsLimited(Run(front), e.project, e.checkedAt).1 {
        var h := History(front);
        AnswersAsFullHistory(front, e.project, e.checkedAt);
        TimesAppend(h, Call(e.project, e.recordedAt), p);
        AdmittedStaysBounded(Times(h), e.checkedAt, e.recordedAt, GLOBAL_LIMIT);
        if e.project == p {
          AdmittedStaysBounded(TimesOf(h, p), e.checkedAt, e.recordedAt, PROJECT_LIMIT);
        }
      }
    }
  }

  // ---------------------------------------------------------------------------
  // The class
  // ---------------------------------------------------------------------------

  /** `history` is every call recorded, and `lastSeen` the last time the clock was read. */
  class OpsCallLimiter {
    var llmCallsPerProject: map<string, seq<int>>
    var llmCallsGlobal: seq<int>
    ghost var history: seq<Call>
    ghost var lastSeen: int

    ghost function View(): Calls
      reads this
    {
      Calls(llmCallsPerProject, llmCallsGlobal)
    }

    ghost predicate Valid()
      reads this
    {
      forall p :: Faithful(View(), history, p, lastSeen)
    }

    constructor ()
      ensures Valid() && history == [] && lastSeen == 0
    {
      llmCallsPerProject, llmCallsGlobal, history, lastSeen := map[], [], [], 0;
      new;
      assert [] == Since([], HourStart(0));
    }

    /** The answer is the one the full history gives, whatever has been pruned. */
    method IsLlmRateLimited(projectId: string, now: int) returns (limited: bool)
      requires Valid() && lastSeen <= now
      modifies this
      ensures Valid() && history == old(history) && lastSeen == now
      ensures limited <==> || |Since(TimesOf(history, projectId), HourStart(now))| >= PROJECT_LIMIT
                           || |Since(Times(history), HourStart(now))| >= GLOBAL_LIMIT
    {
      ghost var before := View();
      var hourAgo := now - HOUR_MS;
      var existing := if projectId in llmCallsPerProject then llmCallsPerProject[projectId] else [];
      var projectCalls := Prune(existing, hourAgo + 1);
      var globalCalls := Prune(llmCallsGlobal, hourAgo + 1);
      llmCallsPerProject := llmCallsPerProject[projectId := projectCalls];
      limited := |projectCalls| >= PROJECT_LIMIT || |globalCalls| >= GLOBAL_LIMIT;
      assert View() == IsLimited(before, projectId, now).0;
      FaithfulAnswer(before, history, projectId, lastSeen, now);
      forall p
        ensures Faithful(View(), history, p, now)
      {
        QuestionStaysFaithful(before, history, projectId, p, lastSeen, now);
      }
      lastSeen := now;
    }

    method RecordLlmCall(projectId: string, now: int)
      requires Valid() && lastSeen <= now
      modifies this
      ensures Valid() && history == old(history) + [Call(projectId, now)] && lastSeen == now
    {
      ghost var before := View();
      var hourAgo := now - HOUR_MS;
      var existing := if projectId in llmCallsPerProject then llmCallsPerProject[projectId] else [];
      var kept := Prune(existing, hourAgo + 1);
      llmCallsPerProject := llmCallsPerProject[projectId := kept + [now]];
      var cleanGlobal := Prune(llmCallsGlobal, hourAgo + 1);
      llmCallsGlobal := cleanGlobal + [now];
      assert View() == Record(before, projectId, now);
      forall p
        ensures Faithful(View(), history + [Call(projectId, now)], p, now)
      {
        RecordStaysFaithful(before, history, projectId, p, lastSeen, now);
      }
      history := history + [Call(projectId, now)];
      lastSeen := now;
    }
  }
}
