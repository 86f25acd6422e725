/**
 * The recovery coordinator's hourly budget of model calls. A health handler asks whether the
 * budget is exceeded, suspends, and records its call when it goes on; an `ai:invoked` event
 * records a call that nobody asked about. So the budget is a protocol of separate steps, and
 * whether it bounds the calls of an hour depends on how the steps interleave.
 */
module CallBudget {
  import opened TimeWindow

  /** `stored` is the pruned list, `history` every call ever recorded, `clock` the last time that was read. */
  datatype Book = Book(stored: seq<int>, history: seq<int>, clock: int)

  function Looked(b: Book, now: int): Book {
    b.(stored := Since(b.stored, HourStart(now)), clock := now)
  }

  /** The clock is read once for the cutoff and once more for the new entry. */
  function Recorded(b: Book, now: int, stampedAt: int): Book {
    Book(Since(b.stored, HourStart(now)) + [stampedAt], b.history + [stampedAt], stampedAt)
  }

  /** The calls of the hour that ends at `now`, counted in the full history. */
  function Seen(b: Book, now: int): nat {
    |Since(b.history, HourStart(now))|
  }

  ghost predicate Faithful(b: Book) {
    && Shows(b.stored, b.history, HourStart(b.clock))
    && forall i :: 0 <= i < |b.history| ==> b.history[i] <= b.clock
  }

  lemma LookedIsFaithful(b: Book, now: int)
    requires Faithful(b) && b.clock <= now
    ensures Faithful(Looked(b, now)) && |Looked(b, now).stored| == Seen(b, now)
  {
    PruneIsExact(b.stored, b.history, HourStart(b.clock), HourStart(now));
  }

  lemma RecordedIsFaithful(b: Book, now: int, stampedAt: int)
    requires Faithful(b) && b.clock <= now <= stampedAt
    ensures Faithful(Recorded(b, now, stampedAt))
    ensures Seen(Recorded(b, now, stampedAt), stampedAt) == Seen(b, stampedAt) + 1
  {
    KeptPlusOne(b.stored, b.history, stampedAt, HourStart(b.clock), HourStart(now));
    SinceAppend(b.history, stampedAt, HourStart(stampedAt));
  }

  class LlmBudget {
    const maxLlmCallsPerHour: nat
    var llmCallTimestamps: seq<int>
    ghost var history: seq<int>
    ghost var clock: int

    ghost function View(): Book
      reads this
    {
      Book(llmCallTimestamps, history, clock)
    }

    constructor (maxLlmCallsPerHour: nat := 10)
      ensures Faithful(View()) && history == [] && clock == 0 && this.maxLlmCallsPerHour == maxLlmCallsPerHour
    {
      this.maxLlmCallsPerHour := maxLlmCallsPerHour;
      llmCallTimestamps, history, clock := [], [], 0;
      new;
      assert [] == Since([], HourStart(0));
    }

    method RecordLlmCall(now: int, stampedAt: int)
      requires Faithful(View()) && clock <= now <= stampedAt
      modifies this
      ensures Faithful(View()) && View() == Recorded(old(View()), now, stampedAt)
      ensures history == old(history) + [stampedAt]
    {
      RecordedIsFaithful(View(), now, stampedAt);
      var kept := Prune(llmCallTimestamps, now - HOUR_MS + 1);
      llmCallTimestamps := kept + [stampedAt];
      history := history + [stampedAt];
      clock := stampedAt;
    }

    /** The budget is exceeded exactly when the full history holds the maximum within the last hour. */
    method IsGlobalBudgetExceeded(now: int) returns (exceeded: bool)
      requires Faithful(View()) && clock <= now
      modifies this
      ensures Faithful(View()) && View() == Looked(old(View()), now)
      ensures exceeded <==> Seen(View(), now) >= maxLlmCallsPerHour
    {
      LookedIsFaithful(View(), now);
      llmCallTimestamps := Prune(llmCallTimestamps, now - HOUR_MS + 1);
      clock := now;
      exceeded := |llmCallTimestamps| >= maxLlmCallsPerHour;
    }
  }

  // ---------------------------------------------------------------------------
  // The protocol
  // ---------------------------------------------------------------------------

  /** `granted` holds the health handlers that were told there is budget left and have not recorded yet. */
  datatype State = State(book: Book, granted: set<nat>)

  const INITIAL := State(Book([], [], 0), {})

  /** `Peek` is the question of a handler that will not record: container, deploy and continue checks. */
  datatype Event =
    | Ask(handler: nat, now: int)
    | Record(handler: nat, now: int, stampedAt: int)
    | Invoked(now: int, stampedAt: int)
    | Peek(now: int)

  predicate Possible(s: State, e: Event) {
    && s.book.clock <= e.now
    && match e
       case Ask(handler, _) => handler !in s.granted
       case Record(handler, now, stampedAt) => handler in s.granted && now <= stampedAt
       case Invoked(now, stampedAt) => now <= stampedAt
       case Peek(_) => true
  }

  function Step(max: nat, s: State, e: Event): State {
    match e
    case Ask(handler, now) =>
      var book := Looked(s.book, now);
      State(book, if |book.stored| < max then s.granted + {handler} else s.granted)
    case Record(handler, now, stampedAt) => State(Recorded(s.book, now, stampedAt), s.granted - {handler})
    case Invoked(now, stampedAt) => s.(book := Recorded(s.book, now, stampedAt))
    case Peek(now) => s.(book := Looked(s.book, now))
  }

  predicate ValidFrom(max: nat, s: State, es: seq<Event>)
    decreases es
  {
    es == [] || (Possible(s, es[0]) && ValidFrom(max, Step(max, s, es[0]), es[1..]))
  }

  function RunFrom(max: nat, s: State, es: seq<Event>): State
    requires ValidFrom(max, s, es)
    decreases es
  {
    if es == [] then s else RunFrom(max, Step(max, s, es[0]), es[1..])
  }

  /** No hour, wherever it starts, holds more calls than the budget. */
  ghost predicate Bounded(max: nat, s: State) {
    forall start :: InHour(s.book.history, start) <= max
  }

  /** The event promises a call of this hour: a granted question, or a call that is recorded unasked. */
  predicate Claims(max: nat, s: State, e: Event) {
    e.Invoked? || (e.Ask? && Step(max, s, e).granted != s.granted)
  }

  function ClaimedAt(e: Event): int {
    if e.Invoked? then e.stampedAt else e.now
  }

  /** The calls already made in the hour, together with the calls already granted, leave room for one more. */
  predicate HasRoom(max: nat, s: State, now: int) {
    Seen(s.book, now) + |s.granted| < max
  }

  predicate RoomFor(max: nat, s: State, e: Event) {
    Claims(max, s, e) ==> HasRoom(max, s, ClaimedAt(e))
  }

  predicate DisciplinedFrom(max: nat, s: State, es: seq<Event>)
    requires ValidFrom(max, s, es)
    decreases es
  {
    es == [] || (RoomFor(max, s, es[0]) && DisciplinedFrom(max, Step(max, s, es[0]), es[1..]))
  }

  ghost predicate Inv(max: nat, s: State) {
    Faithful(s.book) && Bounded(max, s) && Seen(s.book, s.book.clock) + |s.granted| <= max
  }

  lemma StepIsFaithful(max: nat, s: State, e: Event)
    requires Faithful(s.book) && Possible(s, e)
    ensures Faithful(Step(max, s, e).book)
  {
    LookedIsFaithful(s.book, e.now);
    if e.Record? || e.Invoked? {
      RecordedIsFaithful(s.book, e.now, e.stampedAt);
    }
  }

  /** Asking records nothing, and every step moves the clock to the last time it read. */
  lemma StepReadsTheClock(max: nat, s: State, e: Event)
    requires Possible(s, e)
    ensures Step(max, s, e).book.clock == if e.Record? || e.Invoked? then e.stampedAt else e.now
    ensures Step(max, s, e).book.history
         == if e.Record? || e.Invoked? then s.book.history + [e.stampedAt] else s.book.history
  {
  }

  lemma StepKeepsInv(max: nat, s: State, e: Event)
    requires Inv(max, s) && Possible(s, e) && RoomFor(max, s, e)
    ensures Inv(max, Step(max, s, e))
  {
    StepIsFaithful(max, s, e);
    match e
    case Ask(_, now) => SinceShrinks(s.book.history, HourStart(s.book.clock), HourStart(now));
    case Peek(now) => SinceShrinks(s.book.history, HourStart(s.book.clock), HourStart(now));
    case Record(handler, now, stampedAt) =>
      SinceShrinks(s.book.history, HourStart(s.book.clock), HourStart(stampedAt));
      RecordedIsFaithful(s.book, now, stampedAt);
      assert s.granted == (s.granted - {handler}) + {handler};
      AdmittedStaysBounded(s.book.history, s.book.clock, stampedAt, max);
    case Invoked(now, stampedAt) =>
      RecordedIsFaithful(s.book, now, stampedAt);
      AdmittedStaysBounded(s.book.history, stampedAt, stampedAt, max);
  }

  lemma {:induction false} RunKeepsInv(max: nat, s: State, es: seq<Event>)
    requires Inv(max, s) && ValidFrom(max, s, es) && DisciplinedFrom(max, s, es)
    ensures Inv(max, RunFrom(max, s, es))
    decreases es
  {
    if es != [] {
      StepKeepsInv(max, s, es[0]);
      RunKeepsInv(max, Step(max, s, es[0]), es[1..]);
    }
  }

  lemma InitialInv(max: nat)
    ensures Inv(max, INITIAL)
  {
    assert [] == Since([], HourStart(0));
  }

  /** If every claim is made with room for all claims before it, the budget bounds every hour of every run. */
  lemma BudgetBoundsEveryHour(max: nat, es: seq<Event>)
    requires ValidFrom(max, INITIAL, es) && DisciplinedFrom(max, INITIAL, es)
    ensures Bounded(max, RunFrom(max, INITIAL, es))
  {
    InitialInv(max);
    RunKeepsInv(max, INITIAL, es);
  }

  // ----- where it fails -----

  /** Every granted handler records at once; all these calls fall into the hour that ends now. */
  lemma {:induction false} Drain(max: nat, s: State) returns (rest: seq<Event>)
    requires Faithful(s.book)
    ensures ValidFrom(max, s, rest) && DisciplinedFrom(max, s, rest)
    ensures forall i :: 0 <= i < |rest| ==> rest[i].Record?
    ensures var start := s.book.clock - HOUR_MS;
            InHour(RunFrom(max, s, rest).book.history, start) == InHour(s.book.history, start) + |s.granted|
    decreases |s.granted|
  {
    if s.granted == {} {
      rest := [];
    } else {
      var handler :| handler in s.granted;
      var now := s.book.clock;
      var e := Record(handler, now, now);
      var s' := Step(max, s, e);
      assert s.granted == s'.granted + {handler};
      StepIsFaithful(max, s, e);
      var more := Drain(max, s');
      InHourAppend(s.book.history, now, now - HOUR_MS);
      rest := [e] + more;
      assert rest[1..] == more;
    }
  }

  lemma RoomIsSafe(max: nat, s: State, e: Event, rest: seq<Event>)
    requires Inv(max, s) && Possible(s, e) && RoomFor(max, s, e)
    requires var s' := Step(max, s, e); ValidFrom(max, s', rest) && DisciplinedFrom(max, s', rest)
    ensures Bounded(max, RunFrom(max, Step(max, s, e), rest))
  {
    StepKeepsInv(max, s, e);
    RunKeepsInv(max, Step(max, s, e), rest);
  }

  /** A claim without room brings the calls of the hour and the outstanding grants above the budget. */
  lemma {:induction false} ClaimWithoutRoom(max: nat, s: State, e: Event)
    requires Faithful(s.book) && Possible(s, e) && Claims(max, s, e) && !HasRoom(max, s, ClaimedAt(e))
    ensures var s' := Step(max, s, e); Faithful(s'.book) && Seen(s'.book, s'.book.clock) + |s'.granted| > max
  {
    StepIsFaithful(max, s, e);
    if e.Invoked? {
      RecordedIsFaithful(s.book, e.now, e.stampedAt);
    }
  }

  lemma TooManyOvershoot(max: nat, s: State) returns (rest: seq<Event>)
    requires Faithful(s.book) && Seen(s.book, s.book.clock) + |s.granted| > max
    ensures ValidFrom(max, s, rest) && DisciplinedFrom(max, s, rest) && !Bounded(max, RunFrom(max, s, rest))
  {
    rest := Drain(max, s);
    InHourIsSince(s.book.history, s.book.clock);
    assert InHour(RunFrom(max, s, rest).book.history, s.book.clock - HOUR_MS) > max;
  }

  /**
   * The exact condition. In a state that a disciplined run reached, a claim keeps every disciplined continuation
   * within the budget if and only if the calls of the hour and the outstanding grants together are below it.
   * The source checks only the first of the two, and for `ai:invoked` neither.
   */
  lemma SafeExactlyWhenRoomForAll(max: nat, es: seq<Event>, e: Event)
    requires ValidFrom(max, INITIAL, es) && DisciplinedFrom(max, INITIAL, es)
    requires var s := RunFrom(max, INITIAL, es); Possible(s, e) && Claims(max, s, e)
    ensures var s := RunFrom(max, INITIAL, es);
            var s' := Step(max, s, e);
            HasRoom(max, s, ClaimedAt(e)) <==>
            forall rest :: ValidFrom(max, s', rest) && DisciplinedFrom(max, s', rest)
                           ==> Bounded(max, RunFrom(max, s', rest))
  {
    InitialInv(max);
    RunKeepsInv(max, INITIAL, es);
    var s := RunFrom(max, INITIAL, es);
    var s' := Step(max, s, e);
    if HasRoom(max, s, ClaimedAt(e)) {
      forall rest | ValidFrom(max, s', rest) && DisciplinedFrom(max, s', rest)
        ensures Bounded(max, RunFrom(max, s', rest))
      {
        RoomIsSafe(max, s, e, rest);
      }
    } else {
      ClaimWithoutRoom(max, s, e);
      var rest := TooManyOvershoot(max, s');
    }
  }

  /** From a state with budget left, `n` further handlers can all be granted before any of them records. */
  lemma {:induction false} GrantAndDrain(max: nat, s: State, next: nat, n: nat) returns (es: seq<Event>)
    requires Faithful(s.book) && Seen(s.book, s.book.clock) < max
    requires forall g :: g in s.granted ==> g < next
    ensures ValidFrom(max, s, es) && forall i :: 0 <= i < |es| ==> es[i].Ask? || es[i].Record?
    ensures var start := s.book.clock - HOUR_MS;
            InHour(RunFrom(max, s, es).book.history, start) == InHour(s.book.history, start) + |s.granted| + n
    decreases n
  {
    if n == 0 {
      es := Drain(max, s);
    } else {
      var e := Ask(next, s.book.clock);
      var s' := Step(max, s, e);
      LookedIsFaithful(s.book, s.book.clock);
      assert s'.granted == s.granted + {next};
      var more := GrantAndDrain(max, s', next + 1, n - 1);
      es := [e] + more;
      assert es[1..] == more;
    }
  }

  /** With any positive budget, handlers that all ask first can make any number of calls within one hour. */
  lemma BudgetCanBeOvershot(max: nat, n: nat) returns (es: seq<Event>)
    requires max >= 1
    ensures ValidFrom(max, INITIAL, es) && forall i :: 0 <= i < |es| ==> es[i].Ask? || es[i].Record?
    ensures InHour(RunFrom(max, INITIAL, es).book.history, -HOUR_MS) == n
  {
    InitialInv(max);
    es := GrantAndDrain(max, INITIAL, 0, n);
  }

  /** So can calls reported by `ai:invoked`, whatever the budget. */
  lemma {:induction false} InvokedIgnoresTheBudget(max: nat, s: State, n: nat) returns (es: seq<Event>)
    ensures ValidFrom(max, s, es) && forall i :: 0 <= i < |es| ==> es[i].Invoked?
    ensures var start := s.book.clock - HOUR_MS;
            InHour(RunFrom(max, s, es).book.history, start) == InHour(s.book.history, start) + n
    decreases n
  {
    if n == 0 {
      es := [];
    } else {
      var now := s.book.clock;
      var e := Invoked(now, now);
      var s' := Step(max, s, e);
      assert s'.book.history == s.book.history + [now] && s'.book.clock == now;
      InHourAppend(s.book.history, now, now - HOUR_MS);
      var more := InvokedIgnoresTheBudget(max, s', n - 1);
      es := [e] + more;
      assert es[1..] == more;
    }
  }
}
