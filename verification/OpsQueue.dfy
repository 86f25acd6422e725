/**
 * The ops agent's event queue. `processQueue` is a consumer that takes one event, suspends
 * while the event is routed, and goes on until the queue is empty or the agent is stopped.
 *
 * `consumers` holds the events of all suspended `processQueue` activations, so that "there
 * is at most one consumer" is a theorem and not a choice of representation. `accepted` and
 * `handled` record every event that was let in and every event whose routing has ended.
 */
module OpsQueue {

  datatype Queue<E> = Queue(
    queue: seq<E>,
    processing: bool,
    running: bool,
    consumers: seq<E>,
    startsPending: nat,
    accepted: seq<E>,
    handled: seq<E>)

  function Idle<E>(): Queue<E> {
    Queue([], false, false, [], 0, [], [])
  }

  /** The loop of `processQueue` from its test to the next suspension or to its end. */
  function Resume<E>(s: Queue<E>): Queue<E> {
    if s.queue != [] && s.running then s.(queue := s.queue[1..], consumers := s.consumers + [s.queue[0]])
    else s.(processing := false)
  }

  function ProcessQueue<E>(s: Queue<E>): Queue<E> {
    if s.processing then s else Resume(s.(processing := true))
  }

  function Enqueue<E>(s: Queue<E>, e: E): Queue<E> {
    if !s.running then s
    else
      var pushed := s.(queue := s.queue + [e], accepted := s.accepted + [e]);
      if pushed.processing then pushed else ProcessQueue(pushed)
  }

  /** `start` up to the boot reconciliation it awaits. A second start while running does nothing. */
  function StartBegins<E>(s: Queue<E>): Queue<E> {
    if s.running then s else s.(running := true, startsPending := s.startsPending + 1)
  }

  function StartEnds<E>(s: Queue<E>): Queue<E>
    requires s.startsPending > 0
  {
    ProcessQueue(s.(startsPending := s.startsPending - 1))
  }

  function Stop<E>(s: Queue<E>): Queue<E> {
    s.(running := false)
  }

  /** Routing of a consumer's event returns or throws; the error is logged and the loop goes on. */
  function RouteEnds<E>(s: Queue<E>, k: nat): Queue<E>
    requires k < |s.consumers|
  {
    Resume(s.(consumers := s.consumers[..k] + s.consumers[k + 1..], handled := s.handled + [s.consumers[k]]))
  }

  // ---------------------------------------------------------------------------
  // Every run
  // ---------------------------------------------------------------------------

  datatype Event<E> = EnqueueIt(e: E) | BeginStartIt | EndStartIt | StopIt | EndRouteIt(consumer: nat, threw: bool)

  predicate Possible<E>(s: Queue<E>, e: Event<E>) {
    match e
    case EndStartIt => s.startsPending > 0
    case EndRouteIt(k, _) => k < |s.consumers|
    case _ => true
  }

  function Step<E>(s: Queue<E>, e: Event<E>): Queue<E>
    requires Possible(s, e)
  {
    match e
    case EnqueueIt(x) => Enqueue(s, x)
    case BeginStartIt => StartBegins(s)
    case EndStartIt => StartEnds(s)
    case StopIt => Stop(s)
    case EndRouteIt(k, _) => RouteEnds(s, k)
  }

  predicate ValidFrom<E>(s: Queue<E>, es: seq<Event<E>>)
    decreases es
  {
    es == [] || (Possible(s, es[0]) && ValidFrom(Step(s, es[0]), es[1..]))
  }

  function RunFrom<E>(s: Queue<E>, es: seq<Event<E>>): Queue<E>
    requires ValidFrom(s, es)
    decreases es
  {
    if es == [] then s else RunFrom(Step(s, es[0]), es[1..])
  }

  /** Accepted events are the handled ones, then the one in flight, then the queued ones, in FIFO order. */
  predicate Conserved<E(==)>(s: Queue<E>) {
    s.accepted == s.handled + s.consumers + s.queue
  }

  predicate SingleConsumer<E>(s: Queue<E>) {
    |s.consumers| == if s.processing then 1 else 0
  }

  /** A running agent with work and no start in progress has a consumer. */
  predicate Awake<E>(s: Queue<E>) {
    s.running && s.queue != [] && s.startsPending == 0 ==> s.processing
  }

  predicate Inv<E(==)>(s: Queue<E>) {
    Conserved(s) && SingleConsumer(s) && Awake(s)
  }

  lemma ResumeKeeps<E>(s: Queue<E>)
    requires Conserved(s) && s.consumers == [] && s.processing
    ensures Inv(Resume(s))
  {
    if s.queue != [] && s.running {
      assert s.queue == [s.queue[0]] + s.queue[1..];
    }
  }

  lemma StepKeepsInv<E>(s: Queue<E>, e: Event<E>)
    requires Inv(s) && Possible(s, e)
    ensures Inv(Step(s, e))
  {
    match e
    case EnqueueIt(x) =>
      if s.running {
        var pushed := s.(queue := s.queue + [x], accepted := s.accepted + [x]);
        assert Conserved(pushed);
        if !pushed.processing {
          ResumeKeeps(pushed.(processing := true));
        }
      }
    case BeginStartIt =>
    case EndStartIt =>
      if !s.processing {
        ResumeKeeps(s.(startsPending := s.startsPending - 1, processing := true));
      }
    case StopIt =>
    case EndRouteIt(k, _) =>
      assert s.consumers == [s.consumers[0]];
      ResumeKeeps(s.(consumers := [], handled := s.handled + [s.consumers[k]]));
  }

  lemma {:induction false} RunKeepsInv<E>(s: Queue<E>, es: seq<Event<E>>)
    requires Inv(s) && ValidFrom(s, es)
    ensures Inv(RunFrom(s, es))
    decreases es
  {
    if es != [] {
      StepKeepsInv(s, es[0]);
      RunKeepsInv(Step(s, es[0]), es[1..]);
    }
  }

  /** Conservation, a single consumer and no lost wakeup, over every run with stops, restarts and throwing handlers. */
  lemma QueueInvariant<E>(es: seq<Event<E>>)
    requires ValidFrom(Idle<E>(), es)
    ensures var s := RunFrom(Idle<E>(), es);
            && s.accepted == s.handled + s.consumers + s.queue
            && |s.consumers| <= 1 && (s.processing <==> |s.consumers| == 1)
            && (s.running && s.queue != [] && s.startsPending == 0 ==> |s.consumers| == 1)
  {
    RunKeepsInv(Idle<E>(), es);
  }

  /**
   * No step of a stopped agent takes an event from the queue or starts a route: a route that ends is only removed,
   * and the consumer it belonged to ends with it.
   */
  lemma StoppedTakesNothing<E>(s: Queue<E>, e: Event<E>)
    requires Inv(s) && Possible(s, e) && !s.running
    ensures Step(s, e).queue == s.queue && Step(s, e).accepted == s.accepted
    ensures Step(s, e).consumers == if e.EndRouteIt? then [] else s.consumers
    ensures e.EndRouteIt? ==> !Step(s, e).processing
  {
  }

  /** While the agent runs, the end of a route starts the next one as long as there is one. */
  lemma RunningTakesNext<E>(s: Queue<E>, threw: bool)
    requires Inv(s) && s.running && |s.consumers| == 1
    ensures var s' := Step(s, EndRouteIt(0, threw));
            && s'.handled == s.handled + s.consumers
            && (s.queue != [] ==> s'.consumers == [s.queue[0]] && s'.queue == s.queue[1..])
            && (s.queue == [] ==> s'.consumers == [] && s'.queue == [])
  {
  }

  // ----- nothing accepted is forgotten -----

  function RoutesEnded<E>(es: seq<Event<E>>): nat {
    if es == [] then 0 else (if es[0].EndRouteIt? then 1 else 0) + RoutesEnded(es[1..])
  }

  lemma {:induction false} EachRouteHandlesOne<E>(s: Queue<E>, es: seq<Event<E>>)
    requires ValidFrom(s, es)
    ensures |RunFrom(s, es).handled| == |s.handled| + RoutesEnded(es)
    ensures s.accepted <= RunFrom(s, es).accepted
    decreases es
  {
    if es != [] {
      EachRouteHandlesOne(Step(s, es[0]), es[1..]);
    }
  }

  ghost predicate NeverStops<E>(es: seq<Event<E>>) {
    forall i :: 0 <= i < |es| ==> !es[i].StopIt?
  }

  lemma {:induction false} KeepsRunning<E>(s: Queue<E>, es: seq<Event<E>>)
    requires ValidFrom(s, es) && NeverStops(es) && s.running && s.startsPending == 0
    ensures RunFrom(s, es).running && RunFrom(s, es).startsPending == 0
    decreases es
  {
    if es != [] {
      var next := Step(s, es[0]);
      assert next.running && next.startsPending == 0;
      KeepsRunning(next, es[1..]);
    }
  }

  /**
   * Whatever is enqueued, stopped or restarted meanwhile, once as many routes have ended as events were waiting,
   * all these events have been handled, in the order they were accepted. And if the agent is not stopped it never
   * gets stuck before that: as long as one of them is unhandled, a route is under way.
   */
  lemma EverythingIsHandled<E>(s: Queue<E>, es: seq<Event<E>>)
    requires Inv(s) && ValidFrom(s, es)
    ensures RoutesEnded(es) >= |s.consumers| + |s.queue| ==> s.accepted <= RunFrom(s, es).handled
    ensures s.running && s.startsPending == 0 && NeverStops(es)
            ==> s.accepted <= RunFrom(s, es).handled || |RunFrom(s, es).consumers| == 1
  {
    var t := RunFrom(s, es);
    RunKeepsInv(s, es);
    EachRouteHandlesOne(s, es);
    assert t.handled <= t.accepted;
    if |t.handled| >= |s.accepted| {
      assert s.accepted == t.accepted[..|s.accepted|] == t.handled[..|s.accepted|];
    }
    if s.running && s.startsPending == 0 && NeverStops(es) {
      KeepsRunning(s, es);
    }
  }

  // ---------------------------------------------------------------------------
  // The class
  // ---------------------------------------------------------------------------

  class OpsAgentQueue<E> {
    var queue: seq<E>
    var processing: bool
    var running: bool
    var consumers: seq<E>
    var startsPending: nat
    ghost var accepted: seq<E>
    ghost var handled: seq<E>

    ghost function View(): Queue<E>
      reads this
    {
      Queue(queue, processing, running, consumers, startsPending, accepted, handled)
    }

    constructor ()
      ensures View() == Idle() && Inv(View())
    {
      queue, processing, running, consumers, startsPending := [], false, false, [], 0;
      accepted, handled := [], [];
    }

    /** From the test of the loop on: no consumer is suspended, and afterwards all is accounted for. */
    method ResumeLoop()
      requires Conserved(View()) && consumers == [] && processing
      modifies this
      ensures View() == Resume(old(View())) && Inv(View())
      ensures !running || old(queue) == [] ==> queue == old(queue) && consumers == [] && !processing
      ensures running && old(queue) != [] ==> queue == old(queue)[1..] && consumers == [old(queue)[0]]
    {
      ResumeKeeps(View());
      if |queue| > 0 && running {
        consumers := consumers + [queue[0]];
        queue := queue[1..];
      } else {
        processing := false;
      }
    }

    method ProcessEvents()
      requires Conserved(View()) && SingleConsumer(View())
      modifies this
      ensures View() == ProcessQueue(old(View())) && Inv(View())
    {
      if processing {
        return;
      }
      processing := true;
      ResumeLoop();
    }

    /** A running agent accepts the event and has a consumer afterwards; a stopped one changes nothing. */
    method EnqueueEvent(e: E)
      requires Inv(View())
      modifies this
      ensures View() == Enqueue(old(View()), e) && Inv(View())
      ensures if old(running) then accepted == old(accepted) + [e] && |consumers| == 1 else View() == old(View())
    {
      if !running {
        return;
      }
      queue := queue + [e];
      accepted := accepted + [e];
      assert Conserved(View());
      if !processing {
        ProcessEvents();
      }
    }

    method BeginStart()
      requires Inv(View())
      modifies this
      ensures View() == StartBegins(old(View())) && Inv(View())
      ensures running && accepted == old(accepted) && handled == old(handled)
    {
      if !running {
        running := true;
        startsPending := startsPending + 1;
      }
    }

    /** What was queued while the agent was stopped or starting has a consumer afterwards. */
    method EndStart()
      requires Inv(View()) && startsPending > 0
      modifies this
      ensures View() == StartEnds(old(View())) && Inv(View())
      ensures running && queue != [] ==> |consumers| == 1
    {
      startsPending := startsPending - 1;
      ProcessEvents();
    }

    /** Stopping loses nothing: every accepted event is still handled, in flight or queued. */
    method StopAgent()
      requires Inv(View())
      modifies this
      ensures View() == Stop(old(View())) && Inv(View())
      ensures !running && accepted == old(accepted)
    {
      running := false;
    }

    /** The oldest unhandled event becomes handled, whether its routing returned or threw. */
    method EndRoute(k: nat)
      requires Inv(View()) && k < |consumers|
      modifies this
      ensures View() == RouteEnds(old(View()), k) && Inv(View())
      ensures |old(handled)| < |accepted| && handled == old(handled) + [accepted[|old(handled)|]]
    {
      assert accepted[|handled|] == consumers[0] == consumers[k];
      handled := handled + [consumers[k]];
      consumers := consumers[..k] + consumers[k + 1..];
      ResumeLoop();
    }
  }
}
