/**
 * The debounced postmortem timers: a recovery success arms a timer for its project,
 * replacing the one before; a later failure event or the disposal of the automation
 * cancels it; when it fires, a postmortem is considered.
 */
module Postmortem {
  import opened Prelude

  const POSTMORTEM_STABILITY_WINDOW_MS: int := 5 * 60 * 1000

  datatype Timeout = Timeout(project: string, due: int)

  /** `armed` is the runtime's table of pending timeouts; `subscribed` is false once disposed. */
  datatype State = State(timers: map<string, nat>, armed: map<nat, Timeout>, next: nat, subscribed: bool)

  const INITIAL := State(map[], map[], 0, true)

  function CancelTimer(s: State, p: string): State {
    if p in s.timers then s.(armed := s.armed - {s.timers[p]}, timers := s.timers - {p}) else s
  }

  function OnSuccess(s: State, p: string, now: int, delayMs: int): State {
    if !s.subscribed then s
    else
      var c := CancelTimer(s, p);
      c.(armed := c.armed[c.next := Timeout(p, now + delayMs)], timers := c.timers[p := c.next], next := c.next + 1)
  }

  function OnCancel(s: State, p: string): State {
    if s.subscribed then CancelTimer(s, p) else s
  }

  function Dispose(s: State): State {
    s.(subscribed := false, armed := s.armed - s.timers.Values, timers := map[])
  }

  /** The callback runs `postmortemTimers.delete` before its first suspension. */
  function Fire(s: State, handle: nat): State
    requires handle in s.armed
  {
    s.(armed := s.armed - {handle}, timers := s.timers - {s.armed[handle].project})
  }

  // ---------------------------------------------------------------------------
  // Every run, against the event history
  // ---------------------------------------------------------------------------

  datatype Event =
    | Success(project: string, at: int)
    | Cancel(project: string, at: int)  // recovery:failed, recovery:exhausted or deploy:failed
    | Fires(project: string, at: int, handle: nat)
    | Disposed(at: int)

  predicate Possible(s: State, e: Event) {
    e.Fires? ==> e.handle in s.armed && s.armed[e.handle].project == e.project && s.armed[e.handle].due <= e.at
  }

  function Step(s: State, e: Event, delayMs: int): State
    requires Possible(s, e)
  {
    match e
    case Success(p, at) => OnSuccess(s, p, at, delayMs)
    case Cancel(p, _) => OnCancel(s, p)
    case Fires(_, _, handle) => Fire(s, handle)
    case Disposed(_) => Dispose(s)
  }

  /** The state after a history, if every timer in it fired when it could. */
  function Run(h: seq<Event>, delayMs: int): Option<State> {
    if h == [] then Some(INITIAL)
    else
      var before := Run(h[..|h| - 1], delayMs);
      var e := h[|h| - 1];
      if before.None? || !Possible(before.value, e) then None else Some(Step(before.value, e, delayMs))
  }

  predicate Touches(e: Event, p: string) {
    e.Disposed? || e.project == p
  }

  ghost predicate NoDisposal(h: seq<Event>) {
    forall i :: 0 <= i < |h| ==> !h[i].Disposed?
  }

  /** Index `j` is a success of `p` with no later success, cancel, firing or disposal concerning `p`. */
  ghost predicate Quiet(h: seq<Event>, p: string, j: int) {
    && 0 <= j < |h| && h[j].Success? && h[j].project == p
    && (forall i :: j < i < |h| ==> !Touches(h[i], p))
    && NoDisposal(h)
  }

  predicate TimerFor(s: State, p: string) {
    p in s.timers && s.timers[p] in s.armed && s.armed[s.timers[p]].project == p
  }

  predicate Recorded(s: State, handle: nat) {
    && handle in s.armed && handle < s.next
    && s.armed[handle].project in s.timers && s.timers[s.armed[handle].project] == handle
  }

  /** Known timers and armed timers are the same, so a project has at most one. */
  ghost predicate Paired(s: State) {
    && (forall p :: p in s.timers ==> TimerFor(s, p))
    && (forall handle :: handle in s.armed ==> Recorded(s, handle))
  }

  /** The project's timer is armed for `delayMs` after its quiet success, and exists only if there is one. */
  ghost predicate Matches(s: State, h: seq<Event>, p: string, delayMs: int) {
    && (p in s.timers ==> TimerFor(s, p)
                          && exists j :: Quiet(h, p, j) && s.armed[s.timers[p]].due == h[j].at + delayMs)
    && ((exists j :: Quiet(h, p, j)) ==> p in s.timers)
  }

  lemma CancelKeepsPaired(s: State, p: string)
    requires Paired(s)
    ensures Paired(CancelTimer(s, p))
  {
    var c := CancelTimer(s, p);
    if p in s.timers {
      assert TimerFor(s, p);
      forall q | q in c.timers
        ensures TimerFor(c, q)
      {
        assert TimerFor(s, q);
      }
      forall handle | handle in c.armed
        ensures Recorded(c, handle)
      {
        assert Recorded(s, handle);
      }
    }
  }

  lemma ArmKeepsPaired(c: State, p: string, due: int)
    requires Paired(c) && p !in c.timers
    ensures Paired(c.(armed := c.armed[c.next := Timeout(p, due)], timers := c.timers[p := c.next], next := c.next + 1))
  {
    var r := c.(armed := c.armed[c.next := Timeout(p, due)], timers := c.timers[p := c.next], next := c.next + 1);
    forall q | q in r.timers
      ensures TimerFor(r, q)
    {
      if q != p {
        assert TimerFor(c, q) && Recorded(c, c.timers[q]);
      }
    }
    forall handle | handle in r.armed
      ensures Recorded(r, handle)
    {
      if handle != c.next {
        assert Recorded(c, handle);
      }
    }
  }

  lemma StepKeepsPaired(s: State, e: Event, delayMs: int)
    requires Paired(s) && Possible(s, e)
    ensures Paired(Step(s, e, delayMs))
  {
    match e
    case Success(p, at) =>
      CancelKeepsPaired(s, p);
      if s.subscribed {
        ArmKeepsPaired(CancelTimer(s, p), p, at + delayMs);
      }
    case Cancel(p, _) => CancelKeepsPaired(s, p);
    case Fires(p, _, handle) =>
      assert Recorded(s, handle);
      assert Fire(s, handle) == CancelTimer(s, p);
      CancelKeepsPaired(s, p);
    case Disposed(_) =>
      forall handle | handle in s.armed
        ensures handle in s.timers.Values
      {
        assert Recorded(s, handle);
      }
  }

  lemma {:induction false} RunKeepsPaired(h: seq<Event>, delayMs: int)
    requires Run(h, delayMs).Some?
    ensures Paired(Run(h, delayMs).value)
    ensures Run(h, delayMs).value.subscribed <==> NoDisposal(h)
  {
    if h != [] {
      var front := h[..|h| - 1];
      RunKeepsPaired(front, delayMs);
      StepKeepsPaired(Run(front, delayMs).value, h[|h| - 1], delayMs);
      if h[|h| - 1].Disposed? {
        assert !NoDisposal(h);
      } else if NoDisposal(front) {
        assert NoDisposal(h);
      } else {
        var i :| 0 <= i < |front| && front[i].Disposed?;
        assert h[i].Disposed?;
      }
    }
  }

  /** An event that does not concern a project leaves its quiet success where it was. */
  lemma QuietExtends(h: seq<Event>, p: string, j: int)
    requires h != [] && !Touches(h[|h| - 1], p)
    ensures Quiet(h, p, j) <==> Quiet(h[..|h| - 1], p, j)
  {
    var front := h[..|h| - 1];
    if Quiet(front, p, j) {
      assert forall i :: 0 <= i < |front| ==> h[i] == front[i];
    }
    if Quiet(h, p, j) {
      assert j != |h| - 1;
      assert forall i :: 0 <= i < |front| ==> front[i] == h[i];
    }
  }

  lemma QuietOnlyLast(h: seq<Event>, p: string, j: int)
    requires h != [] && Touches(h[|h| - 1], p) && Quiet(h, p, j)
    ensures j == |h| - 1
  {
  }

  lemma {:induction false} RunMatches(h: seq<Event>, p: string, delayMs: int)
    requires Run(h, delayMs).Some?
    ensures Matches(Run(h, delayMs).value, h, p, delayMs)
  {
    RunKeepsPaired(h, delayMs);
    if h != [] {
      var front := h[..|h| - 1];
      var e := h[|h| - 1];
      var s := Run(front, delayMs).value;
      var s' := Run(h, delayMs).value;
      RunMatches(front, p, delayMs);
      RunKeepsPaired(front, delayMs);
      if Touches(e, p) {
        TouchMatches(h, p, delayMs, s, s');
      } else {
        UntouchedMatches(h, p, delayMs, s, s');
      }
    }
  }

  lemma TouchMatches(h: seq<Event>, p: string, delayMs: int, s: State, s': State)
    requires h != [] && Touches(h[|h| - 1], p) && Paired(s) && Paired(s')
    requires Possible(s, h[|h| - 1]) && s' == Step(s, h[|h| - 1], delayMs)
    requires s'.subscribed <==> NoDisposal(h)
    requires s.subscribed <==> NoDisposal(h[..|h| - 1])
    requires Matches(s, h[..|h| - 1], p, delayMs)
    ensures Matches(s', h, p, delayMs)
  {
    var e := h[|h| - 1];
    forall j | Quiet(h, p, j)
      ensures j == |h| - 1
    {
      QuietOnlyLast(h, p, j);
    }
    if e.Success? && s.subscribed {
      assert Quiet(h, p, |h| - 1);
      assert s'.armed[s'.timers[p]].due == h[|h| - 1].at + delayMs;
      assert TimerFor(s', p);
    } else {
      if !s.subscribed && p in s.timers {
        var j :| Quiet(h[..|h| - 1], p, j);
      }
      assert p !in s'.timers;
    }
  }

  lemma UntouchedMatches(h: seq<Event>, p: string, delayMs: int, s: State, s': State)
    requires h != [] && !Touches(h[|h| - 1], p) && Paired(s) && Paired(s')
    requires Possible(s, h[|h| - 1]) && s' == Step(s, h[|h| - 1], delayMs)
    requires Matches(s, h[..|h| - 1], p, delayMs)
    ensures Matches(s', h, p, delayMs)
  {
    var front := h[..|h| - 1];
    var e := h[|h| - 1];
    assert e.project != p;
    assert p in s'.timers <==> p in s.timers;
    forall j
      ensures Quiet(h, p, j) <==> Quiet(front, p, j)
    {
      QuietExtends(h, p, j);
    }
    if p in s.timers {
      assert TimerFor(s', p) && TimerFor(s, p);
      assert s'.timers[p] == s.timers[p];
      assert s'.armed[s.timers[p]] == s.armed[s.timers[p]];
      var j :| Quiet(front, p, j) && s.armed[s.timers[p]].due == front[j].at + delayMs;
      assert Quiet(h, p, j) && h[j] == front[j];
    }
  }

  /**
   * A timer fires only if its project's success came at least `delayMs` earlier and nothing since concerned the
   * project: no success, no cancel event, no other firing, no disposal.
   */
  lemma FiresOnlyAfterQuietDelay(h: seq<Event>, e: Event, delayMs: int)
    requires Run(h, delayMs).Some? && e.Fires? && Possible(Run(h, delayMs).value, e)
    ensures exists j :: Quiet(h, e.project, j) && e.at - h[j].at >= delayMs
  {
    RunKeepsPaired(h, delayMs);
    RunMatches(h, e.project, delayMs);
    var s := Run(h, delayMs).value;
    assert Recorded(s, e.handle);
    var j :| Quiet(h, e.project, j) && s.armed[s.timers[e.project]].due == h[j].at + delayMs;
    assert Quiet(h, e.project, j) && e.at - h[j].at >= delayMs;
  }

  /** After every run each project has at most one armed timer, and one exactly when its last success is still quiet. */
  lemma ArmedExactlyWhenQuiet(h: seq<Event>, p: string, delayMs: int)
    requires Run(h, delayMs).Some?
    ensures var s := Run(h, delayMs).value;
            && (forall a, b :: a in s.armed && b in s.armed && s.armed[a].project == s.armed[b].project ==> a == b)
            && ((exists a :: a in s.armed && s.armed[a].project == p) <==> exists j :: Quiet(h, p, j))
  {
    RunKeepsPaired(h, delayMs);
    RunMatches(h, p, delayMs);
    var s := Run(h, delayMs).value;
    forall a | a in s.armed
      ensures Recorded(s, a)
    {
    }
    if p in s.timers {
      assert TimerFor(s, p);
    }
  }

  // ---------------------------------------------------------------------------
  // The class
  // ---------------------------------------------------------------------------

  lemma RunExtends(h: seq<Event>, e: Event, delayMs: int)
    requires Run(h, delayMs).Some? && Possible(Run(h, delayMs).value, e)
    ensures Run(h + [e], delayMs) == Some(Step(Run(h, delayMs).value, e, delayMs))
  {
    assert (h + [e])[..|h|] == h;
  }

  /** The project has exactly one armed timer, due at the given time. */
  ghost predicate ArmedOnce(s: State, p: string, due: int) {
    exists handle :: handle in s.armed && s.armed[handle] == Timeout(p, due)
                     && forall x :: x in s.armed && s.armed[x].project == p ==> x == handle
  }

  lemma SuccessArmsOne(s: State, p: string, now: int, delayMs: int)
    requires Paired(s) && s.subscribed
    ensures ArmedOnce(OnSuccess(s, p, now, delayMs), p, now + delayMs)
  {
    var c := CancelTimer(s, p);
    CancelKeepsPaired(s, p);
    assert forall x :: x in c.armed ==> Recorded(c, x);
    var r := OnSuccess(s, p, now, delayMs);
    assert r.armed[c.next] == Timeout(p, now + delayMs);
  }

  lemma DisposeDisarms(s: State)
    requires Paired(s)
    ensures Dispose(s).armed == map[]
  {
    forall handle | handle in s.armed
      ensures handle in s.timers.Values
    {
      assert Recorded(s, handle);
    }
  }

  /** `history` is every event and firing so far. */
  class PostmortemAutomation {
    const delayMs: int
    var postmortemTimers: map<string, nat>
    var armed: map<nat, Timeout>
    var next: nat
    var subscribed: bool
    ghost var history: seq<Event>

    ghost function View(): State
      reads this
    {
      State(postmortemTimers, armed, next, subscribed)
    }

    ghost predicate Valid()
      reads this
    {
      Run(history, delayMs) == Some(View())
    }

    constructor (delayMs: int := POSTMORTEM_STABILITY_WINDOW_MS)
      ensures Valid() && history == [] && this.delayMs == delayMs
    {
      this.delayMs := delayMs;
      postmortemTimers, armed, next, subscribed, history := map[], map[], 0, true, [];
    }

    method CancelProjectTimer(projectId: string)
      modifies `postmortemTimers, `armed
      ensures View() == CancelTimer(old(View()), projectId)
    {
      if projectId in postmortemTimers {
        armed := armed - {postmortemTimers[projectId]};
        postmortemTimers := postmortemTimers - {projectId};
      }
    }

    /** Unless disposed, the project now has exactly one armed timer, and it is due after the full delay. */
    method OnRecoverySuccess(projectId: string, now: int)
      requires Valid()
      modifies this
      ensures Valid() && history == old(history) + [Success(projectId, now)]
      ensures old(subscribed) ==> ArmedOnce(View(), projectId, now + delayMs)
      ensures !old(subscribed) ==> View() == old(View())
    {
      ghost var e := Success(projectId, now);
      RunKeepsPaired(history, delayMs);
      RunExtends(history, e, delayMs);
      if subscribed {
        SuccessArmsOne(View(), projectId, now, delayMs);
      }
      history := history + [e];
      if !subscribed {
        return;
      }
      CancelProjectTimer(projectId);
      armed := armed[next := Timeout(projectId, now + delayMs)];
      postmortemTimers := postmortemTimers[projectId := next];
      next := next + 1;
    }

    /** Afterwards no timer of the project is armed, disposed or not. */
    method OnCancelEvent(projectId: string, ghost now: int)
      requires Valid()
      modifies this
      ensures Valid() && history == old(history) + [Cancel(projectId, now)]
      ensures forall x :: x in armed ==> armed[x].project != projectId
    {
      ghost var e := Cancel(projectId, now);
      RunExtends(history, e, delayMs);
      history := history + [e];
      ArmedExactlyWhenQuiet(history, projectId, delayMs);
      if subscribed {
        CancelProjectTimer(projectId);
      }
      NotQuietAfterCancel(history, projectId);
    }

    /** Afterwards no timer is armed at all, and none ever will be. */
    method DisposeAll(ghost now: int)
      requires Valid()
      modifies this
      ensures Valid() && history == old(history) + [Disposed(now)]
      ensures armed == map[] && !subscribed
    {
      ghost var e := Disposed(now);
      RunKeepsPaired(history, delayMs);
      RunExtends(history, e, delayMs);
      DisposeDisarms(View());
      history := history + [e];
      subscribed := false;
      DisarmEach(postmortemTimers.Values);
      postmortemTimers := map[];
    }

    method DisarmEach(handles: set<nat>)
      modifies `armed
      ensures armed == old(armed) - handles
    {
      var left := handles;
      while left != {}
        invariant left <= handles && armed == old(armed) - (handles - left)
      {
        var handle :| handle in left;
        armed := armed - {handle};
        left := left - {handle};
      }
      assert handles - left == handles;
    }

    /** A firing comes at least the delay after a success of the project that nothing has followed. */
    method FireTimer(handle: nat, now: int) returns (projectId: string)
      requires Valid() && handle in armed && armed[handle].due <= now
      modifies this
      ensures Valid() && history == old(history) + [Fires(projectId, now, handle)]
      ensures exists j :: Quiet(old(history), projectId, j) && now - old(history)[j].at >= delayMs
      ensures forall x :: x in armed ==> armed[x].project != projectId
    {
      projectId := armed[handle].project;
      ghost var e := Fires(projectId, now, handle);
      FiresOnlyAfterQuietDelay(history, e, delayMs);
      RunKeepsPaired(history, delayMs);
      assert Recorded(View(), handle);
      assert forall x :: x in armed ==> Recorded(View(), x);
      RunExtends(history, e, delayMs);
      history := history + [e];
      armed := armed - {handle};
      postmortemTimers := postmortemTimers - {projectId};
    }
  }

  lemma NotQuietAfterCancel(h: seq<Event>, p: string)
    requires h != [] && h[|h| - 1].Cancel? && h[|h| - 1].project == p
    ensures forall j :: !Quiet(h, p, j)
  {
    forall j
      ensures !Quiet(h, p, j)
    {
      if Quiet(h, p, j) {
        QuietOnlyLast(h, p, j);
      }
    }
  }
}
