/** Lists of call times, and the part of them that a sliding window still sees. */
module TimeWindow {

  /** The times not before `bound`, in order. */
  function Since(times: seq<int>, bound: int): seq<int> {
    if times == [] then []
    else
      var last := times[|times| - 1];
      var front := Since(times[..|times| - 1], bound);
      if last >= bound then front + [last] else front
  }

  lemma SinceAppend(times: seq<int>, t: int, bound: int)
    ensures Since(times + [t], bound) == if t >= bound then Since(times, bound) + [t] else Since(times, bound)
  {
    assert (times + [t])[..|times|] == times;
  }

  /** Pruning at an earlier bound loses nothing a later bound would keep. */
  lemma {:induction false} SinceSince(times: seq<int>, earlier: int, later: int)
    requires earlier <= later
    ensures Since(Since(times, earlier), later) == Since(times, later)
  {
    if times != [] {
      var front := times[..|times| - 1];
      var last := times[|times| - 1];
      SinceSince(front, earlier, later);
      if last >= earlier {
        SinceAppend(Since(front, earlier), last, later);
      }
    }
  }

  lemma {:induction false} SinceShrinks(times: seq<int>, earlier: int, later: int)
    requires earlier <= later
    ensures |Since(times, later)| <= |Since(times, earlier)|
  {
    if times != [] {
      SinceShrinks(times[..|times| - 1], earlier, later);
    }
  }

  /** `stored` is the full list with some prefix of the past pruned away, nothing from `bound` on. */
  ghost predicate Shows(stored: seq<int>, full: seq<int>, bound: int) {
    exists b :: b <= bound && stored == Since(full, b)
  }

  lemma PruneIsExact(stored: seq<int>, full: seq<int>, bound: int, later: int)
    requires Shows(stored, full, bound) && bound <= later
    ensures Since(stored, later) == Since(full, later)
  {
    var b :| b <= bound && stored == Since(full, b);
    SinceSince(full, b, later);
  }

  lemma AppendIsExact(stored: seq<int>, full: seq<int>, t: int, bound: int, later: int)
    requires Shows(stored, full, bound) && bound <= later
    ensures Since(stored + [t], later) == Since(full + [t], later)
  {
    SinceAppend(full, t, later);
    SinceAppend(stored, t, later);
    PruneIsExact(stored, full, bound, later);
  }

  /** The `filter` loop all pruning code runs. */
  method Prune(times: seq<int>, bound: int) returns (kept: seq<int>)
    ensures kept == Since(times, bound)
  {
    kept := [];
    for i := 0 to |times|
      invariant kept == Since(times[..i], bound)
    {
      assert times[..i + 1][..i] == times[..i];
      if times[i] >= bound {
        kept := kept + [times[i]];
      }
    }
    assert times[..|times|] == times;
  }

  // ----- windows of one hour -----

  const HOUR_MS: int := 3_600_000

  /** The first millisecond inside the hour that ends at `now`. */
  function HourStart(now: int): int {
    now - HOUR_MS + 1
  }

  lemma KeptPlusOne(stored: seq<int>, full: seq<int>, t: int, bound: int, later: int)
    requires Shows(stored, full, bound) && bound <= later <= t
    ensures Since(stored, later) + [t] == Since(full + [t], later)
  {
    PruneIsExact(stored, full, bound, later);
    SinceAppend(full, t, later);
  }

  /** How many times lie in the hour `(start, start + HOUR_MS]`. */
  function InHour(times: seq<int>, start: int): nat {
    if times == [] then 0
    else
      var last := times[|times| - 1];
      InHour(times[..|times| - 1], start) + (if start < last <= start + HOUR_MS then 1 else 0)
  }

  lemma InHourAppend(times: seq<int>, t: int, start: int)
    ensures InHour(times + [t], start) == InHour(times, start) + (if start < t <= start + HOUR_MS then 1 else 0)
  {
    assert (times + [t])[..|times|] == times;
  }

  lemma {:induction false} InHourBoundedBySince(times: seq<int>, start: int, bound: int)
    requires bound <= start + 1
    ensures InHour(times, start) <= |Since(times, bound)|
  {
    if times != [] {
      InHourBoundedBySince(times[..|times| - 1], start, bound);
    }
  }

  /** If fewer than `limit` calls are visible when a call is admitted, no window ever holds more than `limit`. */
  lemma AdmittedStaysBounded(times: seq<int>, checkedAt: int, recordedAt: int, limit: nat)
    requires forall start :: InHour(times, start) <= limit
    requires checkedAt <= recordedAt
    requires |Since(times, HourStart(checkedAt))| < limit
    ensures forall start :: InHour(times + [recordedAt], start) <= limit
  {
    forall start
      ensures InHour(times + [recordedAt], start) <= limit
    {
      InHourAppend(times, recordedAt, start);
      if start < recordedAt <= start + HOUR_MS {
        SinceShrinks(times, HourStart(checkedAt), HourStart(recordedAt));
        InHourBoundedBySince(times, start, HourStart(recordedAt));
      }
    }
  }

  lemma {:induction false} InHourIsSince(times: seq<int>, now: int)
    requires forall i :: 0 <= i < |times| ==> times[i] <= now
    ensures InHour(times, now - HOUR_MS) == |Since(times, HourStart(now))|
  {
    if times != [] {
      InHourIsSince(times[..|times| - 1], now);
    }
  }
}
