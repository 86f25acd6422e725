/**
 * The fixed-size circular buffer of timestamped entries. `pushed` is the ghost record of
 * everything pushed since the last clear; the buffer holds exactly its newest part.
 */
module RingBuffer {
  import opened Prelude

  datatype Entry<T> = Entry(data: T, timestamp: int)

  /** The last `n` elements, or all of them if there are fewer. */
  function LastN<T>(s: seq<T>, n: int): seq<T> {
    if n <= 0 then [] else if |s| <= n then s else s[|s| - n..]
  }

  function AtOrAfter<T>(s: seq<Entry<T>>, since: int): seq<Entry<T>> {
    if s == [] then []
    else
      var front := AtOrAfter(s[..|s| - 1], since);
      if s[|s| - 1].timestamp >= since then front + [s[|s| - 1]] else front
  }

  /** An entry is kept exactly if it is not older than `since`, and the kept ones stay in order. */
  lemma AtOrAfterAppend<T>(s: seq<Entry<T>>, e: Entry<T>, since: int)
    ensures AtOrAfter(s + [e], since) == if e.timestamp >= since then AtOrAfter(s, since) + [e] else AtOrAfter(s, since)
  {
    assert (s + [e])[..|s|] == s;
  }

  /** The last `n` elements are a suffix, of length `n` unless there are fewer. */
  lemma LastNIsSuffix<T>(s: seq<T>, n: int)
    ensures |LastN(s, n)| == if n <= 0 then 0 else if n < |s| then n else |s|
    ensures LastN(s, n) == s[|s| - |LastN(s, n)|..]
  {
  }

  lemma Wraps(w: nat, i: nat, capacity: nat)
    requires w < capacity && i < capacity
    ensures (w + i) % capacity == if w + i < capacity then w + i else w + i - capacity
  {
    if w + i >= capacity {
      assert (w + i) / capacity == 1;
    }
  }

  class Buffer<T> {
    const capacity: int
    var entries: array<Option<Entry<T>>>
    var writeIndex: nat
    var isFull: bool
    ghost var pushed: seq<Entry<T>>

    ghost predicate Valid()
      reads this, entries
    {
      && 0 < capacity == entries.Length
      && writeIndex < capacity
      && (isFull <==> |pushed| >= capacity)
      && if !isFull then
           && writeIndex == |pushed|
           && (forall i :: 0 <= i < writeIndex ==> entries[i] == Some(pushed[i]))
         else
           && (forall i :: 0 <= i < writeIndex ==> entries[i] == Some(pushed[|pushed| - writeIndex + i]))
           && (forall i :: writeIndex <= i < capacity
                           ==> entries[i] == Some(pushed[|pushed| - capacity + i - writeIndex]))
    }

    constructor (capacity: int)
      requires capacity > 0
      ensures Valid() && fresh(entries) && this.capacity == capacity && pushed == []
    {
      this.capacity := capacity;
      entries := new Option<Entry<T>>[capacity](_ => None);
      writeIndex, isFull, pushed := 0, false, [];
    }

    method Push(item: T, now: int)
      requires Valid()
      modifies this, entries
      ensures Valid() && entries == old(entries)
      ensures pushed == old(pushed) + [Entry(item, now)]
    {
      Wraps(writeIndex, if capacity == 1 then 0 else 1, capacity);
      entries[writeIndex] := Some(Entry(item, now));
      writeIndex := (writeIndex + 1) % capacity;
      if writeIndex == 0 {
        isFull := true;
      }
      pushed := pushed + [Entry(item, now)];
    }

    method Clear()
      requires Valid()
      modifies this
      ensures Valid() && fresh(entries) && pushed == []
    {
      entries := new Option<Entry<T>>[capacity](_ => None);
      writeIndex, isFull := 0, false;
      pushed := [];
    }

    method Size() returns (size: nat)
      requires Valid()
      ensures size == |LastN(pushed, capacity)|
    {
      size := if isFull then capacity else writeIndex;
    }

    /** Everything held, oldest first: the last `capacity` pushes since the last clear. */
    method GetAll() returns (result: seq<Entry<T>>)
      requires Valid()
      ensures result == LastN(pushed, capacity)
    {
      result := [];
      if !isFull {
        for i := 0 to writeIndex
          invariant result == pushed[..i]
        {
          var entry := entries[i];
          if entry.Some? {
            result := result + [entry.value];
          }
        }
      } else {
        ghost var oldest := |pushed| - capacity;
        for i := 0 to capacity
          invariant result == pushed[oldest..oldest + i]
        {
          Wraps(writeIndex, i, capacity);
          var idx := (writeIndex + i) % capacity;
          var entry := entries[idx];
          assert entry == Some(pushed[oldest + i]);
          if entry.Some? {
            result := result + [entry.value];
          }
        }
      }
    }

    /** The newest `n` of them, filtered by time. */
    method GetRecent(n: int, since: Option<int>) returns (result: seq<Entry<T>>)
      requires Valid()
      ensures var recent := LastN(pushed, if n < capacity then n else capacity);
              result == if since.None? then recent else AtOrAfter(recent, since.value)
    {
      if n <= 0 {
        return [];
      }
      var all := GetAll();
      LastOfLast(pushed, n, capacity);
      result := LastN(all, n);
      if since.Some? {
        result := FilterSince(result, since.value);
      }
    }
  }

  method FilterSince<T>(s: seq<Entry<T>>, since: int) returns (kept: seq<Entry<T>>)
    ensures kept == AtOrAfter(s, since)
  {
    kept := [];
    for i := 0 to |s|
      invariant kept == AtOrAfter(s[..i], since)
    {
      assert s[..i + 1][..i] == s[..i];
      if s[i].timestamp >= since {
        kept := kept + [s[i]];
      }
    }
    assert s[..|s|] == s;
  }

  lemma LastOfLast<T>(s: seq<T>, n: int, m: int)
    ensures LastN(LastN(s, m), n) == LastN(s, if n < m then n else m)
  {
  }

  /** A capacity of zero or less is refused. */
  method Create<T>(capacity: int) returns (buffer: Buffer?<T>)
    ensures capacity <= 0 <==> buffer == null
    ensures buffer != null ==> fresh(buffer) && fresh(buffer.entries) && buffer.Valid()
                               && buffer.capacity == capacity && buffer.pushed == []
  {
    if capacity <= 0 {
      return null;
    }
    buffer := new Buffer<T>(capacity);
  }
}
