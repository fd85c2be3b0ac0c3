/** The sliding window of src/filter/ratelimit.c: a circular buffer of per-second totals
    that stands for an unbounded log of events. */
module SlidingWindows {
  datatype Event = Event(at: int, value: nat)

  /** The total logged at second s. */
  function TotalAt(log: seq<Event>, s: int): nat {
    if log == [] then 0
    else
      var e := log[|log| - 1];
      TotalAt(log[..|log| - 1], s) + if e.at == s then e.value else 0
  }

  /** The total logged in the seconds lo < s <= hi. */
  function TotalIn(log: seq<Event>, lo: int, hi: int): nat {
    if log == [] then 0
    else
      var e := log[|log| - 1];
      TotalIn(log[..|log| - 1], lo, hi) + if lo < e.at <= hi then e.value else 0
  }

  function Sum(s: seq<nat>): nat {
    if s == [] then 0 else Sum(s[..|s| - 1]) + s[|s| - 1]
  }

  /** The bucket j seconds behind the current one. */
  function Back(idx: nat, j: nat, size: nat): (i: nat)
    requires idx < size && j < size
    ensures i < size
  {
    if j <= idx then idx - j else idx + size - j
  }

  /** The window sum as the code computes it, on the log. */
  function WindowSum(log: seq<Event>, start: int, size: nat, now: int): nat {
    if now - start >= size then 0 else TotalIn(log, start - size, start)
  }

  // ----- sums over the log

  lemma {:induction false} NothingAfter(log: seq<Event>, s: int)
    requires forall e :: e in log ==> e.at < s
    ensures TotalAt(log, s) == 0
  {
    if log != [] {
      assert log[|log| - 1] in log;
      NothingAfter(log[..|log| - 1], s);
    }
  }

  lemma {:induction false} TotalInSplits(log: seq<Event>, lo: int, hi: int)
    requires lo < hi
    ensures TotalIn(log, lo, hi) == TotalIn(log, lo, hi - 1) + TotalAt(log, hi)
  {
    if log != [] {
      TotalInSplits(log[..|log| - 1], lo, hi);
    }
  }

  lemma {:induction false} TotalInEmpty(log: seq<Event>, lo: int, hi: int)
    requires hi <= lo
    ensures TotalIn(log, lo, hi) == 0
  {
    if log != [] {
      TotalInEmpty(log[..|log| - 1], lo, hi);
    }
  }

  lemma {:induction false} TotalInMonotone(log: seq<Event>, lo: int, hi: int, lo': int, hi': int)
    requires forall e :: e in log && lo < e.at <= hi ==> lo' < e.at <= hi'
    ensures TotalIn(log, lo, hi) <= TotalIn(log, lo', hi')
  {
    if log != [] {
      assert log[|log| - 1] in log;
      TotalInMonotone(log[..|log| - 1], lo, hi, lo', hi');
    }
  }

  /** Per-second totals of consecutive seconds add up to the total of the interval. */
  lemma {:induction false} SumOfSeconds(log: seq<Event>, w: seq<nat>, lo: int)
    requires forall k :: 0 <= k < |w| ==> w[k] == TotalAt(log, lo + 1 + k)
    ensures Sum(w) == TotalIn(log, lo, lo + |w|)
  {
    if w == [] {
      TotalInEmpty(log, lo, lo);
    } else {
      SumOfSeconds(log, w[..|w| - 1], lo);
      TotalInSplits(log, lo, lo + |w|);
    }
  }

  lemma {:induction false} SumOfConcat(s: seq<nat>, t: seq<nat>)
    ensures Sum(s + t) == Sum(s) + Sum(t)
  {
    if t == [] {
      assert s + t == s;
    } else {
      assert (s + t)[..|s + t| - 1] == s + t[..|t| - 1];
      SumOfConcat(s, t[..|t| - 1]);
    }
  }

  /** The sum the code returns never falls below the true window, is exact in the second of the
      last event, and is exactly zero once the window has passed. */
  lemma WindowSumNeverLow(log: seq<Event>, start: int, size: nat, now: int)
    requires start <= now && forall e :: e in log ==> e.at <= start
    ensures TotalIn(log, now - size, now) <= WindowSum(log, start, size, now)
    ensures now == start && size > 0 ==> WindowSum(log, start, size, now) == TotalIn(log, now - size, now)
    ensures now - start >= size ==> WindowSum(log, start, size, now) == 0
  {
    if now - start >= size {
      TotalInMonotone(log, now - size, now, now, now);
      TotalInEmpty(log, now, now);
    } else {
      TotalInMonotone(log, now - size, now, start - size, start);
    }
  }

  lemma {:induction false} TotalInJoins(log: seq<Event>, lo: int, mid: int, hi: int)
    requires lo <= mid <= hi
    ensures TotalIn(log, lo, hi) == TotalIn(log, lo, mid) + TotalIn(log, mid, hi)
  {
    if log != [] {
      TotalInJoins(log[..|log| - 1], lo, mid, hi);
    }
  }

  lemma {:induction false} NothingLater(log: seq<Event>, lo: int, hi: int)
    requires forall e :: e in log ==> e.at <= lo
    ensures TotalIn(log, lo, hi) == 0
  {
    if log != [] {
      assert log[|log| - 1] in log;
      NothingLater(log[..|log| - 1], lo, hi);
    }
  }

  /** Until the window has passed the code returns the true window and, on top of it, exactly what has left
      the window since the last event: the buffer is not advanced when it is only read. */
  lemma WindowSumExactly(log: seq<Event>, start: int, size: nat, now: int)
    requires start <= now < start + size && forall e :: e in log ==> e.at <= start
    ensures WindowSum(log, start, size, now) == TotalIn(log, now - size, now) + TotalIn(log, start - size, now - size)
  {
    TotalInJoins(log, start - size, now - size, start);
    TotalInJoins(log, now - size, start, now);
    NothingLater(log, start, now);
  }

  lemma NextIndex(i: nat, size: nat)
    requires i < size
    ensures (i + 1) % size == if i + 1 == size then 0 else i + 1
  {
    if i + 1 < size {
      SmallRemainder(i + 1, size);
    }
  }

  lemma SmallRemainder(i: nat, size: nat)
    requires i < size
    ensures i % size == i
  {
  }

  lemma SumOfRotated(b: seq<nat>, n: nat)
    requires n <= |b|
    ensures Sum(b) == Sum(b[n..] + b[..n])
  {
    SumOfConcat(b[n..], b[..n]);
    SumOfConcat(b[..n], b[n..]);
    assert b[..n] + b[n..] == b;
  }

  class SlidingWindow {
    const size: nat
    const buckets: array<nat>
    var currentIdx: nat
    var windowStart: int
    /** Every event added so far, at the second it was counted for. */
    ghost var log: seq<Event>

    /** The bucket j behind the current one holds the total of second at - j. */
    ghost predicate Tracks(at: int)
      reads this, buckets
    {
      && buckets.Length == size && currentIdx < size
      && (forall e :: e in log ==> e.at <= at)
      && forall j {:trigger Back(currentIdx, j, size)} :: 0 <= j < size ==>
           buckets[Back(currentIdx, j, size)] == TotalAt(log, at - j)
    }

    ghost predicate Valid()
      reads this, buckets
    {
      Tracks(windowStart)
    }

    /** sliding_window_create */
    constructor (windowSize: nat, now: int)
      requires windowSize > 0
      ensures Valid() && size == windowSize && windowStart == now && log == [] && fresh(buckets)
    {
      size := windowSize;
      buckets := new nat[windowSize](_ => 0);
      currentIdx, windowStart, log := 0, now, [];
    }

    /** One turn of the advancing loop: the next bucket is emptied and becomes the current one. */
    method Step(ghost at: int)
      requires Tracks(at)
      modifies this`currentIdx, buckets
      ensures Tracks(at + 1)
    {
      NothingAfter(log, at + 1);
      NextIndex(currentIdx, size);
      currentIdx := (currentIdx + 1) % size;
      buckets[currentIdx] := 0;
      forall j | 0 <= j < size
        ensures buckets[Back(currentIdx, j, size)] == TotalAt(log, at + 1 - j)
      {
        if j > 0 {
          assert Back(currentIdx, j, size) == Back(old(currentIdx), j - 1, size);
        }
      }
    }

    method AddHere(value: nat)
      requires Valid()
      modifies this`log, buckets
      ensures Valid() && log == old(log) + [Event(windowStart, value)]
    {
      buckets[currentIdx] := buckets[currentIdx] + value;
      log := log + [Event(windowStart, value)];
      forall j | 0 <= j < size
        ensures buckets[Back(currentIdx, j, size)] == TotalAt(log, windowStart - j)
      {
        assert log[..|log| - 1] == old(log);
      }
    }

    /** sliding_window_add. An event older than the current second is counted for the current second. */
    method Add(value: nat, now: int)
      requires Valid()
      modifies this, buckets
      ensures Valid()
      ensures windowStart == if now > old(windowStart) then now else old(windowStart)
      ensures log == old(log) + [Event(windowStart, value)]
    {
      var diff := now - windowStart;
      if diff >= size {
        forall i | 0 <= i < size {
          buckets[i] := 0;
        }
        currentIdx := 0;
        windowStart := now;
        forall s | now - size < s
          ensures TotalAt(log, s) == 0
        {
          NothingAfter(log, s);
        }
        AddHere(value);
      } else if diff > 0 {
        var i := 0;
        while i < diff
          invariant 0 <= i <= diff && Tracks(windowStart + i)
          invariant log == old(log) && windowStart == old(windowStart)
        {
          Step(windowStart + i);
          i := i + 1;
        }
        windowStart := now;
        AddHere(value);
      } else {
        AddHere(value);
      }
    }

    /** sliding_window_sum */
    method WindowTotal(now: int) returns (sum: nat)
      requires Valid()
      ensures sum == WindowSum(log, windowStart, size, now)
    {
      if now - windowStart >= size {
        return 0;
      }
      sum := 0;
      for i := 0 to size
        invariant sum == Sum(buckets[..i])
      {
        assert buckets[..i + 1][..i] == buckets[..i];
        sum := sum + buckets[i];
      }
      assert buckets[..size] == buckets[..];
      BucketsSumToWindow();
    }

    /** Read from the oldest bucket to the current one, the buffer is the last size seconds of the log. */
    lemma BucketsSumToWindow()
      requires Valid()
      ensures Sum(buckets[..]) == TotalIn(log, windowStart - size, windowStart)
    {
      hide Sum, TotalAt, TotalIn;
      var w := buckets[currentIdx + 1..] + buckets[..currentIdx + 1];
      forall k | 0 <= k < size
        ensures w[k] == TotalAt(log, windowStart - size + 1 + k)
      {
        assert w[k] == buckets[Back(currentIdx, size - 1 - k, size)];
      }
      SumOfSeconds(log, w, windowStart - size);
      SumOfRotated(buckets[..], currentIdx + 1);
    }
  }
}
