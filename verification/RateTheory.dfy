/** What the rate limiter with separate chain links decides, over whole histories of packets and resets. */
module RateTheory {
  import opened SlidingWindows

  datatype Limits = Limits(maxPps: nat, maxBps: nat, window: nat)

  /** What the limiter remembers of one source: the current second, and every packet since its entry was made. */
  datatype Source = Source(start: int, packets: seq<Event>, bytes: seq<Event>)

  /** One more packet, counted whether it is allowed or not. */
  function Counted(s: Source, size: nat, now: int): Source {
    var at := if now > s.start then now else s.start;
    Source(at, s.packets + [Event(at, 1)], s.bytes + [Event(at, size)])
  }

  function FirstSeen(now: int): Source {
    Source(now, [], [])
  }

  predicate Allowed(s: Source, lim: Limits, now: int)
    requires lim.window > 0
  {
    && WindowSum(s.packets, s.start, lim.window, now) / lim.window <= lim.maxPps
    && WindowSum(s.bytes, s.start, lim.window, now) / lim.window <= lim.maxBps
  }

  // ----- one source on its own

  datatype Attempt = Attempt(size: nat, now: int)

  function After(trace: seq<Attempt>): Source
    requires trace != []
  {
    var a := trace[|trace| - 1];
    Counted(if |trace| == 1 then FirstSeen(a.now) else After(trace[..|trace| - 1]), a.size, a.now)
  }

  /** The verdict on the last packet of a trace. */
  predicate LastAllowed(trace: seq<Attempt>, lim: Limits)
    requires trace != [] && lim.window > 0
  {
    Allowed(After(trace), lim, trace[|trace| - 1].now)
  }

  ghost predicate NonDecreasing(trace: seq<Attempt>) {
    forall i, j :: 0 <= i < j < |trace| ==> trace[i].now <= trace[j].now
  }

  function PacketLog(trace: seq<Attempt>): seq<Event> {
    if trace == [] then []
    else PacketLog(trace[..|trace| - 1]) + [Event(trace[|trace| - 1].now, 1)]
  }

  function ByteLog(trace: seq<Attempt>): seq<Event> {
    if trace == [] then []
    else ByteLog(trace[..|trace| - 1]) + [Event(trace[|trace| - 1].now, trace[|trace| - 1].size)]
  }

  /** Attempts, and bytes attempted, in the seconds lo < s <= hi. */
  function Packets(trace: seq<Attempt>, lo: int, hi: int): nat {
    TotalIn(PacketLog(trace), lo, hi)
  }

  function Bytes(trace: seq<Attempt>, lo: int, hi: int): nat {
    TotalIn(ByteLog(trace), lo, hi)
  }

  /** With a non-decreasing clock the limiter remembers exactly the trace. */
  lemma {:induction false} AfterIsLog(trace: seq<Attempt>)
    requires trace != [] && NonDecreasing(trace)
    ensures After(trace) == Source(trace[|trace| - 1].now, PacketLog(trace), ByteLog(trace))
  {
    if |trace| == 1 {
      assert trace[..0] == [];
    } else {
      AfterIsLog(trace[..|trace| - 1]);
    }
  }

  lemma DivideBelow(total: nat, w: nat, limit: nat)
    requires w > 0
    ensures total / w <= limit <==> total < (limit + 1) * w
  {
    var q, r := total / w, total % w;
    assert total == q * w + r;
    if q <= limit {
      LargerProduct(q, limit, w);
    } else {
      LargerProduct(limit + 1, q, w);
    }
  }

  lemma LargerProduct(a: nat, b: nat, w: nat)
    requires a <= b
    ensures a * w <= b * w && (a + 1) * w == a * w + w && (b + 1) * w == b * w + w
  {
  }

  /** A packet is refused exactly when the attempts of the last window seconds, itself
      included, reach (limit + 1) * window packets or bytes. */
  lemma RefusedExactly(trace: seq<Attempt>, lim: Limits)
    requires trace != [] && NonDecreasing(trace) && lim.window > 0
    ensures var now, w := trace[|trace| - 1].now, lim.window;
            LastAllowed(trace, lim) <==>
              Packets(trace, now - w, now) < (lim.maxPps + 1) * w && Bytes(trace, now - w, now) < (lim.maxBps + 1) * w
  {
    hide PacketLog, ByteLog, TotalIn, After;
    var now, w := trace[|trace| - 1].now, lim.window;
    AfterIsLog(trace);
    DivideBelow(Packets(trace, now - w, now), w, lim.maxPps);
    DivideBelow(Bytes(trace, now - w, now), w, lim.maxBps);
  }

  /** Packets, and bytes, let through in the seconds lo < s <= hi. */
  function AllowedPackets(trace: seq<Attempt>, lim: Limits, lo: int, hi: int): nat
    requires lim.window > 0
  {
    if trace == [] then 0
    else
      AllowedPackets(trace[..|trace| - 1], lim, lo, hi)
      + if LastAllowed(trace, lim) && lo < trace[|trace| - 1].now <= hi then 1 else 0
  }

  function AllowedBytes(trace: seq<Attempt>, lim: Limits, lo: int, hi: int): nat
    requires lim.window > 0
  {
    if trace == [] then 0
    else
      AllowedBytes(trace[..|trace| - 1], lim, lo, hi)
      + if LastAllowed(trace, lim) && lo < trace[|trace| - 1].now <= hi then trace[|trace| - 1].size else 0
  }

  lemma {:induction false} AllowedAtMostAttempted(trace: seq<Attempt>, lim: Limits, lo: int, hi: int)
    requires lim.window > 0
    ensures AllowedPackets(trace, lim, lo, hi) <= Packets(trace, lo, hi)
    ensures AllowedBytes(trace, lim, lo, hi) <= Bytes(trace, lo, hi)
  {
    if trace != [] {
      AllowedAtMostAttempted(trace[..|trace| - 1], lim, lo, hi);
      assert PacketLog(trace)[..|PacketLog(trace)| - 1] == PacketLog(trace[..|trace| - 1]);
      assert ByteLog(trace)[..|ByteLog(trace)| - 1] == ByteLog(trace[..|trace| - 1]);
    }
  }

  lemma {:induction false} LogsAreOfTrace(trace: seq<Attempt>)
    ensures forall e :: e in PacketLog(trace) || e in ByteLog(trace) ==> exists i :: 0 <= i < |trace| && trace[i].now == e.at
  {
    if trace != [] {
      var n := |trace| - 1;
      LogsAreOfTrace(trace[..n]);
      forall e | e in PacketLog(trace) || e in ByteLog(trace)
        ensures exists i :: 0 <= i < |trace| && trace[i].now == e.at
      {
        if e in PacketLog(trace[..n]) || e in ByteLog(trace[..n]) {
          var i :| 0 <= i < n && trace[..n][i].now == e.at;
          assert trace[i].now == e.at;
        } else {
          assert trace[n].now == e.at;
        }
      }
    }
  }

  /** Up to the last packet, a window of seconds that holds it is covered by the one that ends with it. */
  lemma WindowCovered(trace: seq<Attempt>, lo: int, w: nat)
    requires trace != [] && NonDecreasing(trace) && w > 0
    requires lo < trace[|trace| - 1].now <= lo + w
    ensures var now := trace[|trace| - 1].now;
            && Packets(trace, lo, lo + w) <= Packets(trace, now - w, now)
            && Bytes(trace, lo, lo + w) <= Bytes(trace, now - w, now)
  {
    var now := trace[|trace| - 1].now;
    LogsAreOfTrace(trace);
    forall e | e in PacketLog(trace) || e in ByteLog(trace)
      ensures e.at <= now
    {
      var i :| 0 <= i < |trace| && trace[i].now == e.at;
    }
    TotalInMonotone(PacketLog(trace), lo, lo + w, now - w, now);
    TotalInMonotone(ByteLog(trace), lo, lo + w, now - w, now);
  }

  /** Under a non-decreasing clock, no window consecutive seconds let through (limit + 1) * window packets or bytes. */
  lemma {:induction false} RateBound(trace: seq<Attempt>, lim: Limits, lo: int)
    requires NonDecreasing(trace) && lim.window > 0
    ensures AllowedPackets(trace, lim, lo, lo + lim.window) <= (lim.maxPps + 1) * lim.window - 1
    ensures AllowedBytes(trace, lim, lo, lo + lim.window) <= (lim.maxBps + 1) * lim.window - 1
  {
    hide Packets, Bytes, LastAllowed, After;
    var w := lim.window;
    if trace == [] {
      PositiveProduct(lim.maxPps + 1, w);
      PositiveProduct(lim.maxBps + 1, w);
    } else {
      var rest, last := trace[..|trace| - 1], trace[|trace| - 1];
      if LastAllowed(trace, lim) && lo < last.now <= lo + w {
        AllowedAtMostAttempted(trace, lim, lo, lo + w);
        WindowCovered(trace, lo, w);
        RefusedExactly(trace, lim);
      } else {
        RateBound(rest, lim, lo);
      }
    }
  }

  lemma PositiveProduct(a: nat, b: nat)
    requires a > 0 && b > 0
    ensures a * b > 0
  {
  }
}
