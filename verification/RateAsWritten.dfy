/** The rate limiter with its chain links where src/filter/ratelimit.c puts them. A new entry's link to the
    old head of its bucket is stored in pps_window, over the window that was just created, so the packets of
    a source that is alone in its bucket are never counted; RateTheory has separate links. */
module RateAsWritten {
  import opened Lists
  import opened Options
  import opened SlidingWindows
  import opened RateTheory

  // ----- an entry, and what its packets are judged by

  /** sliding_window_add: nothing happens without a window. */
  method AddTo(sw: SlidingWindow?, value: nat, now: int)
    requires sw != null ==> sw.Valid()
    modifies if sw == null then {} else {sw, sw.buckets}
    ensures sw != null ==>
              sw.Valid() && sw.windowStart == (if now > old(sw.windowStart) then now else old(sw.windowStart))
              && sw.log == old(sw.log) + [Event(sw.windowStart, value)]
  {
    if sw != null {
      sw.Add(value, now);
    }
  }

  /** sliding_window_sum: 0 without a window. */
  method SumFrom(sw: SlidingWindow?, now: int) returns (sum: nat)
    requires sw != null ==> sw.Valid()
    ensures sum == if sw == null then 0 else WindowSum(sw.log, sw.windowStart, sw.size, now)
  {
    if sw == null {
      return 0;
    }
    sum := sw.WindowTotal(now);
  }

  /** What such an entry remembers: its bytes. */
  datatype Lone = Lone(start: int, bytes: seq<Event>)

  function Heard(s: Lone, size: nat, now: int): Lone {
    var at := if now > s.start then now else s.start;
    Lone(at, s.bytes + [Event(at, size)])
  }

  predicate Admitted(s: Lone, lim: Limits, now: int)
    requires lim.window > 0
  {
    WindowSum(s.bytes, s.start, lim.window, now) / lim.window <= lim.maxBps
  }

  /** The entry of a source that found its bucket empty. */
  class LoneEntry {
    var ppsWindow: SlidingWindow?
    const bpsWindow: SlidingWindow

    ghost predicate Valid(window: nat)
      reads this, bpsWindow, bpsWindow.buckets
    {
      ppsWindow == null && bpsWindow.size == window > 0 && bpsWindow.Valid()
    }

    ghost function Memory(): Lone
      reads bpsWindow
    {
      Lone(bpsWindow.windowStart, bpsWindow.log)
    }

    /** get_or_create_entry: the created window is lost to the link, the head of an empty bucket. */
    constructor (window: nat, now: int)
      requires window > 0
      ensures Valid(window) && Memory() == Lone(now, [])
      ensures fresh(bpsWindow) && fresh(bpsWindow.buckets)
    {
      var created := new SlidingWindow(window, now);
      ppsWindow := created;
      bpsWindow := new SlidingWindow(window, now);
      new;
      ppsWindow := null;
    }

    /** rate_limiter_allow on this entry */
    method Judge(size: nat, now: int, lim: Limits) returns (allowed: bool)
      requires Valid(lim.window)
      modifies bpsWindow, bpsWindow.buckets
      ensures Valid(lim.window) && Memory() == Heard(old(Memory()), size, now)
      ensures allowed == Admitted(Memory(), lim, now)
    {
      hide SlidingWindow.Tracks, WindowSum;
      AddTo(ppsWindow, 1, now);
      AddTo(bpsWindow, size, now);
      var packets := SumFrom(ppsWindow, now);
      var bytes := SumFrom(bpsWindow, now);
      allowed := packets / lim.window <= lim.maxPps && bytes / lim.window <= lim.maxBps;
    }
  }

  // ----- whole traces of one source

  /** The entry after a trace. */
  function Remembered(trace: seq<Attempt>): Lone
    requires trace != []
  {
    var a := trace[|trace| - 1];
    Heard(if |trace| == 1 then Lone(a.now, []) else Remembered(trace[..|trace| - 1]), a.size, a.now)
  }

  predicate LastAdmitted(trace: seq<Attempt>, lim: Limits)
    requires trace != [] && lim.window > 0
  {
    Admitted(Remembered(trace), lim, trace[|trace| - 1].now)
  }

  lemma {:induction false} RemembersBytes(trace: seq<Attempt>)
    requires trace != []
    ensures Remembered(trace) == Lone(After(trace).start, After(trace).bytes)
  {
    if |trace| > 1 {
      RemembersBytes(trace[..|trace| - 1]);
    }
  }

  /** As written a packet is refused exactly for its bytes; the packet limit is not looked at. */
  lemma AdmittedExactly(trace: seq<Attempt>, lim: Limits)
    requires trace != [] && NonDecreasing(trace) && lim.window > 0
    ensures var now, w := trace[|trace| - 1].now, lim.window;
            LastAdmitted(trace, lim) <==> Bytes(trace, now - w, now) < (lim.maxBps + 1) * w
  {
    hide PacketLog, ByteLog, TotalIn, After, Remembered;
    var now, w := trace[|trace| - 1].now, lim.window;
    RemembersBytes(trace);
    AfterIsLog(trace);
    DivideBelow(Bytes(trace, now - w, now), w, lim.maxBps);
  }

  /** The verdict differs from the intended one exactly when the bytes are within their limit and the
      packets are not. */
  lemma DiffersExactly(trace: seq<Attempt>, lim: Limits)
    requires trace != [] && NonDecreasing(trace) && lim.window > 0
    ensures var now, w := trace[|trace| - 1].now, lim.window;
            LastAdmitted(trace, lim) != LastAllowed(trace, lim) <==>
              Bytes(trace, now - w, now) < (lim.maxBps + 1) * w && Packets(trace, now - w, now) >= (lim.maxPps + 1) * w
  {
    hide PacketLog, ByteLog, TotalIn, After, Remembered;
    AdmittedExactly(trace, lim);
    RefusedExactly(trace, lim);
  }

  /** Packets, and bytes, let through in the seconds lo < s <= hi. */
  function AdmittedPackets(trace: seq<Attempt>, lim: Limits, lo: int, hi: int): nat
    requires lim.window > 0
  {
    if trace == [] then 0
    else
      AdmittedPackets(trace[..|trace| - 1], lim, lo, hi)
      + if LastAdmitted(trace, lim) && lo < trace[|trace| - 1].now <= hi then 1 else 0
  }

  function AdmittedBytes(trace: seq<Attempt>, lim: Limits, lo: int, hi: int): nat
    requires lim.window > 0
  {
    if trace == [] then 0
    else
      AdmittedBytes(trace[..|trace| - 1], lim, lo, hi)
      + if LastAdmitted(trace, lim) && lo < trace[|trace| - 1].now <= hi then trace[|trace| - 1].size else 0
  }

  lemma {:induction false} AdmittedAtMostAttempted(trace: seq<Attempt>, lim: Limits, lo: int, hi: int)
    requires lim.window > 0
    ensures AdmittedBytes(trace, lim, lo, hi) <= Bytes(trace, lo, hi)
  {
    hide LastAdmitted;
    if trace != [] {
      AdmittedAtMostAttempted(trace[..|trace| - 1], lim, lo, hi);
      assert ByteLog(trace)[..|ByteLog(trace)| - 1] == ByteLog(trace[..|trace| - 1]);
    }
  }

  /** The bound on bytes holds as written. */
  lemma {:induction false} ByteBound(trace: seq<Attempt>, lim: Limits, lo: int)
    requires NonDecreasing(trace) && lim.window > 0
    ensures AdmittedBytes(trace, lim, lo, lo + lim.window) <= (lim.maxBps + 1) * lim.window - 1
  {
    hide Bytes, LastAdmitted;
    var w := lim.window;
    PositiveProduct(lim.maxBps + 1, w);
    if trace != [] {
      if LastAdmitted(trace, lim) && lo < trace[|trace| - 1].now <= lo + w {
        AdmittedAtMostAttempted(trace, lim, lo, lo + w);
        WindowCovered(trace, lo, w);
        AdmittedExactly(trace, lim);
      } else {
        ByteBound(trace[..|trace| - 1], lim, lo);
      }
    }
  }

  // ----- the bound on packets

  ghost predicate AtLeast(trace: seq<Attempt>, s: nat) {
    forall i {:trigger trace[i]} :: 0 <= i < |trace| ==> trace[i].size >= s
  }

  lemma {:induction false} BytesPerPacket(trace: seq<Attempt>, lim: Limits, lo: int, hi: int, s: nat)
    requires lim.window > 0 && AtLeast(trace, s)
    ensures s * AdmittedPackets(trace, lim, lo, hi) <= AdmittedBytes(trace, lim, lo, hi)
  {
    hide LastAdmitted;
    if trace != [] {
      assert trace[|trace| - 1].size >= s;
      BytesPerPacket(trace[..|trace| - 1], lim, lo, hi, s);
      OneMore(s, AdmittedPackets(trace[..|trace| - 1], lim, lo, hi));
    }
  }

  lemma OneMore(s: nat, n: nat)
    ensures s * (n + 1) == s * n + s
  {
  }

  /** n packets of s bytes in second 1. */
  function Burst(n: nat, s: nat): (trace: seq<Attempt>)
    ensures |trace| == n && forall i :: 0 <= i < n ==> trace[i] == Attempt(s, 1)
  {
    if n == 0 then [] else Burst(n - 1, s) + [Attempt(s, 1)]
  }

  lemma {:induction false} BurstBytes(n: nat, s: nat, w: nat)
    requires w > 0
    ensures Bytes(Burst(n, s), 1 - w, 1) == s * n
  {
    if n > 0 {
      BurstBytes(n - 1, s, w);
      var log := ByteLog(Burst(n, s));
      assert Burst(n, s)[..n - 1] == Burst(n - 1, s);
      assert log[..|log| - 1] == ByteLog(Burst(n - 1, s));
      OneMore(s, n - 1);
    }
  }

  /** A burst whose bytes fit passes as a whole. */
  lemma {:induction false} BurstPasses(n: nat, s: nat, lim: Limits)
    requires lim.window > 0 && s * n < (lim.maxBps + 1) * lim.window
    ensures AdmittedPackets(Burst(n, s), lim, 0, lim.window) == n
  {
    hide Bytes, LastAdmitted;
    if n > 0 {
      var b := Burst(n, s);
      assert b[..n - 1] == Burst(n - 1, s);
      OneMore(s, n - 1);
      BurstPasses(n - 1, s, lim);
      BurstBytes(n, s, lim.window);
      AdmittedExactly(b, lim);
    }
  }

  /** No trace of packets of at least s bytes lets more than p of them through in a window. */
  ghost predicate NeverMoreThan(lim: Limits, s: nat, p: int)
    requires lim.window > 0
  {
    forall trace, lo :: NonDecreasing(trace) && AtLeast(trace, s) ==> WindowPackets(trace, lim, lo) <= p
  }

  function WindowPackets(trace: seq<Attempt>, lim: Limits, lo: int): nat
    requires lim.window > 0
  {
    AdmittedPackets(trace, lim, lo, lo + lim.window)
  }

  /** n packets of s bytes fit into b bytes exactly when n is at most the quotient. */
  lemma FitExactly(n: nat, s: nat, b: nat)
    requires s > 0
    ensures s * n <= b <==> n <= b / s
  {
    var q, r := b / s, b % s;
    assert b == s * q + r;
    if n <= q {
      assert s * n <= s * q;
    } else {
      assert s * n >= s * (q + 1) == s * q + s;
    }
  }

  lemma FewFit(trace: seq<Attempt>, lim: Limits, lo: int, s: nat, p: nat)
    requires lim.window > 0 && NonDecreasing(trace) && AtLeast(trace, s)
    requires s > 0 && (lim.maxBps + 1) * lim.window >= 1 && ((lim.maxBps + 1) * lim.window - 1) / s <= p
    ensures AdmittedPackets(trace, lim, lo, lo + lim.window) <= p
  {
    hide AdmittedPackets, AdmittedBytes, NonDecreasing, AtLeast;
    ByteBound(trace, lim, lo);
    BytesPerPacket(trace, lim, lo, lo + lim.window, s);
    FitExactly(AdmittedPackets(trace, lim, lo, lo + lim.window), s, (lim.maxBps + 1) * lim.window - 1);
  }

  lemma ManyFit(lim: Limits, s: nat, p: nat)
    requires lim.window > 0 && (lim.maxBps + 1) * lim.window >= 1
    requires s == 0 || ((lim.maxBps + 1) * lim.window - 1) / s > p
    ensures NonDecreasing(Burst(p + 1, s)) && AtLeast(Burst(p + 1, s), s)
    ensures AdmittedPackets(Burst(p + 1, s), lim, 0, lim.window) == p + 1
  {
    hide AdmittedPackets, Burst;
    if s > 0 {
      FitExactly(p + 1, s, (lim.maxBps + 1) * lim.window - 1);
    }
    BurstPasses(p + 1, s, lim);
    BurstInOrder(p + 1, s);
  }

  /** As written, the bound on packets holds exactly when the bound on bytes implies it: when no packet is
      smaller than s > 0 bytes and so many packets of s bytes do not fit into a window. */
  lemma PacketBoundExactly(lim: Limits, s: nat)
    requires lim.window > 0
    ensures NeverMoreThan(lim, s, (lim.maxPps + 1) * lim.window - 1) <==>
            s > 0 && ((lim.maxBps + 1) * lim.window - 1) / s <= (lim.maxPps + 1) * lim.window - 1
  {
    hide AdmittedPackets, NonDecreasing, AtLeast, Burst;
    PositiveProduct(lim.maxBps + 1, lim.window);
    PositiveProduct(lim.maxPps + 1, lim.window);
    var p: nat := (lim.maxPps + 1) * lim.window - 1;
    if s > 0 && ((lim.maxBps + 1) * lim.window - 1) / s <= p {
      forall trace, lo | NonDecreasing(trace) && AtLeast(trace, s)
        ensures WindowPackets(trace, lim, lo) <= p
      {
        FewFit(trace, lim, lo, s, p);
      }
    } else {
      ManyFit(lim, s, p);
      assert WindowPackets(Burst(p + 1, s), lim, 0) == p + 1;
    }
  }

  lemma BurstInOrder(n: nat, s: nat)
    ensures NonDecreasing(Burst(n, s)) && AtLeast(Burst(n, s), s)
  {
  }

  /** At one packet a second, the second of two packets in one second should be refused; both pass. */
  lemma TwoPacketsPass(two: nat, size: nat, lim: Limits)
    requires two == 2 && lim.window == 1 && lim.maxPps == 1 && 2 * size <= lim.maxBps
    ensures AdmittedPackets(Burst(two, size), lim, 0, lim.window) == 2
    ensures AllowedPackets(Burst(two, size), lim, 0, lim.window) <= 1
  {
    hide AdmittedPackets, AllowedPackets, AllowedBytes, Burst, NonDecreasing;
    OneSecond(two, size, lim);
    BurstPasses(two, size, lim);
    BurstInOrder(two, size);
    RateBound(Burst(two, size), lim, 0);
  }

  lemma OneSecond(two: nat, size: nat, lim: Limits)
    requires two == 2 && lim.window == 1 && lim.maxPps == 1 && 2 * size <= lim.maxBps
    ensures size * two < (lim.maxBps + 1) * lim.window && (lim.maxPps + 1) * lim.window == 2
  {
  }

  // ----- a shared bucket

  /** The sources of one bucket, head first, and those whose entry has not been destroyed. */
  datatype Bucket<K> = Bucket(chain: seq<K>, alive: set<K>)

  function Position<K(==)>(chain: seq<K>, x: K): (k: nat)
    ensures k <= |chain| && (k < |chain| ==> chain[k] == x)
    ensures forall j :: 0 <= j < k ==> chain[j] != x
  {
    if chain == [] || chain[0] == x then 0 else 1 + Position(chain[1..], x)
  }

  /** Whose entry an entry takes for its packet window: that of the source behind it. */
  function PacketWindowOf<K(==)>(b: Bucket<K>, x: K): Option<K> {
    At(b.chain, Position(b.chain, x) + 1)
  }

  /** A source has no packet window exactly when it is absent or the last of its chain, the first its bucket
      saw; any other source has the entry of a different source in its place. */
  lemma PacketWindowExactly<K>(b: Bucket<K>, x: K)
    requires NoRepeats(b.chain)
    ensures PacketWindowOf(b, x) == None <==> Position(b.chain, x) >= |b.chain| - 1
    ensures PacketWindowOf(b, x).Some? ==> PacketWindowOf(b, x).value in b.chain && PacketWindowOf(b, x).value != x
  {
    var k := Position(b.chain, x);
    if k + 1 < |b.chain| {
      assert b.chain[k] != b.chain[k + 1];
    }
  }

  /** rate_limiter_reset: the entry is unlinked, and what its pps_window leads to is destroyed with it. */
  function Reset<K(==)>(b: Bucket<K>, x: K): Bucket<K> {
    var k := Position(b.chain, x);
    if k < |b.chain| then
      Bucket(Without(b.chain, k), b.alive - {x} - match PacketWindowOf(b, x) case None => {} case Some(y) => {y})
    else b
  }

  /** A reset leaves no destroyed entry in the bucket exactly when the source is absent or the last of its
      chain; otherwise the entry behind it is destroyed while the chain still leads to it. */
  lemma ResetSparesExactly<K>(b: Bucket<K>, x: K)
    requires NoRepeats(b.chain) && forall y :: y in b.chain ==> y in b.alive
    ensures (forall y :: y in Reset(b, x).chain ==> y in Reset(b, x).alive) <==> Position(b.chain, x) >= |b.chain| - 1
  {
    var k, after := Position(b.chain, x), Reset(b, x);
    if k < |b.chain| {
      NoRepeatsWithout(b.chain, k);
      if k + 1 < |b.chain| {
        assert after.chain[k] == b.chain[k + 1];
        assert b.chain[k + 1] in after.chain && b.chain[k + 1] !in after.alive;
      }
    }
  }

  /** Two sources in one bucket: the reset of the newer one destroys the entry of the older one. */
  lemma ResetDestroysNeighbour<K>(newer: K, older: K)
    requires newer != older
    ensures var after := Reset(Bucket([newer, older], {newer, older}), newer);
            after.chain == [older] && older !in after.alive
  {
    assert Position([newer, older], newer) == 0;
  }
}
