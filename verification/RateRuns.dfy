/** Interleaved histories of many sources: what one source gets does not depend on the others. */
module RateRuns {
  import opened RateTheory

  /** rate_limiter_allow and rate_limiter_reset */
  datatype Op<K> = Packet(key: K, size: nat, now: int) | Reset(key: K)

  function Next<K>(st: map<K, Source>, op: Op<K>): map<K, Source> {
    match op
    case Packet(x, size, now) => st[x := Counted(if x in st then st[x] else FirstSeen(now), size, now)]
    case Reset(x) => st - {x}
  }

  function State<K>(ops: seq<Op<K>>): map<K, Source> {
    if ops == [] then map[] else Next(State(ops[..|ops| - 1]), ops[|ops| - 1])
  }

  /** The answer to the last operation of a history, a packet. */
  predicate LastVerdict<K(==)>(ops: seq<Op<K>>, lim: Limits)
    requires ops != [] && ops[|ops| - 1].Packet? && lim.window > 0
  {
    var op := ops[|ops| - 1];
    Allowed(State(ops)[op.key], lim, op.now)
  }

  /** All answers given to source x, in order. */
  function Verdicts<K(==)>(ops: seq<Op<K>>, lim: Limits, x: K): seq<bool>
    requires lim.window > 0
  {
    if ops == [] then []
    else
      var op := ops[|ops| - 1];
      Verdicts(ops[..|ops| - 1], lim, x) + if op.Packet? && op.key == x then [LastVerdict(ops, lim)] else []
  }

  /** The history with everything left out that does not concern source x. */
  function Only<K(==)>(ops: seq<Op<K>>, x: K): seq<Op<K>> {
    if ops == [] then []
    else Only(ops[..|ops| - 1], x) + if ops[|ops| - 1].key == x then [ops[|ops| - 1]] else []
  }

  /** The packets of source x since it was last reset. */
  function TraceOf<K(==)>(ops: seq<Op<K>>, x: K): seq<Attempt> {
    if ops == [] then []
    else
      var op := ops[|ops| - 1];
      var before := TraceOf(ops[..|ops| - 1], x);
      if op.key != x then before
      else if op.Packet? then before + [Attempt(op.size, op.now)]
      else []
  }

  lemma {:induction false} StateIsTrace<K>(ops: seq<Op<K>>, x: K)
    ensures x in State(ops) <==> TraceOf(ops, x) != []
    ensures x in State(ops) ==> State(ops)[x] == After(TraceOf(ops, x))
  {
    if ops != [] {
      var rest, op := ops[..|ops| - 1], ops[|ops| - 1];
      StateIsTrace(rest, x);
      if op.Packet? && op.key == x {
        assert TraceOf(ops, x)[..|TraceOf(ops, x)| - 1] == TraceOf(rest, x);
      }
    }
  }

  lemma VerdictIsOnTrace<K>(ops: seq<Op<K>>, lim: Limits, x: K)
    requires ops != [] && ops[|ops| - 1].Packet? && ops[|ops| - 1].key == x && lim.window > 0
    ensures TraceOf(ops, x) != [] && TraceOf(ops, x)[|TraceOf(ops, x)| - 1].now == ops[|ops| - 1].now
    ensures LastVerdict(ops, lim) == LastAllowed(TraceOf(ops, x), lim)
  {
    StateIsTrace(ops, x);
  }

  lemma {:induction false} TraceOfOnly<K>(ops: seq<Op<K>>, x: K)
    ensures TraceOf(Only(ops, x), x) == TraceOf(ops, x)
  {
    if ops != [] {
      var rest, op := ops[..|ops| - 1], ops[|ops| - 1];
      TraceOfOnly(rest, x);
      if op.key == x {
        assert Only(ops, x)[..|Only(ops, x)| - 1] == Only(rest, x);
      } else {
        assert Only(ops, x) == Only(rest, x);
      }
    }
  }

  /** Isolation: replaying only its own packets and resets gives a source the same verdicts. */
  lemma {:induction false} Isolation<K>(ops: seq<Op<K>>, lim: Limits, x: K)
    requires lim.window > 0
    ensures Verdicts(Only(ops, x), lim, x) == Verdicts(ops, lim, x)
  {
    if ops != [] {
      var rest, op := ops[..|ops| - 1], ops[|ops| - 1];
      Isolation(rest, lim, x);
      if op.key == x {
        assert Only(ops, x)[..|Only(ops, x)| - 1] == Only(rest, x);
        if op.Packet? {
          TraceOfOnly(ops, x);
          VerdictIsOnTrace(ops, lim, x);
          VerdictIsOnTrace(Only(ops, x), lim, x);
        }
      } else {
        assert Only(ops, x) == Only(rest, x);
      }
    }
  }

  /** After a reset the next packet of the source is judged like a first sighting, and no other source notices. */
  lemma ResetForgets<K>(ops: seq<Op<K>>, lim: Limits, x: K, size: nat, now: int)
    requires lim.window > 0
    ensures LastVerdict(ops + [Reset(x), Packet(x, size, now)], lim) == LastVerdict([Packet(x, size, now)], lim)
    ensures State(ops + [Reset(x)]) == State(ops) - {x}
  {
    var first: Op<K> := Packet(x, size, now);
    var reset := ops + [Reset(x)];
    var all := ops + [Reset(x), first];
    assert reset[..|ops|] == ops && all[..|ops| + 1] == reset;
    assert [first][..0] == [];
    assert State(all)[x] == Counted(FirstSeen(now), size, now) == State([first])[x];
  }

  /** Packets, and bytes, of source x let through in the seconds lo < s <= hi of an interleaved history. */
  function PassedPackets<K(==)>(ops: seq<Op<K>>, lim: Limits, x: K, lo: int, hi: int): nat
    requires lim.window > 0
  {
    if ops == [] then 0
    else
      var op := ops[|ops| - 1];
      PassedPackets(ops[..|ops| - 1], lim, x, lo, hi)
      + if op.Packet? && op.key == x && lo < op.now <= hi && LastVerdict(ops, lim) then 1 else 0
  }

  function PassedBytes<K(==)>(ops: seq<Op<K>>, lim: Limits, x: K, lo: int, hi: int): nat
    requires lim.window > 0
  {
    if ops == [] then 0
    else
      var op := ops[|ops| - 1];
      PassedBytes(ops[..|ops| - 1], lim, x, lo, hi)
      + if op.Packet? && op.key == x && lo < op.now <= hi && LastVerdict(ops, lim) then op.size else 0
  }

  lemma {:induction false} PassedIsAllowed<K>(ops: seq<Op<K>>, lim: Limits, x: K, lo: int, hi: int)
    requires lim.window > 0 && Reset(x) !in ops
    ensures PassedPackets(ops, lim, x, lo, hi) == AllowedPackets(TraceOf(ops, x), lim, lo, hi)
    ensures PassedBytes(ops, lim, x, lo, hi) == AllowedBytes(TraceOf(ops, x), lim, lo, hi)
  {
    if ops != [] {
      var rest, op := ops[..|ops| - 1], ops[|ops| - 1];
      PassedIsAllowed(rest, lim, x, lo, hi);
      assert op in ops;
      if op.key == x {
        VerdictIsOnTrace(ops, lim, x);
        assert TraceOf(ops, x)[..|TraceOf(ops, x)| - 1] == TraceOf(rest, x);
      }
    }
  }

  /** The clock never runs backwards between two packets of source x. */
  ghost predicate ClockFor<K(!new)>(ops: seq<Op<K>>, x: K) {
    forall i, j :: 0 <= i < j < |ops| && ops[i].Packet? && ops[j].Packet? && ops[i].key == ops[j].key == x ==>
      ops[i].now <= ops[j].now
  }

  lemma {:induction false} TraceIsInHistory<K>(ops: seq<Op<K>>, x: K)
    ensures forall a :: a in TraceOf(ops, x) ==> Packet(x, a.size, a.now) in ops
  {
    if ops != [] {
      TraceIsInHistory(ops[..|ops| - 1], x);
    }
  }

  lemma {:induction false} ClockOfTrace<K(!new)>(ops: seq<Op<K>>, x: K)
    requires ClockFor(ops, x)
    ensures NonDecreasing(TraceOf(ops, x))
  {
    if ops != [] {
      var rest, n := ops[..|ops| - 1], |ops| - 1;
      ClockOfTrace(rest, x);
      TraceIsInHistory(rest, x);
      forall a | a in TraceOf(rest, x) && ops[n].Packet? && ops[n].key == x
        ensures a.now <= ops[n].now
      {
        var i :| 0 <= i < n && rest[i] == Packet(x, a.size, a.now);
        assert ops[i].now == a.now;
      }
    }
  }

  /** In any interleaved history without a reset of x, whatever the other sources do, no window
      consecutive seconds let (limit + 1) * window packets or bytes of x through. */
  lemma SourceBound<K(!new)>(ops: seq<Op<K>>, lim: Limits, x: K, lo: int)
    requires lim.window > 0 && Reset(x) !in ops && ClockFor(ops, x)
    ensures PassedPackets(ops, lim, x, lo, lo + lim.window) <= (lim.maxPps + 1) * lim.window - 1
    ensures PassedBytes(ops, lim, x, lo, lo + lim.window) <= (lim.maxBps + 1) * lim.window - 1
  {
    ClockOfTrace(ops, x);
    PassedIsAllowed(ops, lim, x, lo, lo + lim.window);
    RateBound(TraceOf(ops, x), lim, lo);
  }
}
