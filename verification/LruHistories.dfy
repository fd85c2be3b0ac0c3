/** Theorems over histories that mix every operation of the connection cache. */
module LruHistories {
  import opened Addresses
  import opened ConnTable
  import opened Lists
  import opened LruTheory
  import LruTraces

  /** lru_cache_get or lru_cache_update; lru_cache_remove; lru_cache_cleanup_expired. */
  datatype Op = Access(tuple: ConnTuple, now: int) | Drop(key: TupleKey) | Sweep(now: int)

  function Apply(v: seq<Conn>, op: Op, cap: nat): seq<Conn> {
    match op
    case Access(t, now) => Touch(v, t, now, cap)
    case Drop(x) => Removed(v, x)
    case Sweep(now) => Live(v, now)
  }

  function After(ops: seq<Op>, cap: nat): seq<Conn> {
    if ops == [] then [] else Apply(After(ops[..|ops| - 1], cap), ops[|ops| - 1], cap)
  }

  // ----- clean-up is a filter

  /** The positions of all entries a clean-up keeps, in order. */
  function Kept(v: seq<Conn>, now: int): (at: seq<nat>)
    ensures forall i {:trigger at[i]} :: 0 <= i < |at| ==> at[i] < |v| && !Expired(v[at[i]], now)
    ensures forall i, j {:trigger at[i], at[j]} :: 0 <= i < j < |at| ==> at[i] < at[j]
    ensures forall j {:trigger v[j]} :: 0 <= j < |v| && !Expired(v[j], now) ==> j in at
  {
    if v == [] then []
    else
      var n := |v| - 1;
      var at := Kept(v[..n], now);
      if Expired(v[n], now) then at else at + [n]
  }

  lemma {:induction false} LiveOfMore(v: seq<Conn>, c: Conn, now: int)
    ensures Live(v + [c], now) == Live(v, now) + (if Expired(c, now) then [] else [c])
  {
    if v == [] {
      assert [] + [c] == [c] && [c][1..] == [];
    } else {
      assert (v + [c])[1..] == v[1..] + [c];
      LiveOfMore(v[1..], c, now);
    }
  }

  /** l is what s holds at these positions. */
  ghost predicate Picks<T>(s: seq<T>, l: seq<T>, at: seq<nat>) {
    |l| == |at| && forall i {:trigger l[i]} {:trigger at[i]} :: 0 <= i < |at| ==> at[i] < |s| && l[i] == s[at[i]]
  }

  lemma PicksMore<T>(s: seq<T>, x: T, l: seq<T>, at: seq<nat>)
    requires Picks(s, l, at)
    ensures Picks(s + [x], l, at) && Picks(s + [x], l + [x], at + [|s|])
  {
  }

  lemma KeptMore(v: seq<Conn>, now: int)
    requires v != []
    ensures var n := |v| - 1; Kept(v, now) == Kept(v[..n], now) + if Expired(v[n], now) then [] else [n]
  {
    hide Expired;
  }

  lemma {:induction false} LivePicks(v: seq<Conn>, now: int)
    ensures Picks(v, Live(v, now), Kept(v, now))
  {
    hide Expired, Kept, Live, Picks;
    if v == [] {
      NothingPicked(now);
    } else {
      var n := |v| - 1;
      LivePicks(v[..n], now);
      LiveOfMore(v[..n], v[n], now);
      KeptMore(v, now);
      assert v == v[..n] + [v[n]];
      PicksMore(v[..n], v[n], Live(v[..n], now), Kept(v[..n], now));
      if Expired(v[n], now) {
        assert Live(v, now) == Live(v[..n], now) && Kept(v, now) == Kept(v[..n], now);
      }
    }
  }

  lemma NothingPicked(now: int)
    ensures Picks([], Live([], now), Kept([], now))
  {
  }

  /** A clean-up leaves exactly the entries that have not expired, in the order they had. */
  lemma LivePositions(v: seq<Conn>, now: int)
    ensures |Live(v, now)| == |Kept(v, now)|
    ensures forall i :: 0 <= i < |Kept(v, now)| ==> Live(v, now)[i] == v[Kept(v, now)[i]]
  {
    hide Expired, Live;
    LivePicks(v, now);
  }

  lemma {:induction false} LiveIsAllLive(v: seq<Conn>, now: int)
    ensures forall i :: 0 <= i < |Live(v, now)| ==> !Expired(Live(v, now)[i], now)
    ensures (forall i :: 0 <= i < |v| ==> !Expired(v[i], now)) ==> Live(v, now) == v
  {
    if v != [] {
      LiveIsAllLive(v[1..], now);
      assert v == [v[0]] + v[1..];
    }
  }

  /** What has expired once stays expired, so cleaning early does not change what a later cleaning leaves. */
  lemma {:induction false} CleaningComposes(v: seq<Conn>, t1: int, t2: int)
    requires t1 <= t2
    ensures Live(Live(v, t1), t2) == Live(v, t2)
  {
    if v != [] {
      CleaningComposes(v[1..], t1, t2);
      var head := if Expired(v[0], t1) then [] else [v[0]];
      assert Live(v, t1) == head + Live(v[1..], t1);
      if head != [] {
        assert Live(v, t1)[1..] == Live(v[1..], t1);
      } else {
        assert Live(v, t1) == Live(v[1..], t1);
      }
    }
  }

  /** A second clean-up at the same time finds nothing to do. */
  lemma SecondCleaningIsIdle(v: seq<Conn>, now: int)
    ensures |Live(v, now)| - |Live(Live(v, now), now)| == 0
  {
    CleaningComposes(v, now, now);
  }

  // ----- what every operation keeps

  lemma LiveKeepsDistinct(v: seq<Conn>, now: int)
    requires DistinctKeys(v)
    ensures DistinctKeys(Live(v, now))
  {
    LivePositions(v, now);
  }

  lemma RemovedKeepsDistinct(v: seq<Conn>, x: TupleKey)
    requires DistinctKeys(v)
    ensures DistinctKeys(Removed(v, x))
    ensures IndexOf(Removed(v, x), x) == |Removed(v, x)|
  {
    hide Conn.Key;
    var k := IndexOf(v, x);
    if k < |v| {
      forall i | 0 <= i < |v| - 1
        ensures Without(v, k)[i] == v[if i < k then i else i + 1]
      {
      }
    }
  }

  /** In every reachable state each connection is listed once and the capacity is respected. */
  lemma {:induction false} ReachableInvariant(ops: seq<Op>, cap: nat)
    requires cap > 0
    ensures DistinctKeys(After(ops, cap)) && |After(ops, cap)| <= cap
  {
    if ops != [] {
      var v, op := After(ops[..|ops| - 1], cap), ops[|ops| - 1];
      ReachableInvariant(ops[..|ops| - 1], cap);
      match op
      case Access(t, now) => LruTraces.TouchKeepsDistinct(v, t, now, cap);
      case Drop(x) => RemovedKeepsDistinct(v, x);
      case Sweep(now) => LiveKeepsDistinct(v, now);
    }
  }

  // ----- recency order is time order

  /** From head to tail the entries were last seen earlier and earlier, none of them after now. */
  ghost predicate SortedBySeen(v: seq<Conn>, now: int) {
    && (forall i :: 0 <= i < |v| ==> v[i].lastSeen <= now)
    && (forall i, j :: 0 <= i < j < |v| ==> v[i].lastSeen >= v[j].lastSeen)
  }

  lemma SortedWithout(v: seq<Conn>, k: nat, now: int)
    requires SortedBySeen(v, now) && k < |v|
    ensures SortedBySeen(Without(v, k), now)
  {
    forall i | 0 <= i < |v| - 1
      ensures Without(v, k)[i] == v[if i < k then i else i + 1]
    {
    }
  }

  lemma ApplyKeepsSorted(v: seq<Conn>, op: Op, cap: nat, before: int, now: int)
    requires SortedBySeen(v, before) && before <= now
    requires op.Access? ==> op.now == now
    ensures SortedBySeen(Apply(v, op, cap), now)
  {
    hide ConnTuple.Key, Conn.Key, Live, Touch;
    match op
    case Access(t, _) => TouchKeepsSorted(v, t, cap, before, now);
    case Drop(x) =>
      var k := IndexOf(v, x);
      if k < |v| {
        SortedWithout(v, k, now);
      }
    case Sweep(t) => LiveKeepsSorted(v, t, now);
  }

  lemma TouchKeepsSorted(v: seq<Conn>, t: ConnTuple, cap: nat, before: int, now: int)
    requires SortedBySeen(v, before) && before <= now
    ensures SortedBySeen(Touch(v, t, now, cap), now)
  {
    hide ConnTuple.Key, Conn.Key;
    var k := IndexOf(v, t.Key());
    if k < |v| {
      SortedWithout(v, k, now);
    }
  }

  lemma LiveKeepsSorted(v: seq<Conn>, t: int, now: int)
    requires SortedBySeen(v, now)
    ensures SortedBySeen(Live(v, t), now)
  {
    hide Expired, Live;
    LivePositions(v, t);
  }

  /** The clock at the end of a history. */
  ghost function Clock(ops: seq<Op>, start: int): int {
    if ops == [] then start
    else
      var op := ops[|ops| - 1];
      if op.Drop? then Clock(ops[..|ops| - 1], start) else op.now
  }

  ghost predicate NonDecreasing(ops: seq<Op>, start: int) {
    ops != [] ==>
      NonDecreasing(ops[..|ops| - 1], start) && Clock(ops[..|ops| - 1], start) <= Clock(ops, start)
  }

  /** Under a non-decreasing clock the list is sorted by last_seen in every reachable state. */
  lemma {:induction false} ReachableSorted(ops: seq<Op>, cap: nat, start: int)
    requires NonDecreasing(ops, start)
    ensures SortedBySeen(After(ops, cap), Clock(ops, start))
  {
    if ops != [] {
      var rest := ops[..|ops| - 1];
      ReachableSorted(rest, cap, start);
      ApplyKeepsSorted(After(rest, cap), ops[|ops| - 1], cap, Clock(rest, start), Clock(ops, start));
    }
  }

  /** Among entries with the same timeout the expired ones are those nearest the tail. */
  lemma ExpiredNearestTail(v: seq<Conn>, now: int, i: nat, j: nat, later: int)
    requires SortedBySeen(v, now) && i < j < |v|
    requires Timeout(v[i].tuple.protocol, v[i].state) == Timeout(v[j].tuple.protocol, v[j].state)
    ensures Expired(v[i], later) ==> Expired(v[j], later)
  {
  }

  /** In every reachable cache, under a non-decreasing clock: if an entry has expired, so has every entry with
      the same timeout behind it. */
  lemma ReachableExpiredNearestTail(ops: seq<Op>, cap: nat, start: int, i: nat, j: nat, later: int)
    requires NonDecreasing(ops, start) && i < j < |After(ops, cap)|
    requires var v := After(ops, cap);
             Timeout(v[i].tuple.protocol, v[i].state) == Timeout(v[j].tuple.protocol, v[j].state)
    ensures Expired(After(ops, cap)[i], later) ==> Expired(After(ops, cap)[j], later)
  {
    hide After, Timeout;
    ReachableSorted(ops, cap, start);
    ExpiredNearestTail(After(ops, cap), Clock(ops, start), i, j, later);
  }

  // ----- inclusion: a larger cache contains a smaller one

  /** The smaller cache is a prefix of the larger one, entry by entry. */
  ghost predicate Nested(a: seq<Conn>, b: seq<Conn>) {
    && |a| <= |b|
    && (forall i {:trigger a[i]} {:trigger b[i]} :: 0 <= i < |a| ==> a[i].Key() == b[i].Key() && a[i].lastSeen == b[i].lastSeen)
  }

  /** No caller has touched the entries: they are in the state they were created in. */
  ghost predicate AllClosed(v: seq<Conn>) {
    forall i {:trigger v[i]} :: 0 <= i < |v| ==> v[i].state == Closed
  }

  lemma IndexInPrefix(a: seq<Conn>, b: seq<Conn>, x: TupleKey)
    requires Nested(a, b)
    ensures if IndexOf(a, x) < |a| then IndexOf(b, x) == IndexOf(a, x) else IndexOf(b, x) >= |a|
  {
    hide Conn.Key;
    var k, m := IndexOf(a, x), IndexOf(b, x);
    if k < |a| {
      assert a[k].Key() == b[k].Key() == x;
    }
    assert m < |a| ==> a[m].Key() == b[m].Key();
  }

  lemma NestedCons(p: Conn, q: Conn, a: seq<Conn>, b: seq<Conn>)
    requires Nested(a, b) && p.Key() == q.Key() && p.lastSeen == q.lastSeen
    ensures Nested([p] + a, [q] + b)
  {
    hide Conn.Key;
    forall i | 0 <= i <= |a|
      ensures ([p] + a)[i].Key() == ([q] + b)[i].Key() && ([p] + a)[i].lastSeen == ([q] + b)[i].lastSeen
    {
      if i > 0 {
        assert ([p] + a)[i] == a[i - 1] && ([q] + b)[i] == b[i - 1];
      }
    }
  }

  lemma NestedCut(a: seq<Conn>, b: seq<Conn>, c: nat, c': nat)
    requires Nested(a, b) && (c <= c' || |b| <= c')
    ensures Nested(Prefix(a, c), Prefix(b, c'))
  {
    hide Conn.Key;
  }

  lemma NestedWithout(a: seq<Conn>, b: seq<Conn>, k: nat, m: nat)
    requires Nested(a, b) && m < |b|
    requires if k < |a| then m == k else m >= |a|
    ensures Nested(if k < |a| then Without(a, k) else a, Without(b, m))
  {
    hide Conn.Key;
    WithoutAt(b, m);
    if k < |a| {
      WithoutAt(a, k);
    }
  }

  lemma NestedTouch(a: seq<Conn>, b: seq<Conn>, t: ConnTuple, now: int, c: nat, c': nat)
    requires Nested(a, b) && |a| <= c <= c' && |b| <= c' && c > 0
    ensures Nested(Touch(a, t, now, c), Touch(b, t, now, c'))
  {
    hide Conn.Key, ConnTuple.Key, Nested;
    var k, m, f := IndexOf(a, t.Key()), IndexOf(b, t.Key()), Fresh(t, now);
    IndexInPrefix(a, b, t.Key());
    NestedLength(a, b);
    FreshKey(t, now);
    if m < |b| {
      NestedWithout(a, b, k, m);
      StampedKey(b[m], now);
      if k < |a| {
        StampedKey(a[k], now);
        NestedCons(a[k].(lastSeen := now), b[m].(lastSeen := now), Without(a, k), Without(b, m));
      } else {
        NestedCons(f, b[m].(lastSeen := now), a, Without(b, m));
        NestedCut([f] + a, [b[m].(lastSeen := now)] + Without(b, m), c, c');
      }
    } else {
      NestedCons(f, f, a, b);
      NestedCut([f] + a, [f] + b, c, c');
    }
  }

  lemma NestedLength(a: seq<Conn>, b: seq<Conn>)
    requires Nested(a, b)
    ensures |a| <= |b|
  {
  }

  lemma FreshKey(t: ConnTuple, now: int)
    ensures Fresh(t, now).Key() == t.Key()
  {
  }

  lemma StampedKey(c: Conn, now: int)
    ensures c.(lastSeen := now).Key() == c.Key()
  {
  }

  lemma NestedRemoved(a: seq<Conn>, b: seq<Conn>, x: TupleKey)
    requires Nested(a, b)
    ensures Nested(Removed(a, x), Removed(b, x))
  {
    var k, m := IndexOf(a, x), IndexOf(b, x);
    IndexInPrefix(a, b, x);
    if m < |b| {
      NestedWithout(a, b, k, m);
    }
  }

  lemma {:induction false} NestedLive(a: seq<Conn>, b: seq<Conn>, now: int)
    requires Nested(a, b) && AllClosed(a) && AllClosed(b)
    ensures Nested(Live(a, now), Live(b, now))
  {
    hide Conn.Key;
    if a != [] {
      assert a[0].Key() == b[0].Key() && a[0].lastSeen == b[0].lastSeen;
      SameTimeout(a[0], b[0], now);
      forall i | 0 <= i < |a| - 1
        ensures a[1..][i].Key() == b[1..][i].Key() && a[1..][i].lastSeen == b[1..][i].lastSeen
      {
        assert a[1..][i] == a[i + 1] && b[1..][i] == b[i + 1];
      }
      NestedLive(a[1..], b[1..], now);
    }
  }

  lemma SameTimeout(a: Conn, b: Conn, now: int)
    requires a.Key() == b.Key() && a.lastSeen == b.lastSeen && a.state == b.state
    ensures Expired(a, now) == Expired(b, now)
  {
  }

  lemma ApplyKeepsClosed(v: seq<Conn>, op: Op, cap: nat)
    requires AllClosed(v)
    ensures AllClosed(Apply(v, op, cap))
  {
    hide Conn.Key, ConnTuple.Key;
    match op
    case Access(t, now) =>
      var k := IndexOf(v, t.Key());
      if k < |v| {
        WithoutAt(v, k);
      }
    case Drop(x) =>
      var k := IndexOf(v, x);
      if k < |v| {
        WithoutAt(v, k);
      }
    case Sweep(now) =>
      LivePositions(v, now);
  }

  lemma {:induction false} ReachableClosed(ops: seq<Op>, cap: nat)
    ensures AllClosed(After(ops, cap))
  {
    if ops != [] {
      ReachableClosed(ops[..|ops| - 1], cap);
      ApplyKeepsClosed(After(ops[..|ops| - 1], cap), ops[|ops| - 1], cap);
    }
  }

  /** The same history on two caches: after every step the entries of the smaller one are the most recent
      entries of the larger one. The operations of the cache never write the state of an entry; where the TCP
      rules do, an entry the smaller cache lost and readmitted is CLOSED there and may be cleaned earlier. */
  lemma {:induction false} Inclusion(ops: seq<Op>, c: nat, c': nat)
    requires 0 < c <= c'
    ensures Nested(After(ops, c), After(ops, c'))
  {
    if ops != [] {
      var rest, op := ops[..|ops| - 1], ops[|ops| - 1];
      var a, b := After(rest, c), After(rest, c');
      Inclusion(rest, c, c');
      ReachableInvariant(rest, c);
      ReachableInvariant(rest, c');
      match op
      case Access(t, now) => NestedTouch(a, b, t, now, c, c');
      case Drop(x) => NestedRemoved(a, b, x);
      case Sweep(now) =>
        ReachableClosed(rest, c);
        ReachableClosed(rest, c');
        NestedLive(a, b, now);
    }
  }

  /** A connection the smaller cache knows, the larger cache knows too. */
  lemma HitInBoth(ops: seq<Op>, c: nat, c': nat, x: TupleKey)
    requires 0 < c <= c'
    requires IndexOf(After(ops, c), x) < |After(ops, c)|
    ensures IndexOf(After(ops, c'), x) == IndexOf(After(ops, c), x)
  {
    Inclusion(ops, c, c');
    IndexInPrefix(After(ops, c), After(ops, c'), x);
  }
}
