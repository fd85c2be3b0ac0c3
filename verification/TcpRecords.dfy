/** Theorems over whole runs of the TCP rules: what the record of a tracked connection counts,
    and how a connection stops being tracked. */
module TcpRecords {
  import opened Addresses
  import opened ConnTable
  import opened LruRecords
  import opened LruTheory
  import opened Options
  import opened TcpRuns
  import opened TcpTheory
  import TcpTracking

  // ----- what a packet does to the list

  /** The first packet of a connection: its entry counts this packet and nothing else. */
  ghost predicate FirstPacket(v: seq<Conn>, w: seq<Conn>, p: Packet, t: Clocks, cap: nat) {
    && |w| == (if |v| < cap then |v| + 1 else cap) && w != []
    && w[0] == Conn(p.Tuple(), NextState(Closed, KindOf(p.flags)), t.get, t.now, 1, p.len)
    && forall i :: 0 < i < |w| ==> w[i] == v[i - 1]
  }

  /** One more packet of the connection at position k. */
  ghost predicate NextPacket(v: seq<Conn>, w: seq<Conn>, k: nat, p: Packet, t: Clocks) {
    && k < |v| && |w| == |v|
    && w[0] == Conn(v[k].tuple, NextState(v[k].state, KindOf(p.flags)), v[k].firstSeen, t.now, v[k].packets + 1, v[k].bytes + p.len)
    && forall i :: 0 < i < |v| ==> w[i] == v[if i <= k then i - 1 else i]
  }

  ghost predicate PacketLeaves(v: seq<Conn>, w: seq<Conn>, p: Packet, t: Clocks, cap: nat) {
    && (forall k :: 0 <= k < |v| && v[k].Key() == p.Tuple().Key() ==> NextPacket(v, w, k, p, t))
    && (Absent(v, p.Tuple().Key()) ==> FirstPacket(v, w, p, t, cap))
  }

  lemma CountedAfterHit(v: seq<Conn>, u: seq<Conn>, k: nat, p: Packet, t: Clocks)
    requires BroughtForward(v, u, k, t.get)
    ensures NextPacket(v, u[0 := Tracked(u[0], p, t.now)], k, p, t)
  {
    hide KindOf;
  }

  lemma CountedAfterMiss(v: seq<Conn>, u: seq<Conn>, p: Packet, t: Clocks, cap: nat)
    requires PutInFront(v, u, p.Tuple(), t.get, cap)
    ensures FirstPacket(v, u[0 := Tracked(u[0], p, t.now)], p, t, cap)
  {
    hide KindOf;
  }

  /** A packet changes the record of its own connection only: packets by one, bytes by its length. */
  lemma TrackLeaves(v: seq<Conn>, p: Packet, t: Clocks, cap: nat)
    requires DistinctKeys(v) && |v| <= cap && cap > 0
    ensures PacketLeaves(v, Track(v, p, t, cap), p, t, cap)
  {
    hide Conn.Key, ConnTuple.Key, Touch, NextPacket, FirstPacket, Absent, DistinctKeys, BroughtForward, PutInFront, Tracked;
    TouchLeaves(v, p.Tuple(), t.get, cap);
    var u := Touch(v, p.Tuple(), t.get, cap);
    forall k | 0 <= k < |v| && v[k].Key() == p.Tuple().Key()
      ensures NextPacket(v, Track(v, p, t, cap), k, p, t)
    {
      CountedAfterHit(v, u, k, p, t);
    }
    if Absent(v, p.Tuple().Key()) {
      CountedAfterMiss(v, u, p, t, cap);
    }
  }

  // ----- what a record counts

  /** A packet as the record of its connection counts it. */
  datatype Arrival = Arrival(len: nat, get: int, now: int)

  function TotalLength(h: seq<Arrival>): nat {
    if h == [] then 0 else TotalLength(h[..|h| - 1]) + h[|h| - 1].len
  }

  /** The packets of a connection since its present entry was created. */
  ghost function Arrivals(es: seq<Event>, x: TupleKey, cfg: Config, cap: nat): seq<Arrival>
    requires cap > 0
  {
    if es == [] then [] else
      var rest, e := es[..|es| - 1], es[|es| - 1];
      if e.Segment? && e.p.protocol == 6 && e.p.Tuple().Key() == x then
        (if Absent(After(rest, cfg, cap).conns, x) then [] else Arrivals(rest, x, cfg, cap))
        + [Arrival(e.p.len, e.t.get, e.t.now)]
      else Arrivals(rest, x, cfg, cap)
  }

  ghost predicate Counts(c: Conn, h: seq<Arrival>) {
    && h != [] && c.packets == |h| && c.bytes == TotalLength(h)
    && c.firstSeen == h[0].get && c.lastSeen == h[|h| - 1].now
  }

  ghost predicate AllCounted(v: seq<Conn>, es: seq<Event>, cfg: Config, cap: nat)
    requires cap > 0
  {
    forall i {:trigger v[i]} :: 0 <= i < |v| ==> Counts(v[i], Arrivals(es, v[i].Key(), cfg, cap))
  }

  lemma CountsFirst(p: Packet, t: Clocks)
    ensures Counts(Conn(p.Tuple(), NextState(Closed, KindOf(p.flags)), t.get, t.now, 1, p.len), [Arrival(p.len, t.get, t.now)])
  {
    hide KindOf;
    var h := [Arrival(p.len, t.get, t.now)];
    assert h[..|h| - 1] == [];
    assert TotalLength(h) == TotalLength([]) + p.len;
  }

  lemma CountsNext(c: Conn, h: seq<Arrival>, p: Packet, t: Clocks)
    requires Counts(c, h)
    ensures Counts(Conn(c.tuple, NextState(c.state, KindOf(p.flags)), c.firstSeen, t.now, c.packets + 1, c.bytes + p.len),
                   h + [Arrival(p.len, t.get, t.now)])
  {
    hide KindOf;
    assert (h + [Arrival(p.len, t.get, t.now)])[..|h|] == h;
  }

  lemma OneMoreArrival(es: seq<Event>, e: Event, cfg: Config, cap: nat)
    requires cap > 0 && e.Segment? && e.p.protocol == PROTO_TCP
    ensures var x, a := e.p.Tuple().Key(), Arrival(e.p.len, e.t.get, e.t.now);
            Arrivals(es + [e], x, cfg, cap) ==
              if Absent(After(es, cfg, cap).conns, x) then [a] else Arrivals(es, x, cfg, cap) + [a]
  {
    hide After, ConnTuple.Key, Absent;
    assert (es + [e])[..|es|] == es;
    assert [] + [Arrival(e.p.len, e.t.get, e.t.now)] == [Arrival(e.p.len, e.t.get, e.t.now)];
  }

  lemma FrontCounted(es: seq<Event>, e: Event, cfg: Config, cap: nat)
    requires cap > 0 && e.Segment? && e.p.protocol == PROTO_TCP
    requires AllCounted(After(es, cfg, cap).conns, es, cfg, cap)
    ensures var w := Track(After(es, cfg, cap).conns, e.p, e.t, cap);
            Counts(w[0], Arrivals(es + [e], e.p.Tuple().Key(), cfg, cap))
  {
    hide After, ConnTuple.Key, Conn.Key, KindOf, Track, DistinctKeys, Counts, Tracked, Arrivals;
    var v, x := After(es, cfg, cap).conns, e.p.Tuple().Key();
    TcpTracking.RunInvariant(es, cfg, cap);
    TrackLeaves(v, e.p, e.t, cap);
    OneMoreArrival(es, e, cfg, cap);
    if Absent(v, x) {
      CountsFirst(e.p, e.t);
    } else {
      var k :| 0 <= k < |v| && v[k].Key() == x;
      CountsNext(v[k], Arrivals(es, x, cfg, cap), e.p, e.t);
    }
  }

  lemma OthersCounted(es: seq<Event>, e: Event, cfg: Config, cap: nat)
    requires cap > 0 && e.Segment? && e.p.protocol == PROTO_TCP
    requires AllCounted(After(es, cfg, cap).conns, es, cfg, cap)
    ensures AllCounted(Track(After(es, cfg, cap).conns, e.p, e.t, cap), es + [e], cfg, cap)
  {
    hide After, ConnTuple.Key, Conn.Key, KindOf, Track, DistinctKeys, Counts, Absent;
    var v, x := After(es, cfg, cap).conns, e.p.Tuple().Key();
    var w := Track(v, e.p, e.t, cap);
    TcpTracking.RunInvariant(es, cfg, cap);
    TcpTracking.TrackedMembers(v, e.p, e.t, cap);
    FrontCounted(es, e, cfg, cap);
    assert (es + [e])[..|es|] == es;
    forall i | 0 <= i < |w|
      ensures Counts(w[i], Arrivals(es + [e], w[i].Key(), cfg, cap))
    {
      if i > 0 {
        var j :| 0 <= j < |v| && v[j] == w[i];
      }
    }
  }

  lemma CountedSubset(v: seq<Conn>, w: seq<Conn>, es: seq<Event>, cfg: Config, cap: nat)
    requires cap > 0 && AllCounted(v, es, cfg, cap)
    requires forall i {:trigger w[i]} :: 0 <= i < |w| ==> w[i] in v
    ensures AllCounted(w, es, cfg, cap)
  {
    hide Arrivals, Counts, Conn.Key;
    forall i | 0 <= i < |w|
      ensures Counts(w[i], Arrivals(es, w[i].Key(), cfg, cap))
    {
      var j :| 0 <= j < |v| && v[j] == w[i];
    }
  }

  lemma SameArrivals(es: seq<Event>, e: Event, cfg: Config, cap: nat)
    requires cap > 0 && !(e.Segment? && e.p.protocol == PROTO_TCP)
    requires AllCounted(After(es, cfg, cap).conns, es, cfg, cap)
    ensures AllCounted(After(es, cfg, cap).conns, es + [e], cfg, cap)
  {
    hide Counts, ConnTuple.Key, Conn.Key, After, Absent;
    assert (es + [e])[..|es|] == es;
  }

  lemma NothingCounted(cfg: Config, cap: nat)
    requires cap > 0
    ensures AllCounted(After([], cfg, cap).conns, [], cfg, cap)
  {
  }

  /** In every run the record of every tracked connection is the account of its packets since its entry
      was created: how many, how many bytes, the clock of the first and of the last. */
  lemma {:induction false} RecordHistory(es: seq<Event>, cfg: Config, cap: nat)
    requires cap > 0
    ensures AllCounted(After(es, cfg, cap).conns, es, cfg, cap)
  {
    hide Step, ConnTuple.Key, Conn.Key, Track, Removed, Live, Arrivals, AllCounted;
    if es == [] {
      NothingCounted(cfg, cap);
    } else {
      var rest, e := es[..|es| - 1], es[|es| - 1];
      var w := After(rest, cfg, cap);
      assert es == rest + [e];
      RecordHistory(rest, cfg, cap);
      TcpTracking.ListStep(w, e, cfg, cap);
      if e.Segment? && e.p.protocol == PROTO_TCP {
        OthersCounted(rest, e, cfg, cap);
        var u := Track(w.conns, e.p, e.t, cap);
        TcpTracking.RemovedMembers(u, e.p.Tuple().Key());
        CountedSubset(u, Removed(u, e.p.Tuple().Key()), es, cfg, cap);
      } else {
        SameArrivals(rest, e, cfg, cap);
        if e.Expire? {
          TcpTracking.LiveMembers(w.conns, e.now);
          CountedSubset(w.conns, Live(w.conns, e.now), es, cfg, cap);
        }
      }
    }
  }

  // ----- how a connection stops being tracked

  /** The list is full, this entry is the last of it, and the packet belongs to a connection not in it. */
  ghost predicate Evicts(v: seq<Conn>, p: Packet, c: Conn, cap: nat) {
    |v| == cap && cap > 0 && c == v[cap - 1] && Absent(v, p.Tuple().Key())
  }

  lemma OtherPacket(v: seq<Conn>, w: seq<Conn>, p: Packet, t: Clocks, cap: nat, c: Conn)
    requires cap > 0 && |v| <= cap && DistinctKeys(v) && PacketLeaves(v, w, p, t, cap)
    requires c in v && c.Key() != p.Tuple().Key()
    ensures c in w <==> !Evicts(v, p, c, cap)
  {
    hide ConnTuple.Key, KindOf;
    var i :| 0 <= i < |v| && v[i] == c;
    if Absent(v, p.Tuple().Key()) {
      if i + 1 < |w| {
        assert w[i + 1] == c;
      }
    } else {
      var k :| 0 <= k < |v| && v[k].Key() == p.Tuple().Key();
      assert w[if i < k then i + 1 else i] == c;
    }
  }

  lemma RemovalSpares(v: seq<Conn>, x: TupleKey, c: Conn)
    requires DistinctKeys(v)
    ensures Absent(Removed(v, x), x)
    ensures c.Key() != x ==> (c in Removed(v, x) <==> c in v)
  {
    hide Conn.Key, Removed;
    RemovedLeaves(v, x);
    if k :| 0 <= k < |v| && v[k].Key() == x {
      var w := Removed(v, x);
      if i :| 0 <= i < |v| && v[i] == c && c.Key() != x {
        assert w[if i < k then i else i - 1] == c;
      }
    }
  }

  /** Entries are told apart by their keys: c is listed when its key is. */
  lemma ListedByKey(v: seq<Conn>, w: seq<Conn>, x: TupleKey, c: Conn)
    requires DistinctKeys(v) && c in v && c.Key() != x
    requires forall i {:trigger w[i]} :: 0 <= i < |w| ==> w[i] in v || w[i].Key() == x
    ensures c in w <==> !Absent(w, c.Key())
  {
    hide Conn.Key;
  }

  lemma OwnPacketKeeps(v: seq<Conn>, p: Packet, t: Clocks, cap: nat)
    requires cap > 0 && |v| <= cap && DistinctKeys(v)
    ensures !Absent(Track(v, p, t, cap), p.Tuple().Key())
  {
    hide ConnTuple.Key, Conn.Key, KindOf, Track;
    TcpTracking.TrackedMembers(v, p, t, cap);
  }

  /** The TCP rules report Slowloris exactly when they take the connection of the packet out of the list. */
  lemma SlowLeaves(w: World, e: Event, cfg: Config, cap: nat)
    requires cap > 0 && e.Segment? && e.p.protocol == PROTO_TCP
    ensures var w' := Step(w, e, cfg, cap); var u := Track(w.conns, e.p, e.t, cap);
            w'.conns == if w'.attacks.slowloris == w.attacks.slowloris then u else Removed(u, e.p.Tuple().Key())
    ensures Step(w, e, cfg, cap).attacks.slowloris >= w.attacks.slowloris
  {
    hide Track, Removed, KindOf, IsSlowloris, Invalid, ConnTuple.Key, IpAddr.Key, Judge;
    NeverByFlags(StatsOf(w, e.p.src.Key(), e.met), e.p.flags, e.t.now, cfg);
  }

  lemma NeverByFlags(s: Stats, flags: Byte, now: int, cfg: Config)
    ensures Judge(s, flags, now, cfg).1 != Some(Slowloris)
  {
    hide KindOf;
  }

  /** What takes connection c out of the list: it has been idle for too long when the expiry walk comes; a
      new connection arrives while the list is full and c is the last of it; its own packet is reported
      as Slowloris. */
  ghost predicate Loses(w: World, e: Event, w': World, c: Conn, cap: nat) {
    match e
    case Segment(p, t, met) =>
      p.protocol == 6 &&
      if p.Tuple().Key() == c.Key() then w'.attacks.slowloris != w.attacks.slowloris else Evicts(w.conns, p, c, cap)
    case Expire(now) => !Recent(c, now)
    case Elsewhere(_, _, _) => false
  }

  lemma LosesOther(v: seq<Conn>, w: seq<Conn>, p: Packet, t: Clocks, cap: nat, c: Conn)
    requires cap > 0 && DistinctKeys(v) && |v| <= cap && c in v && c.Key() != p.Tuple().Key()
    requires var u := Track(v, p, t, cap); w == u || w == Removed(u, p.Tuple().Key())
    ensures Absent(w, c.Key()) <==> Evicts(v, p, c, cap)
    ensures c in w <==> !Evicts(v, p, c, cap)
  {
    hide ConnTuple.Key, Conn.Key, KindOf, Track, Removed, Absent, Evicts, PacketLeaves, DistinctKeys;
    var x, u := p.Tuple().Key(), Track(v, p, t, cap);
    TcpTracking.TrackedMembers(v, p, t, cap);
    TrackLeaves(v, p, t, cap);
    OtherPacket(v, u, p, t, cap, c);
    RemovalSpares(u, x, c);
    TcpTracking.RemovedMembers(u, x);
    ListedByKey(v, w, x, c);
  }

  lemma LosesOwn(v: seq<Conn>, p: Packet, t: Clocks, cap: nat, c: Conn)
    requires cap > 0 && DistinctKeys(v) && |v| <= cap
    ensures var u, x := Track(v, p, t, cap), p.Tuple().Key(); !Absent(u, x) && Absent(Removed(u, x), x)
  {
    hide ConnTuple.Key, Conn.Key, KindOf, Track, Removed, Absent, DistinctKeys;
    TcpTracking.TrackedMembers(v, p, t, cap);
    OwnPacketKeeps(v, p, t, cap);
    RemovalSpares(Track(v, p, t, cap), p.Tuple().Key(), c);
  }

  lemma LosesByExpiry(v: seq<Conn>, now: int, c: Conn)
    requires DistinctKeys(v) && c in v
    ensures Absent(Live(v, now), c.Key()) <==> !Recent(c, now)
    ensures c in Live(v, now) <==> Recent(c, now)
  {
    hide Conn.Key, Live, Recent;
    LiveLeaves(v, now);
    forall i | 0 <= i < |Live(v, now)|
      ensures Live(v, now)[i] in v
    {
      assert Live(v, now)[i] in Live(v, now);
    }
  }

  /** A tracked connection stops being tracked in exactly these three ways; and unless the packet is its
      own, a connection that stays is exactly as it was. */
  lemma LostExactly(w: World, e: Event, cfg: Config, cap: nat, c: Conn)
    requires cap > 0 && DistinctKeys(w.conns) && |w.conns| <= cap && c in w.conns
    ensures var w' := Step(w, e, cfg, cap);
            && (Absent(w'.conns, c.Key()) <==> Loses(w, e, w', c, cap))
            && (!Loses(w, e, w', c, cap) && !(e.Segment? && e.p.Tuple().Key() == c.Key()) ==> c in w'.conns)
  {
    hide ConnTuple.Key, Conn.Key, KindOf, Track, Removed, Absent, Evicts, Live, Recent, DistinctKeys, IpAddr.Key, Judge, Settled;
    AbsentMeansNone(w.conns, c);
    if e.Expire? {
      LosesByExpiry(w.conns, e.now, c);
    } else if e.Segment? && e.p.protocol == PROTO_TCP {
      SlowLeaves(w, e, cfg, cap);
      if e.p.Tuple().Key() == c.Key() {
        LosesOwn(w.conns, e.p, e.t, cap, c);
      } else {
        LosesOther(w.conns, Step(w, e, cfg, cap).conns, e.p, e.t, cap, c);
      }
    }
  }

  lemma AbsentMeansNone(v: seq<Conn>, c: Conn)
    ensures c in v ==> !Absent(v, c.Key())
  {
  }

  /** Event m of the run takes the connection with this key out of the list. */
  ghost predicate LostAt(es: seq<Event>, m: nat, x: TupleKey, cfg: Config, cap: nat)
    requires cap > 0
  {
    m < |es| &&
    var w, w' := After(es[..m], cfg, cap), After(es[..m + 1], cfg, cap);
    exists c :: c in w.conns && c.Key() == x && Loses(w, es[m], w', c, cap)
  }

  /** Whoever was tracked after n events and no longer is, was lost in one of the three ways in between. */
  lemma {:induction false} LeavesOnlySo(es: seq<Event>, n: nat, x: TupleKey, cfg: Config, cap: nat) returns (m: nat)
    requires cap > 0 && n <= |es|
    requires !Absent(After(es[..n], cfg, cap).conns, x) && Absent(After(es, cfg, cap).conns, x)
    ensures n <= m < |es| && LostAt(es, m, x, cfg, cap)
  {
    hide Step, Conn.Key, Loses;
    assert es[..|es|] == es;
    var rest := es[..|es| - 1];
    assert rest[..n] == es[..n];
    var v := After(rest, cfg, cap).conns;
    if Absent(v, x) {
      m := LeavesOnlySo(rest, n, x, cfg, cap);
      assert rest[..m] == es[..m] && rest[..m + 1] == es[..m + 1];
    } else {
      m := |es| - 1;
      assert es[..m + 1] == es;
      var i :| 0 <= i < |v| && v[i].Key() == x;
      TcpTracking.RunInvariant(rest, cfg, cap);
      LostExactly(After(rest, cfg, cap), es[m], cfg, cap, v[i]);
    }
  }
}
