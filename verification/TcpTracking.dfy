/** Theorems over whole runs of the TCP rules, about the tracked connections. */
module TcpTracking {
  import opened Addresses
  import opened ConnTable
  import opened Lists
  import opened LruTheory
  import LruHistories
  import LruTraces
  import opened TcpHandshake
  import opened TcpRuns
  import opened TcpTheory

  // ----- what a packet does to the list

  /** The list after lru_cache_get: the connection in front, the others as they were. */
  lemma TouchedMembers(v: seq<Conn>, tuple: ConnTuple, now: int, cap: nat)
    requires DistinctKeys(v) && |v| <= cap && cap > 0
    ensures var w := Touch(v, tuple, now, cap); var k := IndexOf(v, tuple.Key());
            && DistinctKeys(w) && 0 < |w| <= cap && w[0].Key() == tuple.Key()
            && w[0].state == (if k < |v| then v[k].state else Closed)
            && forall i {:trigger w[i]} :: 0 < i < |w| ==> w[i] in v
  {
    hide ConnTuple.Key;
    LruTraces.TouchKeepsDistinct(v, tuple, now, cap);
  }

  lemma TrackedMembers(v: seq<Conn>, p: Packet, t: Clocks, cap: nat)
    requires DistinctKeys(v) && |v| <= cap && cap > 0
    ensures var w := Track(v, p, t, cap); var x := p.Tuple().Key(); var k := IndexOf(v, x);
            && DistinctKeys(w) && 0 < |w| <= cap && w[0].Key() == x
            && w[0].state == NextState(if k < |v| then v[k].state else Closed, KindOf(p.flags))
            && forall i {:trigger w[i]} :: 0 < i < |w| ==> w[i] in v && w[i].Key() != x
  {
    hide ConnTuple.Key, Touch, KindOf;
    TouchedMembers(v, p.Tuple(), t.get, cap);
    var u := Touch(v, p.Tuple(), t.get, cap);
    var w := Track(v, p, t, cap);
    SameKey(u[0], p, t.now);
    forall i | 0 <= i < |w|
      ensures w[i].Key() == u[i].Key()
    {
    }
  }

  lemma SameKey(c: Conn, p: Packet, now: int)
    ensures Tracked(c, p, now).Key() == c.Key()
  {
  }

  /** What happens to the list in one step: a tracked packet, possibly followed by the removal of its
      connection; an expiry walk; or nothing. */
  lemma ListStep(w: World, e: Event, cfg: Config, cap: nat)
    requires cap > 0
    ensures var v := Step(w, e, cfg, cap).conns;
            if e.Segment? && e.p.protocol == PROTO_TCP then
              v == Track(w.conns, e.p, e.t, cap) || v == Removed(Track(w.conns, e.p, e.t, cap), e.p.Tuple().Key())
            else v == w.conns || (e.Expire? && v == Live(w.conns, e.now))
  {
    hide Track, Removed, Live, Judge, KindOf, IsSlowloris, Invalid, ConnTuple.Key, IpAddr.Key;
  }

  lemma RemovedMembers(v: seq<Conn>, x: TupleKey)
    ensures forall i {:trigger Removed(v, x)[i]} :: 0 <= i < |Removed(v, x)| ==> Removed(v, x)[i] in v
    ensures |Removed(v, x)| <= |v|
  {
    hide Conn.Key;
    var k := IndexOf(v, x);
    if k < |v| {
      forall i | 0 <= i < |v| - 1
        ensures Without(v, k)[i] in v
      {
        assert Without(v, k)[i] == v[if i < k then i else i + 1];
      }
    }
  }

  lemma LiveMembers(v: seq<Conn>, now: int)
    ensures forall i {:trigger Live(v, now)[i]} :: 0 <= i < |Live(v, now)| ==> Live(v, now)[i] in v
  {
    LruHistories.LivePositions(v, now);
  }

  /** In every run each connection is tracked once, and never more than the capacity. */
  lemma {:induction false} RunInvariant(es: seq<Event>, cfg: Config, cap: nat)
    requires cap > 0
    ensures DistinctKeys(After(es, cfg, cap).conns) && |After(es, cfg, cap).conns| <= cap
  {
    hide Step, DistinctKeys, Track, Removed, Live, ConnTuple.Key;
    if es == [] {
      NoneDistinct();
    } else {
      var rest, e := es[..|es| - 1], es[|es| - 1];
      var w := After(rest, cfg, cap);
      RunInvariant(rest, cfg, cap);
      ListStep(w, e, cfg, cap);
      if e.Segment? && e.p.protocol == PROTO_TCP {
        TrackedMembers(w.conns, e.p, e.t, cap);
        LruHistories.RemovedKeepsDistinct(Track(w.conns, e.p, e.t, cap), e.p.Tuple().Key());
        RemovedMembers(Track(w.conns, e.p, e.t, cap), e.p.Tuple().Key());
      } else if e.Expire? {
        LruHistories.LiveKeepsDistinct(w.conns, e.now);
      }
    }
  }

  lemma NoneDistinct()
    ensures DistinctKeys([])
  {
  }

  // ----- the history of a connection

  /** The packets of a connection since its present entry was created: a packet that finds no entry,
      because there never was one or it was evicted, expired or removed, starts over. */
  function Since(es: seq<Event>, x: TupleKey, cfg: Config, cap: nat): seq<Kind>
    requires cap > 0
  {
    if es == [] then [] else
      var rest, e := es[..|es| - 1], es[|es| - 1];
      if e.Segment? && e.p.protocol == PROTO_TCP && e.p.Tuple().Key() == x then
        var v := After(rest, cfg, cap).conns;
        (if IndexOf(v, x) < |v| then Since(rest, x, cfg, cap) else []) + [KindOf(e.p.flags)]
      else Since(rest, x, cfg, cap)
  }

  ghost predicate Remembered(v: seq<Conn>, es: seq<Event>, cfg: Config, cap: nat)
    requires cap > 0
  {
    forall i {:trigger v[i]} :: 0 <= i < |v| ==> v[i].state == StateAfter(Since(es, v[i].Key(), cfg, cap))
  }

  lemma RememberedSubset(v: seq<Conn>, w: seq<Conn>, es: seq<Event>, cfg: Config, cap: nat)
    requires cap > 0 && Remembered(v, es, cfg, cap)
    requires forall i {:trigger w[i]} :: 0 <= i < |w| ==> w[i] in v
    ensures Remembered(w, es, cfg, cap)
  {
    hide Since, StateAfter, Conn.Key;
    forall i | 0 <= i < |w|
      ensures w[i].state == StateAfter(Since(es, w[i].Key(), cfg, cap))
    {
      var j :| 0 <= j < |v| && v[j] == w[i];
    }
  }

  lemma OneMoreKind(ks: seq<Kind>, k: Kind)
    ensures StateAfter(ks + [k]) == NextState(StateAfter(ks), k)
  {
    assert (ks + [k])[..|ks|] == ks;
  }

  lemma RememberedTrack(es: seq<Event>, e: Event, cfg: Config, cap: nat)
    requires cap > 0 && e.Segment? && e.p.protocol == PROTO_TCP
    requires Remembered(After(es, cfg, cap).conns, es, cfg, cap)
    ensures Remembered(Track(After(es, cfg, cap).conns, e.p, e.t, cap), es + [e], cfg, cap)
  {
    hide Step, After, StateAfter, ConnTuple.Key, Conn.Key, KindOf, Track, DistinctKeys;
    var v, x := After(es, cfg, cap).conns, e.p.Tuple().Key();
    var w := Track(v, e.p, e.t, cap);
    RunInvariant(es, cfg, cap);
    TrackedMembers(v, e.p, e.t, cap);
    assert (es + [e])[..|es|] == es;
    var k := IndexOf(v, x);
    forall i | 0 <= i < |w|
      ensures w[i].state == StateAfter(Since(es + [e], w[i].Key(), cfg, cap))
    {
      if i == 0 {
        OneMoreKind(if k < |v| then Since(es, x, cfg, cap) else [], KindOf(e.p.flags));
        NothingClosed();
      } else {
        var j :| 0 <= j < |v| && v[j] == w[i];
      }
    }
  }

  lemma NothingClosed()
    ensures StateAfter([]) == Closed
  {
  }

  /** In every run the state of every tracked connection is what the flags of its packets since its
      entry was created make it: no verdict, counter or other source has a say. With StateIsTold this
      says which packets an ESTABLISHED or FIN_WAIT connection must have seen, and in which order. */
  lemma {:induction false} HandshakeHistory(es: seq<Event>, cfg: Config, cap: nat)
    requires cap > 0
    ensures Remembered(After(es, cfg, cap).conns, es, cfg, cap)
  {
    hide Step, StateAfter, ConnTuple.Key, Conn.Key, Track, Removed, Live, Since, Remembered;
    if es == [] {
      NothingRemembered(cfg, cap);
    } else {
      var rest, e := es[..|es| - 1], es[|es| - 1];
      var w := After(rest, cfg, cap);
      assert es == rest + [e];
      HandshakeHistory(rest, cfg, cap);
      ListStep(w, e, cfg, cap);
      if e.Segment? && e.p.protocol == PROTO_TCP {
        RememberedTrack(rest, e, cfg, cap);
        var u := Track(w.conns, e.p, e.t, cap);
        RemovedMembers(u, e.p.Tuple().Key());
        RememberedSubset(u, Removed(u, e.p.Tuple().Key()), es, cfg, cap);
      } else {
        SameSince(rest, e, cfg, cap);
        if e.Expire? {
          LiveMembers(w.conns, e.now);
          RememberedSubset(w.conns, Live(w.conns, e.now), es, cfg, cap);
        }
      }
    }
  }

  lemma NothingRemembered(cfg: Config, cap: nat)
    requires cap > 0
    ensures Remembered(After([], cfg, cap).conns, [], cfg, cap)
  {
  }

  lemma SameSince(es: seq<Event>, e: Event, cfg: Config, cap: nat)
    requires cap > 0 && !(e.Segment? && e.p.protocol == PROTO_TCP)
    requires Remembered(After(es, cfg, cap).conns, es, cfg, cap)
    ensures Remembered(After(es, cfg, cap).conns, es + [e], cfg, cap)
  {
    hide Step, StateAfter, ConnTuple.Key, Conn.Key, After;
    assert (es + [e])[..|es|] == es;
  }

  /** An ESTABLISHED connection has seen, since its entry was created, a pure SYN, then a SYN+ACK, then
      an ACK, with no RST after that SYN; one in FIN_WAIT a FIN after that as well. */
  lemma EstablishedHasShakenHands(es: seq<Event>, cfg: Config, cap: nat, c: Conn)
    requires cap > 0 && c in After(es, cfg, cap).conns
    ensures c.state != CloseWait
    ensures var ks := Since(es, c.Key(), cfg, cap); var i := LastRestart(ks);
            && (c.state == Established <==> Opened(ks) && Confirmed(ks, i) && !Finished(ks, i))
            && (c.state == FinWait <==> Opened(ks) && Finished(ks, i))
  {
    hide Step, StateAfter, Conn.Key, Since, Confirmed, Finished, Answered, After;
    var v := After(es, cfg, cap).conns;
    HandshakeHistory(es, cfg, cap);
    var j :| 0 <= j < |v| && v[j] == c;
    var ks := Since(es, c.Key(), cfg, cap);
    StateIsTold(ks);
    Chained(ks, LastRestart(ks));
  }

  // ----- recency order is time order

  ghost predicate Timely(es: seq<Event>, start: int) {
    es != [] ==>
      var rest, e := es[..|es| - 1], es[|es| - 1];
      && Timely(rest, start)
      && (e.Segment? ==> Clock(rest, start) <= e.t.get <= e.t.now <= e.t.check)
      && (e.Expire? ==> Clock(rest, start) <= e.now)
  }

  /** The clock after the last event of a run. */
  ghost function Clock(es: seq<Event>, start: int): int {
    if es == [] then start else
      match es[|es| - 1]
      case Segment(_, t, _) => t.check
      case Expire(now) => now
      case Elsewhere(_, _, _) => Clock(es[..|es| - 1], start)
  }

  lemma SortedTrack(v: seq<Conn>, p: Packet, t: Clocks, cap: nat, before: int)
    requires cap > 0 && LruHistories.SortedBySeen(v, before) && before <= t.get <= t.now
    ensures LruHistories.SortedBySeen(Track(v, p, t, cap), t.now)
  {
    hide ConnTuple.Key;
    LruHistories.ApplyKeepsSorted(v, LruHistories.Access(p.Tuple(), t.get), cap, before, t.get);
    FrontStamped(Touch(v, p.Tuple(), t.get, cap), p, t);
  }

  lemma FrontStamped(u: seq<Conn>, p: Packet, t: Clocks)
    requires u != [] && LruHistories.SortedBySeen(u, t.get) && t.get <= t.now
    ensures LruHistories.SortedBySeen(u[0 := Tracked(u[0], p, t.now)], t.now)
  {
    hide KindOf;
    var w := u[0 := Tracked(u[0], p, t.now)];
    forall i, j | 0 <= i < j < |w|
      ensures w[i].lastSeen >= w[j].lastSeen
    {
      assert w[j] == u[j];
    }
  }

  /** Under a non-decreasing clock the list is sorted by last_seen in every run, although the TCP rules
      write last_seen of the front entry themselves; so clean-up finds expired entries nearest the tail. */
  lemma {:induction false} RunSorted(es: seq<Event>, cfg: Config, cap: nat, start: int)
    requires cap > 0 && Timely(es, start)
    ensures LruHistories.SortedBySeen(After(es, cfg, cap).conns, Clock(es, start))
  {
    hide Step, ConnTuple.Key, Track, Removed, Live;
    if es != [] {
      var rest, e := es[..|es| - 1], es[|es| - 1];
      var v := After(rest, cfg, cap).conns;
      RunSorted(rest, cfg, cap, start);
      ListStep(After(rest, cfg, cap), e, cfg, cap);
      if e.Segment? && e.p.protocol == PROTO_TCP {
        SortedTrack(v, e.p, e.t, cap, Clock(rest, start));
        var u := Track(v, e.p, e.t, cap);
        LruHistories.ApplyKeepsSorted(u, LruHistories.Drop(e.p.Tuple().Key()), cap, e.t.now, e.t.check);
      } else if e.Expire? {
        LruHistories.ApplyKeepsSorted(v, LruHistories.Sweep(e.now), cap, Clock(rest, start), e.now);
      }
    }
  }
}
