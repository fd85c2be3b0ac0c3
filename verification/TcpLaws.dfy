/** The TCP rules by their numbers: which packet reports which attack, what the counters of a source and
    the global counters count over whole runs, and which packet is accepted. */
module TcpLaws {
  import opened Addresses
  import opened Bits
  import opened ConnTable
  import opened LruRecords
  import opened LruTheory
  import opened Options
  import opened TcpRecords
  import opened TcpRuns
  import opened TcpTheory
  import TcpTracking

  // ----- the flags

  /** The kinds by flags: a pure SYN is exactly SYN, an ACK exactly ACK with or without PSH; a packet with
      SYN (1) and ACK (4) is a SYN+ACK, any other with RST (2) a reset, any other with FIN (0) a FIN. */
  ghost predicate FallsUnder(flags: Byte, k: Kind) {
    match k
    case PureSyn => flags == 0x02
    case SynAck => Bit(flags, 1) == 1 && Bit(flags, 4) == 1
    case Ack => flags == 0x10 || flags == 0x18
    case Rst => Bit(flags, 2) == 1 && !(Bit(flags, 1) == 1 && Bit(flags, 4) == 1)
    case Fin => Bit(flags, 0) == 1 && Bit(flags, 2) != 1 && !(Bit(flags, 1) == 1 && Bit(flags, 4) == 1)
    case Other =>
      Bit(flags, 0) != 1 && Bit(flags, 2) != 1 && !(Bit(flags, 1) == 1 && Bit(flags, 4) == 1)
      && flags != 0x02 && flags != 0x10 && flags != 0x18
  }

  lemma KindByFlags(flags: Byte, k: Kind)
    ensures KindOf(flags) == k <==> FallsUnder(flags, k)
  {
    hide Bit, And, SameDigits, KindOf;
    KindByDigits(flags);
    EqualByDigits(flags, 0x02);
    EqualByDigits(flags, 0x10);
    EqualByDigits(flags, 0x18);
  }

  lemma Kinds(flags: Byte)
    ensures KindOf(flags) == PureSyn <==> flags == 0x02
    ensures KindOf(flags) == Ack <==> flags == 0x10 || flags == 0x18
    ensures KindOf(flags) == Rst <==> FallsUnder(flags, Rst)
    ensures KindOf(flags) == Fin <==> FallsUnder(flags, Fin)
  {
    hide Bit, KindOf;
    KindByFlags(flags, PureSyn);
    KindByFlags(flags, Ack);
    KindByFlags(flags, Rst);
    KindByFlags(flags, Fin);
  }

  // ----- one packet and its source

  /** When the flags of a packet are reported as an attack; s is the source before the packet. */
  ghost predicate Reports(s: Stats, flags: Byte, now: int, cfg: Config, a: Attack) {
    match a
    case SynFlood => flags == 0x02 && now - s.lastUpdate >= 1 && s.synPps + 1 > cfg.synThreshold
    case AckFlood => (flags == 0x10 || flags == 0x18) && now - s.lastUpdate >= 1 && s.ackPps + 1 > cfg.ackThreshold
    case PshAckFlood =>
      flags == 0x18 && s.packets.pshAckFlood > 1000 && !(now - s.lastUpdate >= 1 && s.ackPps + 1 > cfg.ackThreshold)
    case RstFlood => FallsUnder(flags, Rst) && s.packets.rstFlood + 1 > 5000
    case FinFlood => FallsUnder(flags, Fin) && s.packets.finFlood + 1 > 5000
    case Slowloris => false
  }

  /** A packet reports an attack by its flags exactly under these conditions. */
  lemma ReportedExactly(s: Stats, flags: Byte, now: int, cfg: Config, a: Attack)
    ensures Judge(s, flags, now, cfg).1 == Some(a) <==> Reports(s, flags, now, cfg, a)
  {
    hide Bit, KindOf, FallsUnder;
    Kinds(flags);
  }

  /** A new second in which the packet is not too many: the counters start over. */
  ghost predicate StartsOver(s: Stats, now: int, counted: nat, threshold: nat) {
    now - s.lastUpdate >= 1 && counted + 1 <= threshold
  }

  /** What a packet leaves of its source: a pure SYN and an ACK count once and start their counter over in a
      new second unless they are reported; only the SYN moves last_update; every RST and FIN is counted for good. */
  lemma SourceAfter(s: Stats, flags: Byte, now: int, cfg: Config)
    ensures var s' := Judge(s, flags, now, cfg).0;
            && s'.synPps == (if flags != 0x02 then s.synPps else
                             if StartsOver(s, now, s.synPps, cfg.synThreshold) then 0 else s.synPps + 1)
            && s'.ackPps == (if flags != 0x10 && flags != 0x18 then s.ackPps else
                             if StartsOver(s, now, s.ackPps, cfg.ackThreshold) then 0 else s.ackPps + 1)
            && s'.lastUpdate == (if flags == 0x02 && StartsOver(s, now, s.synPps, cfg.synThreshold) then now else s.lastUpdate)
            && s'.packets.rstFlood == s.packets.rstFlood + (if FallsUnder(flags, Rst) then 1 else 0)
            && s'.packets.finFlood == s.packets.finFlood + (if FallsUnder(flags, Fin) then 1 else 0)
            && s'.packets.slowloris == s.packets.slowloris && s'.reputation == s.reputation
  {
    hide Bit, KindOf, FallsUnder;
    Kinds(flags);
  }

  // ----- counting over runs

  /** A TCP packet of this kind, told by its flags. */
  ghost predicate IsOf(e: Event, k: Kind) {
    e.Segment? && e.p.protocol == 6 && FallsUnder(e.p.flags, k)
  }

  /** A TCP packet of this kind from this source. */
  ghost predicate IsFrom(e: Event, k: Kind, x: IpKey) {
    IsOf(e, k) && e.p.src.Key() == x
  }

  ghost function Number(es: seq<Event>, k: Kind): nat {
    if es == [] then 0 else Number(es[..|es| - 1], k) + if IsOf(es[|es| - 1], k) then 1 else 0
  }

  ghost function NumberOfTcp(es: seq<Event>): nat {
    if es == [] then 0 else
      var e := es[|es| - 1];
      NumberOfTcp(es[..|es| - 1]) + if e.Segment? && e.p.protocol == 6 then 1 else 0
  }

  /** How many packets of this kind the source sent after the first n events. */
  ghost function NumberFrom(es: seq<Event>, n: nat, k: Kind, x: IpKey): nat {
    if |es| <= n then 0 else NumberFrom(es[..|es| - 1], n, k, x) + if IsFrom(es[|es| - 1], k, x) then 1 else 0
  }

  lemma CountersStep(w: World, e: Event, cfg: Config, cap: nat)
    requires cap > 0
    ensures var n, n' := w.counters, Step(w, e, cfg, cap).counters;
            && n'.total == n.total + (if e.Segment? && e.p.protocol == 6 then 1 else 0)
            && n'.syn == n.syn + (if IsOf(e, PureSyn) then 1 else 0)
            && n'.ack == n.ack + (if IsOf(e, Ack) then 1 else 0)
            && n'.rst == n.rst + (if IsOf(e, Rst) then 1 else 0)
            && n'.fin == n.fin + (if IsOf(e, Fin) then 1 else 0)
  {
    hide Track, Removed, Live, KindOf, IsSlowloris, Invalid, IpAddr.Key, Judge, Bit, FallsUnder;
    if e.Segment? {
      Kinds(e.p.flags);
      KindByFlags(e.p.flags, PureSyn);
      KindByFlags(e.p.flags, Ack);
    }
  }

  /** In every run total_packets is the number of TCP packets, and syn, ack, rst and fin count the packets
      of their kind. */
  lemma {:induction false} CountersCount(es: seq<Event>, cfg: Config, cap: nat)
    requires cap > 0
    ensures var n := After(es, cfg, cap).counters;
            && n.total == NumberOfTcp(es) && n.syn == Number(es, PureSyn) && n.ack == Number(es, Ack)
            && n.rst == Number(es, Rst) && n.fin == Number(es, Fin)
  {
    hide Step, IsOf;
    if es != [] {
      CountersCount(es[..|es| - 1], cfg, cap);
      CountersStep(After(es[..|es| - 1], cfg, cap), es[|es| - 1], cfg, cap);
    }
  }

  // ----- the counters of a source

  /** The two counters that start over. */
  datatype Meter = SynMeter | AckMeter {
    function Measures(): Kind {
      if SynMeter? then PureSyn else Ack
    }

    function Reading(s: Stats): nat {
      if SynMeter? then s.synPps else s.ackPps
    }

    function Limit(cfg: Config): nat {
      if SynMeter? then cfg.synThreshold else cfg.ackThreshold
    }
  }

  /** Event i starts the counter over: a packet of the kind, a second or more after last_update, that
      is not one too many. */
  ghost predicate StartsMeter(es: seq<Event>, i: nat, m: Meter, x: IpKey, cfg: Config, cap: nat)
    requires cap > 0
  {
    i < |es| && IsFrom(es[i], m.Measures(), x) &&
    var s := StatsOf(After(es[..i], cfg, cap), x, es[i].met);
    es[i].t.now - s.lastUpdate >= 1 && m.Reading(s) + 1 <= m.Limit(cfg)
  }

  lemma MeterStep(w: World, e: Event, m: Meter, x: IpKey, cfg: Config, cap: nat)
    requires cap > 0
    ensures var w' := Step(w, e, cfg, cap);
            x in w'.sources <==> x in w.sources || (e.Segment? && e.p.src.Key() == x)
    ensures var w' := Step(w, e, cfg, cap);
            x in w'.sources ==>
              var met := if e.Segment? then e.met else 0;
              var s := StatsOf(w, x, met);
              m.Reading(w'.sources[x]) ==
                if !IsFrom(e, m.Measures(), x) then m.Reading(s)
                else if e.t.now - s.lastUpdate >= 1 && m.Reading(s) + 1 <= m.Limit(cfg) then 0
                else m.Reading(s) + 1
  {
    hide Track, Removed, Live, KindOf, IsSlowloris, Invalid, IpAddr.Key, Judge, Bit, Analyze;
    if e.Segment? && e.p.src.Key() == x {
      SourceAfter(StatsOf(w, x, e.met), e.p.flags, e.t.now, cfg);
      OwnSource(Scene(w.conns, StatsOf(w, x, e.met), w.counters, w.attacks), e.p, e.t, cfg, cap);
    }
  }

  /** After the flags nothing but a Slowloris count and nothing before them touches the source. */
  lemma OwnSource(x: Scene, p: Packet, t: Clocks, cfg: Config, cap: nat)
    requires cap > 0
    ensures var s, s' := Judge(x.stats, p.flags, t.now, cfg).0, Analyze(x, p, t, cfg, cap).0.stats;
            if p.protocol == 6 then s' == s || s' == s.(packets := s.packets.Plus(Slowloris)) else s' == x.stats
  {
    hide Track, Removed, KindOf, IsSlowloris, Invalid, Judge;
  }

  /** A source the run has not met sent nothing. */
  lemma {:induction false} UnmetSentNothing(es: seq<Event>, n: nat, k: Kind, x: IpKey, cfg: Config, cap: nat)
    requires cap > 0 && x !in After(es, cfg, cap).sources
    ensures NumberFrom(es, n, k, x) == 0
  {
    hide Step, IpAddr.Key, FallsUnder;
    if |es| > n {
      MeterStep(After(es[..|es| - 1], cfg, cap), es[|es| - 1], SynMeter, x, cfg, cap);
      UnmetSentNothing(es[..|es| - 1], n, k, x, cfg, cap);
    }
  }

  /** The counter starts over at event n - 1, or n is the beginning of the run, and at no event since. */
  ghost predicate LastStart(es: seq<Event>, n: nat, m: Meter, x: IpKey, cfg: Config, cap: nat)
    requires cap > 0
  {
    && n <= |es| && (n == 0 || StartsMeter(es, n - 1, m, x, cfg, cap))
    && forall i :: n <= i < |es| ==> !StartsMeter(es, i, m, x, cfg, cap)
  }

  lemma SameStarts(es: seq<Event>, i: nat, m: Meter, x: IpKey, cfg: Config, cap: nat)
    requires cap > 0 && i + 1 < |es|
    ensures StartsMeter(es[..|es| - 1], i, m, x, cfg, cap) <==> StartsMeter(es, i, m, x, cfg, cap)
  {
    hide After, IsFrom;
    assert es[..|es| - 1][..i] == es[..i];
  }

  lemma LastStartBefore(es: seq<Event>, n: nat, m: Meter, x: IpKey, cfg: Config, cap: nat)
    requires cap > 0 && n < |es| && LastStart(es, n, m, x, cfg, cap)
    ensures LastStart(es[..|es| - 1], n, m, x, cfg, cap)
  {
    hide StartsMeter;
    var rest := es[..|es| - 1];
    if n > 0 {
      SameStarts(es, n - 1, m, x, cfg, cap);
    }
    forall i | n <= i < |rest|
      ensures !StartsMeter(rest, i, m, x, cfg, cap)
    {
      SameStarts(es, i, m, x, cfg, cap);
    }
  }

  /** In every run the SYN counter of a source is the number of its pure SYNs, and its ACK counter the number
      of its ACKs, since the counter last started over. */
  lemma {:induction false} MeterCounts(es: seq<Event>, n: nat, m: Meter, x: IpKey, cfg: Config, cap: nat)
    requires cap > 0 && x in After(es, cfg, cap).sources && LastStart(es, n, m, x, cfg, cap)
    ensures m.Reading(After(es, cfg, cap).sources[x]) == NumberFrom(es, n, m.Measures(), x)
  {
    hide Step, IsFrom, Meter.Reading, Meter.Limit, Meter.Measures, LastStart;
    NotEmpty(es, x, cfg, cap);
    var rest, e := es[..|es| - 1], es[|es| - 1];
    var w := After(rest, cfg, cap);
    assert es[..|es| - 1] == rest;
    MeterStep(w, e, m, x, cfg, cap);
    StartAtEnd(es, n, m, x, cfg, cap);
    if n < |es| {
      LastStartBefore(es, n, m, x, cfg, cap);
      if x in w.sources {
        MeterCounts(rest, n, m, x, cfg, cap);
      } else {
        UnmetSentNothing(rest, n, m.Measures(), x, cfg, cap);
        NothingRead(m);
      }
    }
  }

  lemma NotEmpty(es: seq<Event>, x: IpKey, cfg: Config, cap: nat)
    requires cap > 0 && x in After(es, cfg, cap).sources
    ensures es != []
  {
  }

  lemma NothingRead(m: Meter)
    ensures forall met {:trigger Met(met)} :: m.Reading(Met(met)) == 0
  {
  }

  lemma StartAtEnd(es: seq<Event>, n: nat, m: Meter, x: IpKey, cfg: Config, cap: nat)
    requires cap > 0 && es != [] && LastStart(es, n, m, x, cfg, cap)
    ensures n <= |es|
    ensures n == |es| <==> StartsMeter(es, |es| - 1, m, x, cfg, cap)
  {
    hide StartsMeter;
  }

  /** In every run the RST and FIN counters of a source are the numbers of all its RST and FIN packets: they
      never start over, so every RST after the 5000th is reported, and every FIN. */
  lemma {:induction false} ForGood(es: seq<Event>, x: IpKey, cfg: Config, cap: nat)
    requires cap > 0 && x in After(es, cfg, cap).sources
    ensures var s := After(es, cfg, cap).sources[x];
            s.packets.rstFlood == NumberFrom(es, 0, Rst, x) && s.packets.finFlood == NumberFrom(es, 0, Fin, x)
  {
    hide Step, FallsUnder, IpAddr.Key;
    NotEmpty(es, x, cfg, cap);
    var rest, e := es[..|es| - 1], es[|es| - 1];
    var w := After(rest, cfg, cap);
    RstFinStep(w, e, x, cfg, cap);
    if x in w.sources {
      ForGood(rest, x, cfg, cap);
    } else {
      UnmetSentNothing(rest, 0, Rst, x, cfg, cap);
      UnmetSentNothing(rest, 0, Fin, x, cfg, cap);
    }
  }

  lemma RstFinStep(w: World, e: Event, x: IpKey, cfg: Config, cap: nat)
    requires cap > 0 && x in Step(w, e, cfg, cap).sources
    ensures var s, s' := StatsOf(w, x, 0).packets, Step(w, e, cfg, cap).sources[x].packets;
            && s'.rstFlood == s.rstFlood + (if IsFrom(e, Rst, x) then 1 else 0)
            && s'.finFlood == s.finFlood + (if IsFrom(e, Fin, x) then 1 else 0)
  {
    hide Track, Removed, Live, KindOf, IsSlowloris, Invalid, IpAddr.Key, Judge, FallsUnder, Analyze;
    if e.Segment? && e.p.src.Key() == x {
      SourceAfter(StatsOf(w, x, e.met), e.p.flags, e.t.now, cfg);
      OwnSource(Scene(w.conns, StatsOf(w, x, e.met), w.counters, w.attacks), e.p, e.t, cfg, cap);
    }
  }

  // ----- the verdict

  /** An old connection with few packets or few bytes; c is the connection after the packet was counted. */
  ghost predicate Slow(c: Conn, check: int) {
    && (c.state == SynReceived || c.state == Established)
    && ((check - c.firstSeen > 60 && c.packets < 10) || (check - c.firstSeen > 30 && c.bytes < 100))
  }

  /** The refused packets: malformed, no flag at all, SYN (1) with FIN (0) or RST (2), FIN with PSH (3) and URG (5). */
  ghost predicate Senseless(p: Packet) {
    || p.malformed || p.flags == 0
    || (Bit(p.flags, 1) == 1 && (Bit(p.flags, 0) == 1 || Bit(p.flags, 2) == 1))
    || (Bit(p.flags, 0) == 1 && Bit(p.flags, 3) == 1 && Bit(p.flags, 5) == 1)
  }

  /** More than nine tenths of 524288 connections, and a pure SYN of a source with less than 50 points. */
  ghost predicate NoRoom(n: nat, flags: Byte, reputation: Word) {
    n > 471859 && flags == 0x02 && reputation < 50
  }

  ghost predicate FlagsReported(s: Stats, flags: Byte, now: int, cfg: Config) {
    exists a :: Reports(s, flags, now, cfg, a)
  }

  lemma SomeReport(s: Stats, flags: Byte, now: int, cfg: Config)
    ensures Judge(s, flags, now, cfg).1.Some? <==> FlagsReported(s, flags, now, cfg)
  {
    hide Judge, Reports;
    var r := Judge(s, flags, now, cfg).1;
    if r.Some? {
      ReportedExactly(s, flags, now, cfg, r.value);
    }
    if a :| Reports(s, flags, now, cfg, a) {
      ReportedExactly(s, flags, now, cfg, a);
    }
  }

  lemma SenselessIsInvalid(p: Packet)
    ensures Senseless(p) <==> Invalid(p)
  {
    hide Bit, And, HasAll;
    CombinationsByDigits(p.flags);
  }

  lemma SlowIsSlowloris(c: Conn, check: int)
    ensures Slow(c, check) <==> IsSlowloris(c, check)
  {
  }

  lemma PacketLeavesOne(v: seq<Conn>, w: seq<Conn>, u: seq<Conn>, p: Packet, t: Clocks, cap: nat)
    requires PacketLeaves(v, w, p, t, cap) && PacketLeaves(v, u, p, t, cap)
    ensures w == u
  {
    hide KindOf, Conn.Key, ConnTuple.Key;
    if k :| 0 <= k < |v| && v[k].Key() == p.Tuple().Key() {
      assert NextPacket(v, w, k, p, t) && NextPacket(v, u, k, p, t);
    } else {
      assert Absent(v, p.Tuple().Key());
    }
  }

  /** The verdict on a packet, the Slowloris report and the list it leaves; w is the list after the packet
      was counted. Other protocols pass and leave no trace. A TCP packet is accepted exactly when nothing is reported, there
      is room and it makes sense; its connection is taken out exactly when Slowloris is reported. */
  lemma VerdictExactly(x: Scene, p: Packet, t: Clocks, cfg: Config, cap: nat, w: seq<Conn>)
    requires cap > 0 && DistinctKeys(x.conns) && |x.conns| <= cap
    requires w != [] && PacketLeaves(x.conns, w, p, t, cap)
    ensures var (y, verdict) := Analyze(x, p, t, cfg, cap);
            var flood, slow := FlagsReported(x.stats, p.flags, t.now, cfg), Slow(w[0], t.check);
            if p.protocol != 6 then y == x && verdict == Accept else
            && (verdict == Accept <==> !flood && !slow && !NoRoom(|w|, p.flags, x.stats.reputation) && !Senseless(p))
            && (verdict == Accept || verdict == DropPacket)
            && y.attacks.slowloris == x.attacks.slowloris + (if !flood && slow then 1 else 0)
            && if !flood && slow then RemovalLeaves(w, y.conns, p.Tuple().Key()) else y.conns == w
  {
    hide Track, Removed, KindOf, IsSlowloris, Invalid, ConnTuple.Key, Conn.Key, Judge, PacketLeaves, RemovalLeaves,
      FlagsReported, Slow, Senseless;
    TrackLeaves(x.conns, p, t, cap);
    PacketLeavesOne(x.conns, w, Track(x.conns, p, t, cap), p, t, cap);
    TcpTracking.TrackedMembers(x.conns, p, t, cap);
    RemovedLeaves(w, p.Tuple().Key());
    SomeReport(x.stats, p.flags, t.now, cfg);
    NeverByFlags(x.stats, p.flags, t.now, cfg);
    SameReputation(x.stats, p.flags, t.now, cfg);
    SenselessIsInvalid(p);
    SlowIsSlowloris(w[0], t.check);
  }

  lemma SameReputation(s: Stats, flags: Byte, now: int, cfg: Config)
    ensures Judge(s, flags, now, cfg).0.reputation == s.reputation
  {
    hide KindOf;
  }
}
