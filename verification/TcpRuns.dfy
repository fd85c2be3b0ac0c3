/** Theorems over whole runs of the TCP rules, for all sources and connections together. */
module TcpRuns {
  import opened Addresses
  import opened Bits
  import opened LruTheory
  import opened Options
  import opened Sums
  import opened TcpTheory

  /** A packet, with the clock readings of its step and of the first sighting of its source;
      an expiry walk of the connection cache; or what the other rules do to a source: they move
      last_update and the reputation, and touch no TCP counter. */
  datatype Event =
    | Segment(p: Packet, t: Clocks, met: int)
    | Expire(now: int)
    | Elsewhere(source: IpKey, lastUpdate: int, reputation: Word)

  datatype World = World(conns: seq<Conn>, sources: map<IpKey, Stats>, counters: Counters, attacks: Tally)

  const NO_TALLY := Tally(0, 0, 0, 0, 0, 0)
  const START := World([], map[], Counters(0, 0, 0, 0, 0, 0), NO_TALLY)

  /** A source seen for the first time. */
  function Met(now: int): Stats {
    Stats(0, 0, now, NO_TALLY, 50)
  }

  function StatsOf(w: World, x: IpKey, met: int): Stats {
    if x in w.sources then w.sources[x] else Met(met)
  }

  function Outcome(w: World, p: Packet, t: Clocks, met: int, cfg: Config, cap: nat): (Scene, Verdict)
    requires cap > 0
  {
    Analyze(Scene(w.conns, StatsOf(w, p.src.Key(), met), w.counters, w.attacks), p, t, cfg, cap)
  }

  function Step(w: World, e: Event, cfg: Config, cap: nat): World
    requires cap > 0
  {
    match e
    case Segment(p, t, met) =>
      var x := Outcome(w, p, t, met, cfg, cap).0;
      World(x.conns, w.sources[p.src.Key() := x.stats], x.counters, x.attacks)
    case Expire(now) => w.(conns := Live(w.conns, now))
    case Elsewhere(x, lastUpdate, reputation) =>
      if x in w.sources then w.(sources := w.sources[x := w.sources[x].(lastUpdate := lastUpdate, reputation := reputation)])
      else w
  }

  function After(es: seq<Event>, cfg: Config, cap: nat): World
    requires cap > 0
  {
    if es == [] then START else Step(After(es[..|es| - 1], cfg, cap), es[|es| - 1], cfg, cap)
  }

  /** How many packets of the run were answered with DROP. */
  function Drops(es: seq<Event>, cfg: Config, cap: nat): nat
    requires cap > 0
  {
    if es == [] then 0 else
      var rest, e := es[..|es| - 1], es[|es| - 1];
      Drops(rest, cfg, cap) +
      if e.Segment? && Outcome(After(rest, cfg, cap), e.p, e.t, e.met, cfg, cap).1 == DropPacket then 1 else 0
  }

  // ----- accounting

  /** The attack reports a source owes for its counter: every count, but floods of RST and FIN
      are only reported past 5000. */
  function Due(s: Stats, a: Attack): nat {
    if a != RstFlood && a != FinFlood then s.packets.Of(a)
    else if s.packets.Of(a) > 5000 then s.packets.Of(a) - 5000
    else 0
  }

  function Column(sources: map<IpKey, Stats>, a: Attack): map<IpKey, nat> {
    map x | x in sources :: Due(sources[x], a)
  }

  /** One packet reports exactly the attacks it adds to its source. */
  lemma OneReport(x: Scene, p: Packet, t: Clocks, cfg: Config, cap: nat, a: Attack)
    requires cap > 0
    ensures var r := Analyze(x, p, t, cfg, cap);
            r.0.attacks.Of(a) - x.attacks.Of(a) == Due(r.0.stats, a) - Due(x.stats, a)
    ensures Analyze(x, p, t, cfg, cap).0.counters.dropped ==
            x.counters.dropped + if Analyze(x, p, t, cfg, cap).1 == DropPacket then 1 else 0
  {
    hide Track, KindOf, IsSlowloris, Invalid, Removed, Judge, Due, Tally.Plus, Tally.Of;
    var (s, attack) := Judge(x.stats, p.flags, t.now, cfg);
    JudgeReport(x.stats, p.flags, t.now, cfg, a);
    PlusOne(x.attacks, if attack.Some? then attack.value else Slowloris, a);
    SlowlorisDue(s, a);
  }

  lemma PlusOne(n: Tally, b: Attack, a: Attack)
    ensures n.Plus(b).Of(a) == n.Of(a) + if a == b then 1 else 0
  {
  }

  lemma SlowlorisDue(s: Stats, a: Attack)
    ensures Due(s.(packets := s.packets.Plus(Slowloris)), a) == Due(s, a) + if a == Slowloris then 1 else 0
  {
  }

  lemma JudgeReport(s: Stats, flags: Byte, now: int, cfg: Config, a: Attack)
    ensures var (s', attack) := Judge(s, flags, now, cfg);
            Due(s', a) == Due(s, a) + if attack == Some(a) then 1 else 0
  {
    hide KindOf;
  }

  lemma ColumnUpdate(sources: map<IpKey, Stats>, x: IpKey, s: Stats, a: Attack)
    ensures Sum(Column(sources[x := s], a)) ==
            Sum(Column(sources, a)) - (if x in sources then Due(sources[x], a) else 0) + Due(s, a)
  {
    hide Due;
    assert Column(sources[x := s], a) == Column(sources, a)[x := Due(s, a)];
    SumUpdate(Column(sources, a), x, Due(s, a));
  }

  lemma NewSourceOwesNothing(now: int, a: Attack)
    ensures Due(Met(now), a) == 0
  {
  }

  /** In every run dropped_packets is the number of DROP verdicts, and for every attack attacks_detected
      is the sum over all sources of what their counters owe. */
  lemma {:induction false} Accounting(es: seq<Event>, cfg: Config, cap: nat, a: Attack)
    requires cap > 0
    ensures After(es, cfg, cap).counters.dropped == Drops(es, cfg, cap)
    ensures After(es, cfg, cap).attacks.Of(a) == Sum(Column(After(es, cfg, cap).sources, a))
  {
    hide Analyze, Due, IpAddr.Key, Live, Sum, Column;
    if es == [] {
      EmptyColumn(a);
    } else {
      var rest, e := es[..|es| - 1], es[|es| - 1];
      var w := After(rest, cfg, cap);
      Accounting(rest, cfg, cap, a);
      match e
      case Segment(p, t, met) =>
        var s := StatsOf(w, p.src.Key(), met);
        OneReport(Scene(w.conns, s, w.counters, w.attacks), p, t, cfg, cap, a);
        ColumnUpdate(w.sources, p.src.Key(), Outcome(w, p, t, met, cfg, cap).0.stats, a);
        NewSourceOwesNothing(met, a);
      case Expire(now) =>
      case Elsewhere(x, lastUpdate, reputation) =>
        if x in w.sources {
          var s := w.sources[x].(lastUpdate := lastUpdate, reputation := reputation);
          ColumnUpdate(w.sources, x, s, a);
          SameDue(w.sources[x], s, a);
        }
    }
  }

  lemma EmptyColumn(a: Attack)
    ensures Sum(Column(map[], a)) == 0 && NO_TALLY.Of(a) == 0
  {
  }

  lemma SameDue(s: Stats, s': Stats, a: Attack)
    requires s.packets == s'.packets
    ensures Due(s, a) == Due(s', a)
  {
  }

  // ----- one source

  ghost predicate NoPushFlood(w: World) {
    forall x {:trigger w.sources[x]} :: x in w.sources ==> w.sources[x].packets.pshAckFlood == 0
  }

  lemma JudgeNoPush(s: Stats, flags: Byte, now: int, cfg: Config)
    requires s.packets.pshAckFlood == 0
    ensures Judge(s, flags, now, cfg).0.packets.pshAckFlood == 0
    ensures Judge(s, flags, now, cfg).1 != Some(PshAckFlood)
  {
    hide KindOf;
  }

  /** The PSH+ACK counter of a source is only raised past 1000, so it stays 0 in every run,
      and no PSH+ACK flood is ever reported. */
  lemma {:induction false} PushFloodNeverSeen(es: seq<Event>, cfg: Config, cap: nat)
    requires cap > 0
    ensures NoPushFlood(After(es, cfg, cap)) && After(es, cfg, cap).attacks.pshAckFlood == 0
  {
    hide IpAddr.Key, Live, Judge, Track, KindOf, IsSlowloris, Invalid, Removed;
    if es != [] {
      var rest, e := es[..|es| - 1], es[|es| - 1];
      var w := After(rest, cfg, cap);
      PushFloodNeverSeen(rest, cfg, cap);
      if e.Segment? {
        JudgeNoPush(StatsOf(w, e.p.src.Key(), e.met), e.p.flags, e.t.now, cfg);
      }
    }
  }

  ghost predicate OverThreshold(w: World, x: IpKey, cfg: Config) {
    x in w.sources && w.sources[x].synPps > cfg.synThreshold
  }

  lemma JudgeKeepsHigh(s: Stats, flags: Byte, now: int, cfg: Config)
    requires s.synPps > cfg.synThreshold
    ensures Judge(s, flags, now, cfg).0.synPps > cfg.synThreshold
    ensures KindOf(flags) == PureSyn && now - s.lastUpdate >= 1 ==> Judge(s, flags, now, cfg).1 == Some(SynFlood)
  {
    hide KindOf;
  }

  lemma StepKeepsHigh(w: World, e: Event, cfg: Config, cap: nat, x: IpKey)
    requires cap > 0 && OverThreshold(w, x, cfg)
    ensures OverThreshold(Step(w, e, cfg, cap), x, cfg)
    ensures e.Segment? && e.p.src.Key() == x && e.p.protocol == PROTO_TCP && e.p.flags == TCP_FLAG_SYN &&
            e.t.now - w.sources[x].lastUpdate >= 1 ==>
              Outcome(w, e.p, e.t, e.met, cfg, cap).1 == DropPacket
  {
    hide IpAddr.Key, Live, Judge, Track, IsSlowloris, Invalid, Removed;
    if e.Segment? && e.p.src.Key() == x {
      JudgeKeepsHigh(w.sources[x], e.p.flags, e.t.now, cfg);
    }
  }

  /** Once a source has more than the threshold of unanswered SYNs, its counter never comes back to
      the threshold or below, and every later SYN of a new second is dropped. */
  lemma {:induction false} SynCounterStaysHigh(es: seq<Event>, n: nat, cfg: Config, cap: nat, x: IpKey)
    requires cap > 0 && n <= |es| && OverThreshold(After(es[..n], cfg, cap), x, cfg)
    ensures OverThreshold(After(es, cfg, cap), x, cfg)
  {
    hide Step, OverThreshold;
    if n == |es| {
      assert es[..n] == es;
    } else {
      var rest := es[..|es| - 1];
      assert rest[..n] == es[..n];
      SynCounterStaysHigh(rest, n, cfg, cap, x);
      StepKeepsHigh(After(rest, cfg, cap), es[|es| - 1], cfg, cap, x);
    }
  }
}
