/** What tcp_protect_analyze does to a connection, a source and the counters, as functions
    (src/detection/tcp_protect.c). */
module TcpTheory {
  import opened Addresses
  import opened Bits
  import Cidr
  import opened ConnTable
  import opened LruTheory
  import opened Options

  const TCP_FLAG_FIN: Byte := 0x01
  const TCP_FLAG_SYN: Byte := 0x02
  const TCP_FLAG_RST: Byte := 0x04
  const TCP_FLAG_PSH: Byte := 0x08
  const TCP_FLAG_ACK: Byte := 0x10
  const TCP_FLAG_URG: Byte := 0x20

  const LRU_CACHE_SIZE := 524288

  predicate HasAll(flags: Byte, mask: Byte) {
    And(flags, mask) == mask
  }

  /** Which branch the flags lead to. */
  datatype Kind = PureSyn | SynAck | Ack | Rst | Fin | Other

  function KindOf(flags: Byte): Kind {
    if flags == TCP_FLAG_SYN then PureSyn
    else if HasAll(flags, TCP_FLAG_SYN + TCP_FLAG_ACK) then SynAck
    else if flags == TCP_FLAG_ACK || flags == TCP_FLAG_ACK + TCP_FLAG_PSH then Ack
    else if And(flags, TCP_FLAG_RST) != 0 then Rst
    else if And(flags, TCP_FLAG_FIN) != 0 then Fin
    else Other
  }

  /** The state of a connection after a packet of this kind. */
  function NextState(s: TcpState, k: Kind): TcpState {
    match k
    case PureSyn => SynSent
    case SynAck => if s == SynSent then SynReceived else s
    case Ack => if s == SynReceived then Established else s
    case Rst => Closed
    case Fin => if s == Established then FinWait else s
    case Other => s
  }

  // ----- the flags by their digits

  lemma FlagSet(flags: Byte, bit: nat, mask: Byte)
    requires bit < 8 && mask == Pow2(bit)
    ensures And(flags, mask) != 0 <==> Bit(flags, bit) == 1
    ensures And(flags, mask) == mask <==> Bit(flags, bit) == 1
  {
    hide And, Bit;
    assert Pow2(8) == 0x100;
    forall j | 0 <= j < 8
      ensures Bit(And(flags, mask), j) == if j == bit then Bit(flags, j) else 0
      ensures Bit(mask, j) == if j == bit then 1 else 0
      ensures Bit(0, j) == 0
    {
      Cidr.BitOfAnd(flags, mask, j);
      PowerBit(bit, j);
      Cidr.NoBits(j);
    }
    Cidr.AndBelow(flags, mask);
    Cidr.BitIsDigit(flags, bit);
    assert Bit(And(flags, mask), bit) == Bit(flags, bit);
    if Bit(flags, bit) == 1 {
      Cidr.BitsDetermine(And(flags, mask), mask, 8);
    } else {
      Cidr.BitsDetermine(And(flags, mask), 0, 8);
    }
  }

  lemma {:induction false} PowerBit(n: nat, j: nat)
    ensures Bit(Pow2(n), j) == if j == n then 1 else 0
  {
    if j == 0 {
    } else if n == 0 {
      Cidr.NoBits(j - 1);
    } else {
      PowerBit(n - 1, j - 1);
    }
  }

  lemma {:induction false} AndSelf(x: nat)
    ensures And(x, x) == x
  {
    if x != 0 {
      AndSelf(x / 2);
    }
  }

  lemma HasAllByDigits(flags: Byte, mask: Byte)
    ensures HasAll(flags, mask) <==> Cidr.AgreeUnder(mask, flags, mask, 8)
  {
    hide And, Bit;
    assert Pow2(8) == 0x100;
    AndSelf(mask);
    Cidr.MaskedEqual(mask, flags, mask, 8);
  }

  /** All eight flags are as in the given combination. */
  ghost predicate SameDigits(flags: Byte, combination: Byte) {
    forall j {:trigger Bit(flags, j)} {:trigger Bit(combination, j)} :: 0 <= j < 8 ==> Bit(flags, j) == Bit(combination, j)
  }

  lemma EqualByDigits(flags: Byte, combination: Byte)
    ensures flags == combination <==> SameDigits(flags, combination)
  {
    hide Bit;
    assert Pow2(8) == 0x100;
    if SameDigits(flags, combination) {
      Cidr.BitsDetermine(flags, combination, 8);
    }
  }

  /** Which branch a packet takes, told by its SYN (1), ACK (4), RST (2) and FIN (0) digits. */
  lemma KindByDigits(flags: Byte)
    ensures KindOf(flags) == SynAck <==> Bit(flags, 1) == 1 && Bit(flags, 4) == 1
    ensures KindOf(flags) == Rst <==> Bit(flags, 2) == 1 && !(Bit(flags, 1) == 1 && Bit(flags, 4) == 1)
    ensures KindOf(flags) == Fin <==>
            Bit(flags, 0) == 1 && Bit(flags, 2) != 1 && !(Bit(flags, 1) == 1 && Bit(flags, 4) == 1)
    ensures KindOf(flags) == PureSyn <==> SameDigits(flags, TCP_FLAG_SYN)
    ensures KindOf(flags) == Ack <==> SameDigits(flags, TCP_FLAG_ACK) || SameDigits(flags, TCP_FLAG_ACK + TCP_FLAG_PSH)
    ensures KindOf(flags) == Other <==>
            Bit(flags, 0) != 1 && Bit(flags, 2) != 1 && !(Bit(flags, 1) == 1 && Bit(flags, 4) == 1)
            && !SameDigits(flags, TCP_FLAG_SYN) && !SameDigits(flags, TCP_FLAG_ACK)
            && !SameDigits(flags, TCP_FLAG_ACK + TCP_FLAG_PSH)
  {
    hide And, Bit;
    HasAllByDigits(flags, 0x12);
    FlagSet(flags, 2, TCP_FLAG_RST);
    FlagSet(flags, 0, TCP_FLAG_FIN);
    EqualByDigits(flags, TCP_FLAG_SYN);
    EqualByDigits(flags, TCP_FLAG_ACK);
    EqualByDigits(flags, TCP_FLAG_ACK + TCP_FLAG_PSH);
    Constants();
    assert forall j {:trigger Bit(0x12, j)} :: 0 <= j < 8 && Bit(0x12, j) == 1 ==> j == 1 || j == 4;
  }

  lemma Constants()
    ensures Bit(0x02, 0) == 0 && Bit(0x02, 1) == 1 && Bit(0x02, 2) == 0 && Bit(0x02, 4) == 0
    ensures Bit(0x10, 0) == 0 && Bit(0x10, 1) == 0 && Bit(0x10, 2) == 0
    ensures Bit(0x18, 0) == 0 && Bit(0x18, 1) == 0 && Bit(0x18, 2) == 0
    ensures Bit(0x12, 0) == 0 && Bit(0x12, 1) == 1 && Bit(0x12, 2) == 0 && Bit(0x12, 3) == 0
    ensures Bit(0x12, 4) == 1 && Bit(0x12, 5) == 0 && Bit(0x12, 6) == 0 && Bit(0x12, 7) == 0
    ensures Pow2(2) == 4 && Pow2(0) == 1
  {
    assert Bit(0x01, 3) == Bit(0, 2) == 0;
    assert Bit(0x04, 2) == 1;
  }

  // ----- a source

  datatype Attack = SynFlood | AckFlood | RstFlood | FinFlood | PshAckFlood | Slowloris

  /** One counter for each TCP attack. */
  datatype Tally = Tally(synFlood: nat, ackFlood: nat, rstFlood: nat, finFlood: nat, pshAckFlood: nat, slowloris: nat) {
    function Plus(a: Attack): Tally {
      match a
      case SynFlood => this.(synFlood := synFlood + 1)
      case AckFlood => this.(ackFlood := ackFlood + 1)
      case RstFlood => this.(rstFlood := rstFlood + 1)
      case FinFlood => this.(finFlood := finFlood + 1)
      case PshAckFlood => this.(pshAckFlood := pshAckFlood + 1)
      case Slowloris => this.(slowloris := slowloris + 1)
    }

    function Of(a: Attack): nat {
      match a
      case SynFlood => synFlood
      case AckFlood => ackFlood
      case RstFlood => rstFlood
      case FinFlood => finFlood
      case PshAckFlood => pshAckFlood
      case Slowloris => slowloris
    }
  }

  /** The part of ip_stats_t the TCP rules read and write. */
  datatype Stats = Stats(synPps: nat, ackPps: nat, lastUpdate: int, packets: Tally, reputation: Word)

  datatype Config = Config(synThreshold: nat, ackThreshold: nat)

  /** What the flags of a packet do to its source, and the attack they reveal. */
  function Judge(s: Stats, flags: Byte, now: int, cfg: Config): (Stats, Option<Attack>) {
    match KindOf(flags)
    case PureSyn =>
      var s := s.(synPps := s.synPps + 1);
      if now - s.lastUpdate < 1 then (s, None)
      else if s.synPps > cfg.synThreshold then (s.(packets := s.packets.Plus(SynFlood)), Some(SynFlood))
      else (s.(synPps := 0, lastUpdate := now), None)
    case SynAck => (s, None)
    case Ack =>
      var s := s.(ackPps := s.ackPps + 1);
      if now - s.lastUpdate >= 1 && s.ackPps > cfg.ackThreshold then
        (s.(packets := s.packets.Plus(AckFlood)), Some(AckFlood))
      else
        var s := if now - s.lastUpdate >= 1 then s.(ackPps := 0) else s;
        if flags == TCP_FLAG_ACK + TCP_FLAG_PSH && s.packets.pshAckFlood > 1000 then
          (s.(packets := s.packets.Plus(PshAckFlood)), Some(PshAckFlood))
        else (s, None)
    case Rst =>
      var s := s.(packets := s.packets.Plus(RstFlood));
      (s, if s.packets.rstFlood > 5000 then Some(RstFlood) else None)
    case Fin =>
      var s := s.(packets := s.packets.Plus(FinFlood));
      (s, if s.packets.finFlood > 5000 then Some(FinFlood) else None)
    case Other => (s, None)
  }

  // ----- a connection

  /** is_slowloris_attack */
  predicate IsSlowloris(c: Conn, now: int) {
    (c.state == SynReceived || c.state == Established) &&
    ((now - c.firstSeen > 60 && c.packets < 10) || (now - c.firstSeen > 30 && c.bytes < 100))
  }

  datatype Packet = Packet(src: IpAddr, dst: IpAddr, srcPort: Port, dstPort: Port, protocol: Byte,
                           flags: Byte, len: nat, malformed: bool) {
    function Tuple(): ConnTuple {
      ConnTuple(src, dst, srcPort, dstPort, PROTO_TCP)
    }
  }

  /** The clock as lru_cache_get, tcp_protect_analyze and is_slowloris_attack read it. */
  datatype Clocks = Clocks(get: int, now: int, check: int)

  /** The connection after lru_cache_get handed it out and the packet was counted. */
  function Tracked(c: Conn, p: Packet, now: int): Conn {
    c.(packets := c.packets + 1, bytes := c.bytes + p.len, lastSeen := now, state := NextState(c.state, KindOf(p.flags)))
  }

  /** Flag combinations no well-behaved stack sends, and packets the parser found malformed. */
  predicate Invalid(p: Packet) {
    || p.malformed
    || HasAll(p.flags, TCP_FLAG_SYN + TCP_FLAG_FIN)
    || HasAll(p.flags, TCP_FLAG_SYN + TCP_FLAG_RST)
    || p.flags == 0
    || HasAll(p.flags, TCP_FLAG_FIN + TCP_FLAG_PSH + TCP_FLAG_URG)
  }

  datatype Verdict = Accept | DropPacket | RateLimit | Challenge

  datatype Counters = Counters(total: nat, syn: nat, ack: nat, rst: nat, fin: nat, dropped: nat)

  /** The per-kind counters; a SYN+ACK and an unclassified packet have none. */
  function CountKind(n: Counters, k: Kind): Counters {
    match k
    case PureSyn => n.(syn := n.syn + 1)
    case SynAck => n
    case Ack => n.(ack := n.ack + 1)
    case Rst => n.(rst := n.rst + 1)
    case Fin => n.(fin := n.fin + 1)
    case Other => n
  }

  function Counted(n: Counters, k: Kind): Counters {
    CountKind(n.(total := n.total + 1), k)
  }

  /** Everything a TCP packet can change. */
  datatype Scene = Scene(conns: seq<Conn>, stats: Stats, counters: Counters, attacks: Tally)

  function Dropped(n: Counters): Counters {
    n.(dropped := n.dropped + 1)
  }

  /** A source together with the global counters. */
  datatype Desk = Desk(stats: Stats, counters: Counters, attacks: Tally)

  /** What the rules for the flags do to source and counters. */
  predicate Ruled(before: Desk, after: Desk, flags: Byte, now: int, cfg: Config, attack: Option<Attack>) {
    && (after.stats, attack) == Judge(before.stats, flags, now, cfg)
    && var n := CountKind(before.counters, KindOf(flags));
       if attack.Some? then after.counters == Dropped(n) && after.attacks == before.attacks.Plus(attack.value)
       else after.counters == n && after.attacks == before.attacks
  }

  /** lru_cache_get and the first writes to the connection. */
  function Track(v: seq<Conn>, p: Packet, t: Clocks, cap: nat): (w: seq<Conn>)
    requires cap > 0
    ensures w != []
  {
    var v := Touch(v, p.Tuple(), t.get, cap);
    v[0 := Tracked(v[0], p, t.now)]
  }

  /** The rules after the flags: Slowloris, a nearly full table, malformed packets, senseless flags. */
  function Settled(x: Scene, p: Packet, t: Clocks): (r: (Scene, Verdict))
    requires x.conns != []
  {
    if IsSlowloris(x.conns[0], t.check) then
      (Scene(Removed(x.conns, p.Tuple().Key()), x.stats.(packets := x.stats.packets.Plus(Slowloris)),
             Dropped(x.counters), x.attacks.Plus(Slowloris)), DropPacket)
    else if (10 * |x.conns| > 9 * LRU_CACHE_SIZE && p.flags == TCP_FLAG_SYN && x.stats.reputation < 50) || Invalid(p) then
      (x.(counters := Dropped(x.counters)), DropPacket)
    else (x, Accept)
  }

  /** tcp_protect_analyze */
  function Analyze(x: Scene, p: Packet, t: Clocks, cfg: Config, cap: nat): (r: (Scene, Verdict))
    requires cap > 0
  {
    if p.protocol != PROTO_TCP then (x, Accept)
    else
      var conns := Track(x.conns, p, t, cap);
      var counters := Counted(x.counters, KindOf(p.flags));
      var (stats, attack) := Judge(x.stats, p.flags, t.now, cfg);
      if attack.Some? then
        (Scene(conns, stats, Dropped(counters), x.attacks.Plus(attack.value)), DropPacket)
      else Settled(Scene(conns, stats, counters, x.attacks), p, t)
  }

  // ----- what is never let through

  lemma MaskDigits()
    ensures Bit(0x03, 0) == 1 && Bit(0x03, 1) == 1 && Bit(0x03, 2) == 0 && Bit(0x03, 3) == 0
    ensures Bit(0x03, 4) == 0 && Bit(0x03, 5) == 0 && Bit(0x03, 6) == 0 && Bit(0x03, 7) == 0
    ensures Bit(0x06, 0) == 0 && Bit(0x06, 1) == 1 && Bit(0x06, 2) == 1 && Bit(0x06, 3) == 0
    ensures Bit(0x06, 4) == 0 && Bit(0x06, 5) == 0 && Bit(0x06, 6) == 0 && Bit(0x06, 7) == 0
    ensures Bit(0x29, 0) == 1 && Bit(0x29, 1) == 0 && Bit(0x29, 2) == 0 && Bit(0x29, 3) == 1
    ensures Bit(0x29, 4) == 0 && Bit(0x29, 5) == 1 && Bit(0x29, 6) == 0 && Bit(0x29, 7) == 0
  {
    assert Bit(0x00, 2) == 0 && Bit(0x00, 3) == 0 && Bit(0x00, 4) == 0 && Bit(0x00, 5) == 0;
    assert Bit(0x01, 5) == 0 && Bit(0x01, 6) == 0;
    assert Bit(0x02, 3) == 0 && Bit(0x02, 4) == 0 && Bit(0x02, 5) == 0;
    assert Bit(0x05, 2) == 1 && Bit(0x05, 3) == 0 && Bit(0x05, 4) == 0;
  }

  /** The refused combinations by their digits: FIN 0, SYN 1, RST 2, PSH 3, URG 5. */
  lemma CombinationsByDigits(flags: Byte)
    ensures HasAll(flags, TCP_FLAG_SYN + TCP_FLAG_FIN) <==> Bit(flags, 1) == 1 && Bit(flags, 0) == 1
    ensures HasAll(flags, TCP_FLAG_SYN + TCP_FLAG_RST) <==> Bit(flags, 1) == 1 && Bit(flags, 2) == 1
    ensures HasAll(flags, TCP_FLAG_FIN + TCP_FLAG_PSH + TCP_FLAG_URG) <==>
            Bit(flags, 0) == 1 && Bit(flags, 3) == 1 && Bit(flags, 5) == 1
  {
    hide Bit, And;
    HasAllByDigits(flags, 0x03);
    HasAllByDigits(flags, 0x06);
    HasAllByDigits(flags, 0x29);
    MaskDigits();
  }

  /** Whatever the history of its source and connection, an accepted TCP packet is well-formed, carries
      some flag and none of the refused combinations; and a pure SYN of a source with less than 50 points
      is not accepted while the table is nearly full. */
  lemma AcceptedIsSane(x: Scene, p: Packet, t: Clocks, cfg: Config, cap: nat)
    requires cap > 0 && p.protocol == PROTO_TCP && Analyze(x, p, t, cfg, cap).1 == Accept
    ensures !p.malformed && p.flags != 0
    ensures !(Bit(p.flags, 1) == 1 && Bit(p.flags, 0) == 1)
    ensures !(Bit(p.flags, 1) == 1 && Bit(p.flags, 2) == 1)
    ensures !(Bit(p.flags, 0) == 1 && Bit(p.flags, 3) == 1 && Bit(p.flags, 5) == 1)
    ensures p.flags == TCP_FLAG_SYN && x.stats.reputation < 50 ==>
              10 * |Analyze(x, p, t, cfg, cap).0.conns| <= 9 * LRU_CACHE_SIZE
  {
    hide Bit, And, Track, Removed, IsSlowloris;
    CombinationsByDigits(p.flags);
  }
}
