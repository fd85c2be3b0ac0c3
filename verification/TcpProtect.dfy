/** TCP flood protection over the connection cache (src/detection/tcp_protect.c). */
module TcpProtection {
  import opened Addresses
  import opened Bits
  import opened ConnCache
  import opened ConnTable
  import opened LruTheory
  import opened Options
  import opened TcpTheory

  /** ip_stats_t: what is known of one source. */
  class IpStats {
    var synPps: nat
    var ackPps: nat
    var lastUpdate: int
    var packets: Tally
    var reputation: Word
    var isBlacklisted: bool
    var isWhitelisted: bool
    var blacklistExpires: int

    ghost function Value(): Stats
      reads this`synPps, this`ackPps, this`lastUpdate, this`packets, this`reputation
    {
      Stats(synPps, ackPps, lastUpdate, packets, reputation)
    }

    constructor (now: int)
      ensures Value() == Stats(0, 0, now, Tally(0, 0, 0, 0, 0, 0), 50)
      ensures !isBlacklisted && !isWhitelisted && blacklistExpires == 0
    {
      synPps, ackPps, lastUpdate, packets, reputation := 0, 0, now, Tally(0, 0, 0, 0, 0, 0), 50;
      isBlacklisted, isWhitelisted, blacklistExpires := false, false, 0;
    }
  }

  class TcpProtect {
    const cache: LruCache
    const config: Config
    var totalPackets: nat
    var synPackets: nat
    var ackPackets: nat
    var rstPackets: nat
    var finPackets: nat
    var droppedPackets: nat
    /** attacks_detected of the global statistics. */
    var attacks: Tally

    ghost function Counts(): Counters
      reads this`totalPackets, this`synPackets, this`ackPackets, this`rstPackets, this`finPackets, this`droppedPackets
    {
      Counters(totalPackets, synPackets, ackPackets, rstPackets, finPackets, droppedPackets)
    }

    constructor (cache: LruCache, config: Config)
      ensures this.cache == cache && this.config == config
      ensures Counts() == Counters(0, 0, 0, 0, 0, 0) && attacks == Tally(0, 0, 0, 0, 0, 0)
    {
      this.cache, this.config := cache, config;
      totalPackets, synPackets, ackPackets, rstPackets, finPackets, droppedPackets := 0, 0, 0, 0, 0, 0;
      attacks := Tally(0, 0, 0, 0, 0, 0);
    }

    // ----- writes to the connection in front of the list

    method CountConn(conn: ConnEntry, len: nat, now: int)
      requires cache.Valid() && cache.order != [] && conn == cache.order[0]
      modifies conn`packets, conn`bytes, conn`lastSeen
      ensures cache.Valid()
      ensures var c := old(cache.View())[0];
              cache.View() == old(cache.View())[0 := c.(packets := c.packets + 1, bytes := c.bytes + len, lastSeen := now)]
    {
      hide HashTable.Valid, LruCache.Joined;
      conn.packets := conn.packets + 1;
      conn.bytes := conn.bytes + len;
      conn.lastSeen := now;
    }

    method SetState(conn: ConnEntry, s: TcpState)
      requires cache.Valid() && cache.order != [] && conn == cache.order[0]
      modifies conn`state
      ensures cache.Valid()
      ensures cache.View() == old(cache.View())[0 := old(cache.View())[0].(state := s)]
    {
      hide HashTable.Valid, LruCache.Joined;
      conn.state := s;
    }

    // ----- the rules for each kind of packet

    /** An attack is counted and its packet dropped. */
    method Report(a: Attack)
      modifies this`attacks, this`droppedPackets
      ensures attacks == old(attacks).Plus(a) && Counts() == Dropped(old(Counts()))
    {
      attacks := attacks.Plus(a);
      droppedPackets := droppedPackets + 1;
    }

    ghost function DeskOf(stats: IpStats): Desk
      reads this, stats
    {
      Desk(stats.Value(), Counts(), attacks)
    }

    method OnSyn(stats: IpStats, flags: Byte, now: int) returns (attack: Option<Attack>)
      requires cache.Valid()
      requires flags == TCP_FLAG_SYN
      modifies this`synPackets, this`droppedPackets, this`attacks, stats`synPps, stats`lastUpdate, stats`packets
      ensures cache.Valid() && cache.View() == old(cache.View())
      ensures Ruled(old(DeskOf(stats)), DeskOf(stats), flags, now, config, attack)
    {
      hide HasAll, LruCache.Linked, HashTable.Valid, LruCache.View;
      synPackets := synPackets + 1;
      stats.synPps := stats.synPps + 1;
      if now - stats.lastUpdate >= 1 {
        if stats.synPps > config.synThreshold {
          stats.packets := stats.packets.Plus(SynFlood);
          Report(SynFlood);
          return Some(SynFlood);
        }
        stats.synPps := 0;
        stats.lastUpdate := now;
      }
      return None;
    }

    method OnAck(stats: IpStats, flags: Byte, now: int) returns (attack: Option<Attack>)
      requires cache.Valid()
      requires KindOf(flags) == Ack
      modifies this`ackPackets, this`droppedPackets, this`attacks, stats`ackPps, stats`packets
      ensures cache.Valid() && cache.View() == old(cache.View())
      ensures Ruled(old(DeskOf(stats)), DeskOf(stats), flags, now, config, attack)
    {
      hide HasAll, LruCache.Linked, HashTable.Valid, LruCache.View, Tally.Plus;
      ackPackets := ackPackets + 1;
      stats.ackPps := stats.ackPps + 1;
      if now - stats.lastUpdate >= 1 {
        if stats.ackPps > config.ackThreshold {
          stats.packets := stats.packets.Plus(AckFlood);
          Report(AckFlood);
          return Some(AckFlood);
        }
        stats.ackPps := 0;
      }
      if flags == TCP_FLAG_ACK + TCP_FLAG_PSH && stats.packets.pshAckFlood > 1000 {
        stats.packets := stats.packets.Plus(PshAckFlood);
        Report(PshAckFlood);
        return Some(PshAckFlood);
      }
      return None;
    }

    method OnRst(stats: IpStats, flags: Byte, now: int) returns (attack: Option<Attack>)
      requires cache.Valid()
      requires KindOf(flags) == Rst
      modifies this`rstPackets, this`droppedPackets, this`attacks, stats`packets
      ensures cache.Valid() && cache.View() == old(cache.View())
      ensures Ruled(old(DeskOf(stats)), DeskOf(stats), flags, now, config, attack)
    {
      hide HasAll, LruCache.Linked, HashTable.Valid, LruCache.View;
      rstPackets := rstPackets + 1;
      stats.packets := stats.packets.Plus(RstFlood);
      if stats.packets.rstFlood > 5000 {
        Report(RstFlood);
        return Some(RstFlood);
      }
      return None;
    }

    method OnFin(stats: IpStats, flags: Byte, now: int) returns (attack: Option<Attack>)
      requires cache.Valid()
      requires KindOf(flags) == Fin
      modifies this`finPackets, this`droppedPackets, this`attacks, stats`packets
      ensures cache.Valid() && cache.View() == old(cache.View())
      ensures Ruled(old(DeskOf(stats)), DeskOf(stats), flags, now, config, attack)
    {
      hide HasAll, LruCache.Linked, HashTable.Valid, LruCache.View;
      finPackets := finPackets + 1;
      stats.packets := stats.packets.Plus(FinFlood);
      if stats.packets.finFlood > 5000 {
        Report(FinFlood);
        return Some(FinFlood);
      }
      return None;
    }

    /** The flag rules: the state of the connection moves, the source is judged. */
    method ApplyRules(conn: ConnEntry, flags: Byte, stats: IpStats, now: int) returns (attack: Option<Attack>)
      requires cache.Valid() && cache.order != [] && conn == cache.order[0]
      modifies this, stats, conn`state
      ensures cache.Valid()
      ensures cache.View() == old(cache.View())[0 := old(cache.View())[0].(state := NextState(old(cache.View())[0].state, KindOf(flags)))]
      ensures Ruled(old(DeskOf(stats)), DeskOf(stats), flags, now, config, attack)
      ensures stats.isBlacklisted == old(stats.isBlacklisted) && stats.isWhitelisted == old(stats.isWhitelisted)
      ensures stats.blacklistExpires == old(stats.blacklistExpires)
    {
      hide HasAll, LruCache.Valid, LruCache.View, Ruled;
      FrontState(conn);
      attack := None;
      if flags == TCP_FLAG_SYN {
        SetState(conn, SynSent);
        attack := OnSyn(stats, flags, now);
      } else if HasAll(flags, TCP_FLAG_SYN + TCP_FLAG_ACK) {
        if conn.state == SynSent {
          SetState(conn, SynReceived);
        }
        NoRule(DeskOf(stats), flags, now, config);
      } else if flags == TCP_FLAG_ACK || flags == TCP_FLAG_ACK + TCP_FLAG_PSH {
        if conn.state == SynReceived {
          SetState(conn, Established);
        }
        attack := OnAck(stats, flags, now);
      } else if And(flags, TCP_FLAG_RST) != 0 {
        SetState(conn, Closed);
        attack := OnRst(stats, flags, now);
      } else if And(flags, TCP_FLAG_FIN) != 0 {
        if conn.state == Established {
          SetState(conn, FinWait);
        }
        attack := OnFin(stats, flags, now);
      } else {
        NoRule(DeskOf(stats), flags, now, config);
      }
    }

    ghost function SceneOf(stats: IpStats): Scene
      reads this, stats, cache`order, cache.order`state, cache.order`lastSeen, cache.order`packets, cache.order`bytes
    {
      Scene(cache.View(), stats.Value(), Counts(), attacks)
    }

    /** lru_cache_get and the first writes to the connection. */
    method Enter(p: Packet, t: Clocks) returns (conn: ConnEntry)
      requires cache.Valid()
      modifies cache, cache.table, cache.table.buckets, cache.table.model.nexts.Keys
      ensures cache.Valid() && cache.order != [] && conn == cache.order[0]
      ensures var u := Touch(old(cache.View()), p.Tuple(), t.get, cache.maxSize);
              u != [] && cache.View() == u[0 := u[0].(packets := u[0].packets + 1, bytes := u[0].bytes + p.len, lastSeen := t.now)]
      ensures conn in old(cache.table.model.nexts) || fresh(conn)
      ensures forall e :: e in cache.table.model.nexts ==> e in old(cache.table.model.nexts) || fresh(e)
    {
      hide LruCache.Valid, LruCache.View, Touch, ConnTuple.Key;
      conn := cache.Get(p.Tuple(), t.get);
      cache.ListNodes();
      CountConn(conn, p.len, t.now);
    }

    /** is_slowloris_attack, for the connection in front. */
    method LooksSlow(conn: ConnEntry, now: int) returns (slow: bool)
      requires cache.Valid() && cache.order != [] && conn == cache.order[0]
      ensures slow == IsSlowloris(cache.View()[0], now)
      ensures cache.Valid() && cache.View() == old(cache.View())
    {
      slow := false;
      if conn.state == SynReceived || conn.state == Established {
        if now - conn.firstSeen > 60 && conn.packets < 10 {
          return true;
        }
        if now - conn.firstSeen > 30 && conn.bytes < 100 {
          return true;
        }
      }
    }

    /** A Slowloris connection is reported and closed. */
    method CloseSlow(p: Packet, stats: IpStats)
      requires cache.Valid()
      modifies this`attacks, this`droppedPackets, stats`packets
      modifies cache, cache.table, cache.table.buckets, cache.table.model.nexts.Keys
      ensures cache.Valid() && cache.View() == Removed(old(cache.View()), p.Tuple().Key())
      ensures stats.Value() == old(stats.Value()).(packets := old(stats.packets).Plus(Slowloris))
      ensures attacks == old(attacks).Plus(Slowloris) && Counts() == Dropped(old(Counts()))
      ensures cache.table.model.nexts.Keys <= old(cache.table.model.nexts.Keys)
    {
      hide LruCache.Linked, HashTable.Valid, LruCache.View, Removed, ConnTuple.Key;
      var found := cache.Remove(p.Tuple());
      stats.packets := stats.packets.Plus(Slowloris);
      Report(Slowloris);
    }

    /** The checks that need no history: a nearly full table, malformed packets, senseless flags. */
    method LastChecks(p: Packet, stats: IpStats, connCount: nat) returns (verdict: Verdict)
      requires cache.Valid()
      modifies this`droppedPackets
      ensures cache.Valid() && cache.View() == old(cache.View())
      ensures verdict == (if (10 * connCount > 9 * LRU_CACHE_SIZE && p.flags == TCP_FLAG_SYN && stats.reputation < 50) || Invalid(p)
                          then DropPacket else Accept)
      ensures Counts() == if verdict == DropPacket then Dropped(old(Counts())) else old(Counts())
    {
      hide And, LruCache.Linked, HashTable.Valid, LruCache.View;
      if 10 * connCount > 9 * LRU_CACHE_SIZE {
        if p.flags == TCP_FLAG_SYN && stats.reputation < 50 {
          droppedPackets := droppedPackets + 1;
          return DropPacket;
        }
      }
      if p.malformed {
        droppedPackets := droppedPackets + 1;
        return DropPacket;
      }
      if HasAll(p.flags, TCP_FLAG_SYN + TCP_FLAG_FIN) {
        droppedPackets := droppedPackets + 1;
        return DropPacket;
      }
      if HasAll(p.flags, TCP_FLAG_SYN + TCP_FLAG_RST) {
        droppedPackets := droppedPackets + 1;
        return DropPacket;
      }
      if p.flags == 0 {
        droppedPackets := droppedPackets + 1;
        return DropPacket;
      }
      if HasAll(p.flags, TCP_FLAG_FIN + TCP_FLAG_PSH + TCP_FLAG_URG) {
        droppedPackets := droppedPackets + 1;
        return DropPacket;
      }
      return Accept;
    }

    /** The packet is counted and its flags are judged. */
    method Arrive(p: Packet, stats: IpStats, t: Clocks) returns (conn: ConnEntry, attack: Option<Attack>)
      requires cache.Valid() && cache.maxSize > 0
      modifies this, stats, cache, cache.table, cache.table.buckets, cache.table.model.nexts.Keys
      ensures cache.Valid() && cache.order != [] && conn == cache.order[0]
      ensures cache.View() == Track(old(cache.View()), p, t, cache.maxSize)
      ensures var d := old(DeskOf(stats));
              Ruled(d.(counters := d.counters.(total := d.counters.total + 1)), DeskOf(stats), p.flags, t.now, config, attack)
      ensures stats.isBlacklisted == old(stats.isBlacklisted) && stats.isWhitelisted == old(stats.isWhitelisted)
      ensures stats.blacklistExpires == old(stats.blacklistExpires)
      ensures forall e :: e in cache.table.model.nexts ==> e in old(cache.table.model.nexts) || fresh(e)
    {
      hide LruCache.Valid, LruCache.View, Touch, ConnTuple.Key, KindOf, Ruled;
      totalPackets := totalPackets + 1;
      conn := Enter(p, t);
      attack := ApplyRules(conn, p.flags, stats, t.now);
    }

    /** The rules after the flags. */
    method Settle(conn: ConnEntry, p: Packet, stats: IpStats, t: Clocks) returns (verdict: Verdict)
      requires cache.Valid() && cache.order != [] && conn == cache.order[0]
      modifies this, stats, cache, cache.table, cache.table.buckets, cache.table.model.nexts.Keys
      ensures cache.Valid()
      ensures (SceneOf(stats), verdict) == Settled(old(SceneOf(stats)), p, t)
      ensures stats.isBlacklisted == old(stats.isBlacklisted) && stats.isWhitelisted == old(stats.isWhitelisted)
      ensures stats.blacklistExpires == old(stats.blacklistExpires)
      ensures cache.table.model.nexts.Keys <= old(cache.table.model.nexts.Keys)
    {
      hide LruCache.Valid, LruCache.View, ConnTuple.Key, Invalid, IsSlowloris, Removed, ViewOf;
      var slow := LooksSlow(conn, t.check);
      if slow {
        CloseSlow(p, stats);
        return DropPacket;
      }
      SizeOfView();
      verdict := LastChecks(p, stats, cache.currentSize);
    }

    /** tcp_protect_analyze */
    method Inspect(p: Packet, stats: IpStats, t: Clocks) returns (verdict: Verdict)
      requires cache.Valid()
      modifies this, stats, cache, cache.table, cache.table.buckets, cache.table.model.nexts.Keys
      ensures cache.Valid() && cache.maxSize > 0
      ensures (SceneOf(stats), verdict) == Analyze(old(SceneOf(stats)), p, t, config, cache.maxSize)
      ensures stats.isBlacklisted == old(stats.isBlacklisted) && stats.isWhitelisted == old(stats.isWhitelisted)
      ensures stats.blacklistExpires == old(stats.blacklistExpires)
      ensures forall e :: e in cache.table.model.nexts ==> e in old(cache.table.model.nexts) || fresh(e)
    {
      hide LruCache.Valid, LruCache.View, Track, ConnTuple.Key, KindOf, Judge, ViewOf, CountKind, Settled;
      CapacityPositive();
      if p.protocol != PROTO_TCP {
        return Accept;
      }
      var conn, attack := Arrive(p, stats, t);
      if attack.Some? {
        return DropPacket;
      }
      verdict := Settle(conn, p, stats, t);
    }

    lemma CapacityPositive()
      requires cache.Valid()
      ensures cache.maxSize > 0
    {
    }

    lemma SizeOfView()
      requires cache.Valid()
      ensures cache.currentSize == |cache.View()|
    {
    }

    lemma FrontState(conn: ConnEntry)
      requires cache.Valid() && cache.order != [] && conn == cache.order[0]
      ensures conn.state == cache.View()[0].state
    {
    }
  }

  lemma NoRule(d: Desk, flags: Byte, now: int, cfg: Config)
    requires KindOf(flags) == SynAck || KindOf(flags) == Other
    ensures Ruled(d, d, flags, now, cfg, None)
  {
  }
}
