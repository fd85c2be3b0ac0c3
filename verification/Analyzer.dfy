/** The traffic analyzer of src/detection/analyzer.c over its two IP sets. The table of per-source
    statistics is the find-or-create map it is meant to be. */
module Analyzers {
  import opened Addresses
  import opened Bits
  import opened IpSets
  import opened IpSetTheory
  import opened Options
  import opened Reputation
  import opened TcpProtection
  import opened TcpTheory

  ghost function StandingIn(s: IpStats): Standing
    reads s`reputation, s`isBlacklisted, s`isWhitelisted, s`blacklistExpires
  {
    Standing(s.reputation, s.isBlacklisted, s.isWhitelisted, s.blacklistExpires)
  }

  ghost function Objects(table: map<IpKey, IpStats>): set<IpStats> {
    set x | x in table :: table[x]
  }

  ghost function Standings(table: map<IpKey, IpStats>): map<IpKey, Standing>
    reads Objects(table)
  {
    map x | x in table :: StandingIn(table[x])
  }

  ghost predicate OneEach(table: map<IpKey, IpStats>) {
    forall x, y {:trigger table[x], table[y]} :: x in table && y in table && x != y ==> table[x] != table[y]
  }

  /** The world with another standing of one source. */
  ghost function With(w: World, x: IpKey, s: Standing): World {
    w.(standings := w.standings[x := s])
  }

  lemma LastWriteCounts(w: World, x: IpKey)
    ensures forall a, b {:trigger With(With(w, x, a), x, b)} :: With(With(w, x, a), x, b) == With(w, x, b)
  {
    forall a, b
      ensures With(With(w, x, a), x, b) == With(w, x, b)
    {
      assert With(With(w, x, a), x, b).standings == With(w, x, b).standings;
    }
  }

  class Analyzer {
    const whitelist: IpSet
    const blacklist: IpSet
    const blacklistDuration: nat
    var table: map<IpKey, IpStats>

    /** Both sets are sound and share nothing. */
    ghost predicate SetsValid()
      reads whitelist, whitelist.buckets, Nodes(whitelist.buckets)
      reads blacklist, blacklist.buckets, Nodes(blacklist.buckets)
    {
      && whitelist.Valid() && blacklist.Valid()
      && whitelist != blacklist
      && (forall i, j {:trigger whitelist.buckets[i], blacklist.buckets[j]} ::
            0 <= i < |whitelist.buckets| && 0 <= j < |blacklist.buckets| ==> whitelist.buckets[i] != blacklist.buckets[j])
      && Nodes(whitelist.buckets) !! Nodes(blacklist.buckets)
    }

    ghost predicate Valid()
      reads this, whitelist, whitelist.buckets, Nodes(whitelist.buckets)
      reads blacklist, blacklist.buckets, Nodes(blacklist.buckets)
    {
      OneEach(table) && SetsValid()
    }

    ghost function WorldOf(): World
      reads this, Objects(table), whitelist, blacklist
    {
      World(Standings(table), whitelist.Table(), blacklist.Table())
    }

    /** The table is empty and so are both sets. */
    constructor (maxWhite: nat, maxBlack: nat, duration: nat)
      ensures Valid() && WorldOf() == Start(maxWhite, maxBlack) && blacklistDuration == duration
    {
      hide IpSet.Valid;
      whitelist := new IpSet(maxWhite);
      blacklist := new IpSet(maxBlack);
      blacklistDuration := duration;
      table := map[];
    }

    lemma WorldShaped()
      requires Valid()
      ensures Shaped(WorldOf())
    {
      whitelist.Shape();
      blacklist.Shape();
    }

    lemma StandingsAre(m: map<IpKey, Standing>)
      requires m.Keys == table.Keys && forall x {:trigger m[x]} :: x in table ==> m[x] == StandingIn(table[x])
      ensures Standings(table) == m
    {
    }

    /** analyzer_get_ip_stats: the statistics of a source, created neutral at the first sighting. */
    method GetIpStats(ip: IpAddr, now: int) returns (stats: IpStats)
      requires Valid()
      modifies this`table
      ensures Valid() && ip.Key() in table && table[ip.Key()] == stats
      ensures WorldOf() == With(old(WorldOf()), ip.Key(), StandingIn(stats))
      ensures StandingIn(stats) == StandingOf(old(WorldOf()), ip.Key())
      ensures stats in old(Objects(table)) || fresh(stats)
    {
      hide IpAddr.Key, IpSet.Valid;
      if ip.Key() in table {
        return table[ip.Key()];
      }
      ghost var m := Standings(table)[ip.Key() := NEUTRAL];
      stats := new IpStats(now);
      table := table[ip.Key() := stats];
      StandingsAre(m);
    }

    /** Changing one source leaves the standings of the others. */
    lemma OneChanged(before: map<IpKey, Standing>, x: IpKey)
      requires x in table && before.Keys == table.Keys
      requires forall y {:trigger before[y]} :: y in table && y != x ==> before[y] == StandingIn(table[y])
      ensures Standings(table) == before[x := StandingIn(table[x])]
    {
    }

    method SetFlags(stats: IpStats, ghost x: IpKey, white: bool, black: bool)
      requires Valid() && x in table && table[x] == stats
      modifies stats`isWhitelisted, stats`isBlacklisted
      ensures Valid()
      ensures WorldOf() == With(old(WorldOf()), x, StandingIn(stats))
      ensures StandingIn(stats) == old(StandingIn(stats)).(whitelisted := white, blacklisted := black) && table == old(table)
    {
      hide IpSet.Valid;
      ghost var before := Standings(table);
      stats.isWhitelisted := white;
      stats.isBlacklisted := black;
      OneChanged(before, x);
    }

    method SetScore(stats: IpStats, ghost x: IpKey, score: Word)
      requires Valid() && x in table && table[x] == stats
      modifies stats`reputation
      ensures Valid()
      ensures WorldOf() == With(old(WorldOf()), x, StandingIn(stats))
      ensures StandingIn(stats) == old(StandingIn(stats)).(score := score) && table == old(table)
    {
      hide IpSet.Valid;
      ghost var before := Standings(table);
      stats.reputation := score;
      OneChanged(before, x);
    }

    method SetExpiry(stats: IpStats, ghost x: IpKey, expires: int)
      requires Valid() && x in table && table[x] == stats
      modifies stats`blacklistExpires
      ensures Valid()
      ensures WorldOf() == With(old(WorldOf()), x, StandingIn(stats))
      ensures StandingIn(stats) == old(StandingIn(stats)).(expires := expires) && table == old(table)
    {
      hide IpSet.Valid;
      ghost var before := Standings(table);
      stats.blacklistExpires := expires;
      OneChanged(before, x);
    }

    method OnWhitelist(ip: IpAddr, now: int) returns (found: bool)
      requires Valid()
      ensures Valid() && WorldOf() == old(WorldOf()) && table == old(table)
      ensures found == ContainsCidr(WorldOf().whitelist, ip, now)
    {
      hide IpSet.Valid, ContainsCidr;
      found := whitelist.HasCovering(ip, now);
    }

    method OnBlacklist(ip: IpAddr, now: int) returns (found: bool)
      requires Valid()
      ensures Valid() && WorldOf() == old(WorldOf()) && table == old(table)
      ensures found == ContainsCidr(WorldOf().blacklist, ip, now)
    {
      hide IpSet.Valid, ContainsCidr;
      found := blacklist.HasCovering(ip, now);
    }

    method Block(ip: IpAddr, expires: int)
      requires Valid()
      modifies blacklist, blacklist.buckets, Nodes(blacklist.buckets)
      ensures Valid() && table == old(table)
      ensures Shaped(old(WorldOf())) && WorldOf() == old(WorldOf()).(blacklist := AddHost(old(WorldOf()).blacklist, ip, expires))
    {
      hide IpSet.Valid, AddHost;
      WorldShaped();
      var ok := blacklist.AddExpiring(ip, expires);
    }

    /** analyzer_update_reputation: add to the score, and block a source that has fallen below 10. */
    method UpdateReputation(stats: IpStats, ip: IpAddr, delta: int, now: int)
      requires Valid() && ip.Key() in table && table[ip.Key()] == stats
      modifies stats, blacklist, blacklist.buckets, Nodes(blacklist.buckets)
      ensures Valid()
      ensures var s, w := old(StandingIn(stats)), old(WorldOf());
              Shaped(w) && WorldOf() == With(w, ip.Key(), Updated(s, delta, now, blacklistDuration)).(
                blacklist := if Blocks(s, delta) then AddHost(w.blacklist, ip, now + blacklistDuration) else w.blacklist)
    {
      hide Valid, WorldOf, AddHost, IpAddr.Key, AddWrapping, Nodes;
      ghost var x := ip.Key();
      LastWriteCounts(WorldOf(), x);
      WorldShaped();
      SetScore(stats, x, AddWrapping(stats.reputation, delta));
      if stats.reputation > 100 {
        SetScore(stats, x, 100);
      }
      if stats.reputation < 10 && !stats.isBlacklisted {
        SetFlags(stats, x, stats.isWhitelisted, true);
        SetExpiry(stats, x, now + blacklistDuration);
        Block(ip, stats.blacklistExpires);
      }
      assert StandingIn(stats) == Updated(old(StandingIn(stats)), delta, now, blacklistDuration);
    }

    /** analyzer_process_packet. The protocol rules are a parameter: their verdict, and the
        reputation the HTTP rules have written when they ran. */
    method ProcessPacket(ip: IpAddr, ruling: Verdict, rescored: Option<Word>, t: Instants) returns (verdict: Verdict)
      requires Valid()
      modifies this`table, Objects(table), blacklist, blacklist.buckets, Nodes(blacklist.buckets)
      ensures Valid() && Shaped(old(WorldOf()))
      ensures (WorldOf(), verdict) == Process(old(WorldOf()), ip, ruling, rescored, t, blacklistDuration)
    {
      hide Valid, WorldOf, AddHost, IpAddr.Key, ContainsCidr, Updated, Blocks, Nodes, Objects;
      WorldShaped();
      ghost var x := ip.Key();
      LastWriteCounts(WorldOf(), x);
      var stats := GetIpStats(ip, t.white);
      var white := OnWhitelist(ip, t.white);
      if white {
        SetFlags(stats, x, true, stats.isBlacklisted);
        return Accept;
      }
      var black := OnBlacklist(ip, t.black);
      if black {
        SetFlags(stats, x, stats.isWhitelisted, true);
        return DropPacket;
      }
      if rescored.Some? {
        SetScore(stats, x, rescored.value);
      }
      verdict := ruling;
      if verdict == DropPacket {
        UpdateReputation(stats, ip, -10, t.update);
      } else if verdict == Accept {
        UpdateReputation(stats, ip, 1, t.update);
      }
    }
  }
}
