/** The table of per-source statistics as src/detection/analyzer.c writes it. The entry created for a new
    source is replaced by the head of its bucket before it is stored, so an empty bucket stays empty and the
    look-up returns NULL; Reputation is about the table that keeps what it creates. */
module AnalyzerAsWritten {
  import opened Addresses
  import opened Bits
  import opened IpHash
  import opened IpSetAnswers
  import opened IpSetTheory
  import opened Options
  import R = Reputation
  import opened TcpTheory

  const IP_STATS_TABLE_SIZE := 65536

  datatype Entry = Entry(key: IpKey, standing: R.Standing)

  /** The heads of the buckets; an entry has no link of its own. */
  type Table = t: seq<Option<Entry>> | |t| == IP_STATS_TABLE_SIZE witness NoEntries(IP_STATS_TABLE_SIZE)

  function NoEntries(n: nat): (t: seq<Option<Entry>>)
    ensures |t| == n && forall i :: 0 <= i < n ==> t[i] == None
  {
    if n == 0 then [] else NoEntries(n - 1) + [None]
  }

  function StatsHash(x: IpKey): (i: nat)
    ensures i < IP_STATS_TABLE_SIZE
  {
    HashOf(x) % IP_STATS_TABLE_SIZE
  }

  /** The look-up returns, possibly NULL, or its walk goes on forever. */
  datatype Lookup = Returns(table: Table, stats: Option<Entry>) | Endless

  /** analyzer_get_ip_stats: the walk does not advance, and the created entry is not the one stored. */
  function GetIpStats(table: Table, x: IpKey): Lookup {
    match table[StatsHash(x)]
    case Some(e) => if e.key == x then Returns(table, Some(e)) else Endless
    case None =>
      // here an entry for x is created, and then stats is set to the head of the bucket instead
      var stats := table[StatsHash(x)];
      Returns(table[StatsHash(x) := stats], stats)
  }

  datatype World = World(table: Table, whitelist: IpTable, blacklist: IpTable)

  ghost predicate Shaped(w: World) {
    |w.whitelist.chains| == IPSET_BUCKETS == |w.blacklist.chains|
  }

  /** The intended step on the statistics of one source. */
  ghost function Intended(w: World, e: Entry, ip: IpAddr, ruling: Verdict, rescored: Option<Word>, t: R.Instants,
                          duration: nat): (r: (R.World, Verdict))
    requires Shaped(w)
    ensures R.Shaped(r.0)
  {
    R.Process(R.World(map[ip.Key() := e.standing], w.whitelist, w.blacklist), ip, ruling, rescored, t, duration)
  }

  /** analyzer_process_packet; no verdict when the look-up does not return. */
  ghost function Process(w: World, ip: IpAddr, ruling: Verdict, rescored: Option<Word>, t: R.Instants,
                         duration: nat): (r: (World, Option<Verdict>))
    requires Shaped(w)
    ensures Shaped(r.0)
  {
    match GetIpStats(w.table, ip.Key())
    case Endless => (w, None)
    case Returns(table, None) => (w.(table := table), Some(Accept))
    case Returns(table, Some(e)) =>
      var (after, verdict) := Intended(w, e, ip, ruling, rescored, t, duration);
      var kept := Some(Entry(e.key, R.StandingOf(after, ip.Key())));
      (World(table[StatsHash(ip.Key()) := kept], after.whitelist, after.blacklist), Some(verdict))
  }

  ghost function Step(w: World, e: R.Event, duration: nat): (r: World)
    requires Shaped(w)
    ensures Shaped(r)
  {
    match e
    case Arrival(ip, ruling, rescored, t) => Process(w, ip, ruling, rescored, t, duration).0
    case WhiteOp(op) => w.(whitelist := Next(w.whitelist, op))
    case BlackOp(op) => w.(blacklist := Next(w.blacklist, op))
  }

  ghost function Start(maxWhite: nat, maxBlack: nat): (r: World)
    ensures Shaped(r)
  {
    World(NoEntries(IP_STATS_TABLE_SIZE), Empty(maxWhite), Empty(maxBlack))
  }

  ghost function After(w: World, es: seq<R.Event>, duration: nat): (r: World)
    requires Shaped(w)
    ensures Shaped(r)
  {
    if es == [] then w else Step(After(w, es[..|es| - 1], duration), es[|es| - 1], duration)
  }

  // ----- nothing is ever stored

  ghost predicate NoneStored(table: Table) {
    forall i {:trigger table[i]} :: 0 <= i < |table| ==> table[i] == None
  }

  lemma LookupIsNull(table: Table, x: IpKey)
    requires NoneStored(table)
    ensures GetIpStats(table, x) == Returns(table, None)
  {
    hide StatsHash;
    assert table[StatsHash(x) := None] == table;
  }

  lemma PacketAccepted(w: World, ip: IpAddr, ruling: Verdict, rescored: Option<Word>, t: R.Instants, duration: nat)
    requires Shaped(w) && NoneStored(w.table)
    ensures Process(w, ip, ruling, rescored, t, duration) == (w, Some(Accept))
  {
    hide NoneStored, IpAddr.Key, GetIpStats;
    LookupIsNull(w.table, ip.Key());
  }

  /** What happens to the two sets from outside. */
  function Outside(es: seq<R.Event>): seq<R.Event> {
    if es == [] then []
    else Outside(es[..|es| - 1]) + if es[|es| - 1].Arrival? then [] else [es[|es| - 1]]
  }

  /** As written packets leave no trace: no statistics are ever stored, and after every run the analyzer is
      as if the packets had not come. */
  lemma {:induction false} PacketsLeaveNoTrace(maxWhite: nat, maxBlack: nat, es: seq<R.Event>, duration: nat)
    ensures var w := After(Start(maxWhite, maxBlack), es, duration);
            NoneStored(w.table) && w == After(Start(maxWhite, maxBlack), Outside(es), duration)
  {
    hide Process, Next, NoneStored, Empty;
    var start := Start(maxWhite, maxBlack);
    if es == [] {
      StartIsEmpty(maxWhite, maxBlack);
    } else {
      var rest, e := es[..|es| - 1], es[|es| - 1];
      PacketsLeaveNoTrace(maxWhite, maxBlack, rest, duration);
      match e
      case Arrival(ip, ruling, rescored, t) =>
        PacketAccepted(After(start, rest, duration), ip, ruling, rescored, t, duration);
        assert Outside(es) == Outside(rest);
      case WhiteOp(_) =>
        assert Outside(es)[..|Outside(rest)|] == Outside(rest);
      case BlackOp(_) =>
        assert Outside(es)[..|Outside(rest)|] == Outside(rest);
    }
  }

  lemma StartIsEmpty(maxWhite: nat, maxBlack: nat)
    ensures NoneStored(Start(maxWhite, maxBlack).table)
  {
  }

  /** As written every packet of every run is accepted, whatever the lists and the protocol rules say. */
  lemma EveryPacketAccepted(maxWhite: nat, maxBlack: nat, es: seq<R.Event>, duration: nat,
                            ip: IpAddr, ruling: Verdict, rescored: Option<Word>, t: R.Instants)
    ensures Process(After(Start(maxWhite, maxBlack), es, duration), ip, ruling, rescored, t, duration).1 == Some(Accept)
  {
    hide Process, After, NoneStored;
    PacketsLeaveNoTrace(maxWhite, maxBlack, es, duration);
    PacketAccepted(After(Start(maxWhite, maxBlack), es, duration), ip, ruling, rescored, t, duration);
  }

  /** After any run the verdict as written is the intended one, for the same two sets and any standings,
      exactly when the source is whitelisted, or not blacklisted and accepted by the rules. */
  lemma VerdictAsIntendedExactly(maxWhite: nat, maxBlack: nat, es: seq<R.Event>, duration: nat, intended: R.World,
                                 ip: IpAddr, ruling: Verdict, rescored: Option<Word>, t: R.Instants)
    requires R.Shaped(intended)
    ensures var w := After(Start(maxWhite, maxBlack), es, duration);
            intended.whitelist == w.whitelist && intended.blacklist == w.blacklist ==>
              (Process(w, ip, ruling, rescored, t, duration).1 ==
                 Some(R.Process(intended, ip, ruling, rescored, t, duration).1) <==>
               ContainsCidr(w.whitelist, ip, t.white) ||
                 (!ContainsCidr(w.blacklist, ip, t.black) && ruling == Accept))
  {
    hide Process, After, ContainsCidr, IpAddr.Key, AddHost, R.Updated, R.Blocks;
    EveryPacketAccepted(maxWhite, maxBlack, es, duration, ip, ruling, rescored, t);
  }

  /** A source put on the blacklist for good: as written its packets are accepted, as intended dropped. */
  lemma BlacklistedIsAccepted(ip: IpAddr, duration: nat, ruling: Verdict, rescored: Option<Word>, t: R.Instants)
    ensures var ban := [R.BlackOp(AddHostOp(ip, 0))];
            && Process(After(Start(0, 1), ban, duration), ip, ruling, rescored, t, duration).1 == Some(Accept)
            && R.Process(R.After(R.Start(0, 1), ban, duration), ip, ruling, rescored, t, duration).1 == DropPacket
  {
    hide Process, After, ContainsCidr, IpAddr.Key, AddHost, Bucket, Contains, R.Updated, R.Blocks;
    var ban := [R.BlackOp(AddHostOp(ip, 0))];
    EveryPacketAccepted(0, 1, ban, duration, ip, ruling, rescored, t);
    SoundOfEmpty(0);
    SoundOfEmpty(1);
    R.NothingCovered(0, ip, t.white);
    AddHostSound(Empty(1), ip, 0);
    AddHostHolds(Empty(1), ip, 0);
    HeldThroughout(AddHost(Empty(1), ip, 0), [], ip, 0, t.black);
    assert IpSetTheory.After(AddHost(Empty(1), ip, 0), []) == AddHost(Empty(1), ip, 0);
    ListedIsCovered(AddHost(Empty(1), ip, 0), ip, t.black);
    R.AfterOneMore(R.Start(0, 1), [], R.BlackOp(AddHostOp(ip, 0)), duration);
    R.AfterNothing(R.Start(0, 1), duration);
    assert [] + ban == ban;
  }
}
