/** The IP set of src/storage/ipset.c: an array of chains of entries. */
module IpSets {
  import opened Addresses
  import opened Cidr
  import opened CidrText
  import opened IpHash
  import IpSetFile
  import opened IpSetAnswers
  import opened IpSetTheory
  import opened Lists
  import opened Options

  class IpEntry {
    const ip: IpAddr
    const prefixLen: Byte
    var expires: int
    var next: IpEntry?

    ghost function Value(): RawBlock
      reads this`expires
    {
      RawBlock.Block(ip, prefixLen, expires)
    }

    constructor (b: Block)
      ensures Value() == b
    {
      ip, prefixLen, expires, next := b.ip, b.prefixLen, b.expires, null;
    }
  }

  function Ptr(e: IpEntry?): Option<IpEntry> {
    if e == null then None else Some(e)
  }

  /** Each node leads to the one behind it. */
  ghost predicate Linked(nodes: seq<IpEntry>)
    reads nodes`next
  {
    forall k {:trigger nodes[k]} :: 0 <= k < |nodes| ==> Ptr(nodes[k].next) == At(nodes, k + 1)
  }

  ghost predicate Matches(nodes: seq<IpEntry>, records: seq<Block>)
    reads nodes`expires
  {
    |nodes| == |records| && forall k {:trigger nodes[k]} :: 0 <= k < |nodes| ==> nodes[k].Value() == records[k]
  }

  lemma LinkedPush(e: IpEntry, nodes: seq<IpEntry>)
    requires Linked(nodes) && Ptr(e.next) == At(nodes, 0)
    ensures Linked([e] + nodes)
  {
    var s := [e] + nodes;
    forall k | 0 <= k < |s|
      ensures Ptr(s[k].next) == At(s, k + 1)
    {
      if k > 0 {
        assert s[k] == nodes[k - 1];
      }
    }
  }

  lemma LinkedWithout(nodes: seq<IpEntry>, k: nat)
    requires k < |nodes|
    requires forall j {:trigger nodes[j]} :: 0 <= j < |nodes| && j != k - 1 && j != k ==> Ptr(nodes[j].next) == At(nodes, j + 1)
    requires k > 0 ==> Ptr(nodes[k - 1].next) == At(nodes, k + 1)
    ensures Linked(Without(nodes, k))
  {
    var s := Without(nodes, k);
    forall j | 0 <= j < |s|
      ensures Ptr(s[j].next) == At(s, j + 1)
    {
      assert s[j] == nodes[if j < k then j else j + 1];
    }
  }

  lemma HeadWithout<N>(s: seq<N>, k: nat)
    requires k < |s|
    ensures |Without(s, k)| == |s| - 1 && At(Without(s, k), 0) == At(s, if k == 0 then 1 else 0)
  {
  }

  lemma MatchesWithout(nodes: seq<IpEntry>, records: seq<Block>, k: nat)
    requires Matches(nodes, records) && k < |nodes|
    ensures Matches(Without(nodes, k), Without(records, k))
  {
    var s := Without(nodes, k);
    forall j | 0 <= j < |s|
      ensures s[j].Value() == Without(records, k)[j]
    {
      assert s[j] == nodes[if j < k then j else j + 1];
    }
  }

  /** The chain once a walk that has passed k entries is completed. */
  ghost function SweptTo(c: seq<Block>, k: nat, now: int): seq<Block>
    requires k <= |c|
  {
    c[..k] + Sweep(c[k..], now)
  }

  lemma SweepFrom(c: seq<Block>, now: int)
    ensures SweptTo(c, 0, now) == Sweep(c, now)
  {
    assert c[0..] == c;
  }

  lemma SweepDone(c: seq<Block>, now: int)
    ensures SweptTo(c, |c|, now) == c
  {
  }

  lemma SweepStep(c: seq<Block>, k: nat, now: int)
    requires k < |c|
    ensures |Without(c, k)| == |c| - 1
    ensures SweptTo(c, k, now) == if c[k].Expired(now) then SweptTo(Without(c, k), k, now) else SweptTo(c, k + 1, now)
  {
    assert c[k..][1..] == c[k + 1..];
    assert Without(c, k)[k..] == c[k + 1..] && Without(c, k)[..k] == c[..k];
    assert c[..k + 1] == c[..k] + [c[k]];
  }

  /** One slot of the bucket array and the chain that hangs from it. */
  class Chain {
    var head: IpEntry?
    ghost var nodes: seq<IpEntry>
    ghost var records: seq<Block>
    /** Every node this chain ever had. */
    ghost var repr: set<IpEntry>

    ghost predicate Valid()
      reads this, repr
    {
      && (forall n :: n in nodes ==> n in repr)
      && NoRepeats(nodes) && |nodes| == |records|
      && Ptr(head) == At(nodes, 0) && Linked(nodes) && Matches(nodes, records)
    }

    /** The k-th node carries the k-th record and leads on. */
    lemma Here(k: nat)
      requires Valid() && k < |nodes|
      ensures nodes[k].Value() == records[k] && Ptr(nodes[k].next) == At(nodes, k + 1)
    {
    }

    constructor ()
      ensures Valid() && records == [] && repr == {}
    {
      head, nodes, records, repr := null, [], [], {};
    }

    method Push(entry: IpEntry)
      requires Valid() && entry !in repr && entry.prefixLen <= Width(entry.ip.family)
      modifies this, entry`next
      ensures Valid() && records == [entry.Value()] + old(records) && repr == old(repr) + {entry}
    {
      entry.next := head;
      LinkedPush(entry, nodes);
      head := entry;
      nodes := [entry] + nodes;
      records := [entry.Value()] + records;
      repr := repr + {entry};
    }

    /** The walk of ipset_add_expiring: an entry for this address with prefix 32. */
    method FindHost(ip: IpAddr) returns (entry: IpEntry?, ghost k: nat)
      requires Valid()
      ensures k == HostIndex(records, ip.Key()) && Ptr(entry) == At(nodes, k)
    {
      hide IpAddr.Key, Linked, Matches, NoRepeats;
      entry, k := head, 0;
      while entry != null
        invariant k <= |nodes| && Ptr(entry) == At(nodes, k)
        invariant forall j :: 0 <= j < k ==> !(records[j].ip.Key() == ip.Key() && records[j].prefixLen == 32)
        decreases |nodes| - k
      {
        IpCompareZero(entry.ip, ip);
        Here(k);
        if IpCompare(entry.ip, ip) == 0 && entry.prefixLen == 32 {
          return;
        }
        entry, k := entry.next, k + 1;
      }
    }

    /** Update the expiry of the entry in place. */
    method Renew(entry: IpEntry, ghost k: nat, expires: int)
      requires Valid() && k < |nodes| && entry == nodes[k]
      modifies this`records, entry`expires
      ensures Valid() && repr == old(repr) && records == old(records)[k := old(records)[k].(expires := expires)]
    {
      entry.expires := expires;
      records := records[k := records[k].(expires := expires)];
    }

    /** Take entry k out of the chain. */
    method Unlink(prev: IpEntry?, entry: IpEntry, ghost k: nat)
      requires Valid() && k < |nodes| && entry == nodes[k] && prev == if k == 0 then null else nodes[k - 1]
      modifies this, repr
      ensures Valid() && nodes == Without(old(nodes), k) && records == Without(old(records), k)
      ensures entry.next == old(entry.next)
      ensures repr == old(repr)
    {
      hide Matches, Linked, NoRepeats, At;
      SkipNode(prev, entry, k);
      LinkedWithout(nodes, k);
      NoRepeatsWithout(nodes, k);
      MatchesWithout(nodes, records, k);
      HeadWithout(nodes, k);
      nodes := Without(nodes, k);
      records := Without(records, k);
    }

    /** The pointer writes of a removal. */
    method SkipNode(prev: IpEntry?, entry: IpEntry, ghost k: nat)
      requires Valid() && k < |nodes| && entry == nodes[k] && prev == if k == 0 then null else nodes[k - 1]
      modifies this`head, repr`next
      ensures entry.next == old(entry.next)
      ensures Ptr(head) == At(nodes, if k == 0 then 1 else 0)
      ensures forall j {:trigger nodes[j]} :: 0 <= j < |nodes| && j != k - 1 && j != k ==> Ptr(nodes[j].next) == At(nodes, j + 1)
      ensures k > 0 ==> Ptr(nodes[k - 1].next) == At(nodes, k + 1)
    {
      hide Matches;
      if prev != null {
        prev.next := entry.next;
      } else {
        head := entry.next;
      }
    }

    /** The walk of ipset_remove: the first entry with this network address, and the one in front of it. */
    method FindFirst(ip: IpAddr) returns (prev: IpEntry?, entry: IpEntry?, ghost k: nat)
      requires Valid()
      ensures Valid() && k == AddressIndex(records, ip.Key()) && Ptr(entry) == At(nodes, k)
      ensures k > 0 ==> k <= |nodes|
      ensures prev == if k == 0 then null else nodes[k - 1]
    {
      hide IpAddr.Key, Linked, Matches, NoRepeats;
      prev, entry, k := null, head, 0;
      while entry != null
        invariant k <= |nodes| && Ptr(entry) == At(nodes, k) && prev == if k == 0 then null else nodes[k - 1]
        invariant forall j :: 0 <= j < k ==> records[j].ip.Key() != ip.Key()
        decreases |nodes| - k
      {
        Here(k);
        IpCompareZero(entry.ip, ip);
        if IpCompare(entry.ip, ip) == 0 {
          return;
        }
        prev, entry, k := entry, entry.next, k + 1;
      }
    }

    /** ipset_remove within a bucket. */
    method RemoveFirst(ip: IpAddr) returns (removed: bool)
      requires Valid()
      modifies this, repr
      ensures Valid()
      ensures removed == (AddressIndex(old(records), ip.Key()) < |old(records)|)
      ensures removed ==> records == Without(old(records), AddressIndex(old(records), ip.Key()))
      ensures !removed ==> records == old(records)
      ensures repr == old(repr)
    {
      hide IpAddr.Key, Linked, Matches, NoRepeats;
      var prev, entry;
      ghost var k;
      prev, entry, k := FindFirst(ip);
      removed := entry != null;
      if removed {
        Unlink(prev, entry, k);
      }
    }

    /** The inner loop of ipset_cleanup_expired: unlink expired entries while walking. */
    method SweepOut(now: int) returns (cleaned: nat)
      requires Valid()
      modifies this, repr
      ensures Valid() && records == Sweep(old(records), now) && cleaned == |old(records)| - |records|
      ensures repr == old(repr)
    {
      hide Linked, Matches, NoRepeats;
      var prev: IpEntry?, entry := null, head;
      ghost var k := 0;
      cleaned := 0;
      SweepFrom(records, now);
      while entry != null
        invariant Valid() && k <= |nodes| && Ptr(entry) == At(nodes, k) && prev == if k == 0 then null else nodes[k - 1]
        invariant repr == old(repr)
        invariant SweptTo(records, k, now) == Sweep(old(records), now)
        invariant cleaned == |old(records)| - |records|
        decreases |nodes| - k
      {
        Here(k);
        SweepStep(records, k, now);
        if entry.expires > 0 && now > entry.expires {
          var next := entry.next;
          Unlink(prev, entry, k);
          cleaned := cleaned + 1;
          entry := next;
        } else {
          prev, entry, k := entry, entry.next, k + 1;
        }
      }
      SweepDone(records, now);
    }

    /** Drop the whole chain. */
    method Clear()
      requires Valid()
      modifies this
      ensures Valid() && records == [] && repr == old(repr)
    {
      head, nodes, records := null, [], [];
    }

    /** The inner loop of ipset_save_to_file. */
    method Dump(codec: Codec) returns (text: string, count: nat)
      requires Valid() && IpSetFile.AllStandard(records)
      ensures text == IpSetFile.SaveText(codec, records) && count == |records|
    {
      hide Linked, Matches, NoRepeats, FormatBlock;
      var entry := head;
      text, count := "", 0;
      ghost var k := 0;
      assert records[0..] == records;
      while entry != null
        invariant k <= |nodes| && Ptr(entry) == At(nodes, k) && count == k
        invariant IpSetFile.AllStandard(records[k..])
        invariant text + IpSetFile.SaveText(codec, records[k..]) == IpSetFile.SaveText(codec, records)
        decreases |nodes| - k
      {
        Here(k);
        assert IpSetFile.AllStandard(records);
        assert records[k..][0] == records[k] && records[k..][1..] == records[k + 1..];
        assert Standard(records[k]);
        text := text + (FormatBlock(codec, RawBlock.Block(entry.ip, entry.prefixLen, entry.expires)) + "\n");
        count := count + 1;
        entry, k := entry.next, k + 1;
      }
    }

    /** The scan of ipset_contains. */
    method HasAddress(ip: IpAddr, now: int) returns (found: bool)
      requires Valid()
      ensures found <==> exists b: Block :: b in records && !b.Expired(now) && b.ip.Key() == ip.Key()
    {
      hide IpAddr.Key, Linked, Matches, NoRepeats;
      var entry := head;
      ghost var k := 0;
      while entry != null
        invariant k <= |nodes| && Ptr(entry) == At(nodes, k)
        invariant forall j :: 0 <= j < k ==> records[j].Expired(now) || records[j].ip.Key() != ip.Key()
        decreases |nodes| - k
      {
        Here(k);
        if !(entry.expires > 0 && now > entry.expires) {
          IpCompareZero(entry.ip, ip);
          if IpCompare(entry.ip, ip) == 0 {
            assert records[k] in records;
            return true;
          }
        }
        entry, k := entry.next, k + 1;
      }
      return false;
    }

    /** The inner scan of ipset_contains_cidr. */
    method HasBlock(ip: IpAddr, now: int) returns (found: bool)
      requires Valid()
      ensures found <==> exists b: Block :: b in records && !b.Expired(now) && InCidr(ip, b.ip, b.prefixLen)
    {
      hide InCidr, Linked, Matches, NoRepeats;
      var entry := head;
      ghost var k := 0;
      while entry != null
        invariant k <= |nodes| && Ptr(entry) == At(nodes, k)
        invariant forall j :: 0 <= j < k ==> records[j].Expired(now) || !InCidr(ip, records[j].ip, records[j].prefixLen)
        decreases |nodes| - k
      {
        Here(k);
        if !(entry.expires > 0 && now > entry.expires) {
          if InCidr(ip, entry.ip, entry.prefixLen) {
            assert records[k] in records;
            return true;
          }
        }
        entry, k := entry.next, k + 1;
      }
      return false;
    }
  }

  /** The chain of bucket i holds these records, and its nodes belong to that bucket. */
  ghost predicate InSlot(c: Chain, i: nat, records: seq<Block>)
    reads c, c.repr
  {
    c.Valid() && c.records == records && forall n {:trigger n in c.repr} :: n in c.repr ==> Bucket(n.ip.Key()) == i
  }

  ghost function Nodes(buckets: seq<Chain>): set<IpEntry>
    reads buckets
  {
    set c, n | c in buckets && n in c.repr :: n
  }

  lemma SweepOneSound(t: IpTable, i: nat, now: int)
    requires Sound(t) && i < |t.chains|
    ensures var swept := Sweep(t.chains[i], now);
            Sound(IpTable(t.chains[i := swept], t.count - (|t.chains[i]| - |swept|), t.maxSize))
  {
    hide Bucket, IpAddr.Key;
    SweptAllIn(t.chains[i], now, i);
    FiledUpdate(t.chains, i, Sweep(t.chains[i], now));
    TotalUpdate(t.chains, i, Sweep(t.chains[i], now));
  }

  /** ipset_hash */
  method HashBucket(ip: IpAddr) returns (i: nat)
    ensures i == Bucket(ip.Key())
  {
    var hash := HashAddress(ip);
    i := hash % IPSET_BUCKETS;
  }

  class IpSet {
    const buckets: seq<Chain>
    const maxSize: nat
    var entryCount: int
    ghost var chains: seq<seq<Block>>

    /** The set as a value. */
    ghost function Table(): IpTable
      reads this
    {
      IpTable(chains, entryCount, maxSize)
    }

    ghost predicate Valid()
      reads this, buckets, Nodes(buckets)
    {
      && |buckets| == IPSET_BUCKETS && NoRepeats(buckets)
      && Sound(Table())
      && forall i {:trigger buckets[i]} :: 0 <= i < |buckets| ==> InSlot(buckets[i], i, chains[i])
    }

    /** ipset_create */
    constructor (maxSize: nat)
      ensures Valid() && Table() == Empty(maxSize)
      ensures fresh(buckets) && fresh(Nodes(buckets))
    {
      var made: seq<Chain> := [];
      while |made| < IPSET_BUCKETS
        invariant |made| <= IPSET_BUCKETS && NoRepeats(made) && fresh(made)
        invariant forall i {:trigger made[i]} :: 0 <= i < |made| ==> InSlot(made[i], i, []) && made[i].repr == {}
      {
        var c := new Chain();
        made := made + [c];
      }
      buckets := made;
      this.maxSize := maxSize;
      entryCount := 0;
      chains := EmptyChains(IPSET_BUCKETS);
      TotalOfEmpty(IPSET_BUCKETS);
    }

    lemma Apart(i: nat, j: nat)
      requires Valid() && i < |buckets| && j < |buckets| && i != j
      ensures buckets[i] != buckets[j] && buckets[i].repr !! buckets[j].repr
    {
      assert InSlot(buckets[i], i, chains[i]) && InSlot(buckets[j], j, chains[j]);
    }

    lemma Slot(i: nat)
      requires Valid() && i < IPSET_BUCKETS
      ensures |buckets| == IPSET_BUCKETS == |chains| && InSlot(buckets[i], i, chains[i])
      ensures buckets[i].repr <= Nodes(buckets)
    {
    }

    /** A new entry at the head of its chain. */
    method Insert(i: nat, b: Block)
      requires Valid() && i == Bucket(b.ip.Key()) && entryCount < maxSize
      modifies this, buckets[i], buckets[i].repr
      ensures Valid() && Table() == AddBlock(old(Table()), b)
      ensures forall n {:trigger n in Nodes(buckets)} :: n in Nodes(buckets) ==> n in old(Nodes(buckets)) || fresh(n)
    {
      hide Sound, IpAddr.Key, Bucket, Chain.Valid;
      AddBlockSound(Table(), b);
      Slot(i);
      forall j | 0 <= j < |buckets| && j != i
        ensures buckets[i] != buckets[j] && buckets[i].repr !! buckets[j].repr
      {
        Apart(i, j);
      }
      var entry := new IpEntry(b);
      buckets[i].Push(entry);
      chains := chains[i := [b] + chains[i]];
      entryCount := entryCount + 1;
    }

    /** ipset_add_expiring */
    method AddExpiring(ip: IpAddr, expires: int) returns (ok: bool)
      requires Valid()
      modifies this, buckets, Nodes(buckets)
      ensures Valid() && Table() == AddHost(old(Table()), ip, expires)
      ensures ok == (old(entryCount) < maxSize)
      ensures forall n {:trigger n in Nodes(buckets)} :: n in Nodes(buckets) ==> n in old(Nodes(buckets)) || fresh(n)
    {
      hide Valid, InSlot, Sound, IpAddr.Key, Bucket, Chain.Valid, Nodes;
      if entryCount >= maxSize {
        return false;
      }
      var i, entry; ghost var k;
      i, entry, k := FindIn(ip);
      if entry != null {
        RenewIn(i, entry, k, expires, ip);
        return true;
      }
      Insert(i, Block(ip, Width(ip.family), expires));
      return true;
    }

    method FindIn(ip: IpAddr) returns (i: nat, entry: IpEntry?, ghost k: nat)
      requires Valid()
      ensures Valid() && i == Bucket(ip.Key()) && i < |buckets| == |chains|
      ensures k == HostIndex(chains[i], ip.Key()) && Ptr(entry) == At(buckets[i].nodes, k)
      ensures entry != null ==> entry in buckets[i].repr
      ensures |chains[i]| == |buckets[i].nodes| && buckets[i].repr <= Nodes(buckets) == old(Nodes(buckets))
    {
      hide Sound, IpAddr.Key, Bucket;
      i := HashBucket(ip);
      Slot(i);
      entry, k := buckets[i].FindHost(ip);
    }

    method RenewIn(i: nat, entry: IpEntry, ghost k: nat, expires: int, ghost ip: IpAddr)
      requires Valid() && i == Bucket(ip.Key()) < |buckets| && |chains| == |buckets| && k == HostIndex(chains[i], ip.Key()) < |chains[i]|
      requires k < |buckets[i].nodes| && entry == buckets[i].nodes[k] && entry in buckets[i].repr && entryCount < maxSize
      modifies this, buckets[i], buckets[i].repr
      ensures Valid() && Table() == AddHost(old(Table()), ip, expires)
      ensures Nodes(buckets) == old(Nodes(buckets))
    {
      hide Sound, IpAddr.Key, Bucket, Chain.Valid;
      AddHostSound(Table(), ip, expires);
      Slot(i);
      forall j | 0 <= j < |buckets| && j != i
        ensures buckets[i] != buckets[j] && buckets[i].repr !! buckets[j].repr
      {
        Apart(i, j);
      }
      buckets[i].Renew(entry, k, expires);
      chains := chains[i := chains[i][k := chains[i][k].(expires := expires)]];
    }

    /** ipset_remove */
    method RemoveAddress(ip: IpAddr) returns (ok: bool)
      requires Valid()
      modifies this, buckets, Nodes(buckets)
      ensures Valid() && Table() == Remove(old(Table()), ip)
      ensures ok == (AddressIndex(old(chains)[Bucket(ip.Key())], ip.Key()) < |old(chains)[Bucket(ip.Key())]|)
      ensures Nodes(buckets) == old(Nodes(buckets))
    {
      hide Sound, IpAddr.Key, Bucket, Chain.Valid;
      var i := HashBucket(ip);
      RemoveSound(Table(), ip);
      Slot(i);
      forall j | 0 <= j < |buckets| && j != i
        ensures buckets[i] != buckets[j] && buckets[i].repr !! buckets[j].repr
      {
        Apart(i, j);
      }
      ok := buckets[i].RemoveFirst(ip);
      if ok {
        chains := chains[i := Without(chains[i], AddressIndex(chains[i], ip.Key()))];
        entryCount := entryCount - 1;
      }
    }

    /** ipset_contains: one bucket is scanned, and the answer is about the whole set. */
    method Has(ip: IpAddr, now: int) returns (found: bool)
      requires Valid()
      ensures found <==> Contains(Table(), ip, now)
      ensures Valid()
    {
      hide Sound, IpAddr.Key, Bucket, Chain.Valid, RawBlock.Expired;
      var i := HashBucket(ip);
      Slot(i);
      found := buckets[i].HasAddress(ip, now);
    }

    /** ipset_contains_cidr: all buckets are scanned. */
    method HasCovering(ip: IpAddr, now: int) returns (found: bool)
      requires Valid()
      ensures found <==> ContainsCidr(Table(), ip, now)
      ensures Valid()
    {
      hide Sound, IpAddr.Key, Bucket, Chain.Valid, RawBlock.Expired, InCidr;
      Slot(0);
      var i := 0;
      while i < |buckets|
        invariant i <= |buckets| && Valid()
        invariant forall j, b: Block {:trigger b in chains[j]} :: 0 <= j < i && b in chains[j] ==>
                    b.Expired(now) || !InCidr(ip, b.ip, b.prefixLen)
      {
        Slot(i);
        found := buckets[i].HasBlock(ip, now);
        if found {
          return;
        }
        i := i + 1;
      }
      return false;
    }

    /** Sweep one bucket. */
    method SweepBucket(i: nat, now: int) returns (cleaned: nat)
      requires Valid() && i < |buckets| == |chains|
      modifies this, buckets[i], buckets[i].repr
      ensures Valid() && chains == old(chains)[i := Sweep(old(chains)[i], now)]
      ensures cleaned == old(entryCount) - entryCount
      ensures Nodes(buckets) == old(Nodes(buckets))
    {
      hide Sound, IpAddr.Key, Bucket, Chain.Valid;
      SweepOneSound(Table(), i, now);
      Slot(i);
      forall j | 0 <= j < |buckets| && j != i
        ensures buckets[i] != buckets[j] && buckets[i].repr !! buckets[j].repr
      {
        Apart(i, j);
      }
      cleaned := buckets[i].SweepOut(now);
      chains := chains[i := Sweep(chains[i], now)];
      entryCount := entryCount - cleaned;
    }

    /** ipset_cleanup_expired */
    method CleanupExpired(now: int) returns (cleaned: nat)
      requires Valid()
      modifies this, buckets, Nodes(buckets)
      ensures Valid() && Table() == Cleanup(old(Table()), now)
      ensures cleaned == old(entryCount) - entryCount
      ensures Nodes(buckets) == old(Nodes(buckets))
    {
      hide Sound, InSlot, Nodes;
      cleaned := 0;
      Slot(0);
      var i := 0;
      while i < |buckets|
        invariant i <= |buckets| == |chains| == |old(chains)| && Valid() && Nodes(buckets) == old(Nodes(buckets))
        invariant forall j {:trigger chains[j]} :: 0 <= j < |chains| ==>
                    chains[j] == if j < i then Sweep(old(chains)[j], now) else old(chains)[j]
        invariant cleaned == old(entryCount) - entryCount
      {
        Slot(i);
        var swept := SweepBucket(i, now);
        cleaned := cleaned + swept;
        i := i + 1;
      }
      assert chains == SweepAll(old(chains), now);
      CountIsTotal();
    }

    lemma CountIsTotal()
      requires Valid()
      ensures entryCount == Total(chains)
    {
    }

    /** ipset_clear */
    method ClearAll()
      requires Valid()
      modifies this, buckets
      ensures Valid() && Table() == Empty(maxSize)
      ensures Nodes(buckets) == old(Nodes(buckets))
    {
      hide Sound, Chain.Valid, Bucket;
      SoundOfEmpty(maxSize);
      Slot(0);
      var i := 0;
      while i < |buckets|
        invariant i <= |buckets| == |chains| == IPSET_BUCKETS && NoRepeats(buckets) && chains == old(chains)
        invariant forall j {:trigger buckets[j]} :: 0 <= j < |buckets| ==> InSlot(buckets[j], j, if j < i then [] else chains[j])
        invariant Nodes(buckets) == old(Nodes(buckets))
      {
        assert forall j {:trigger buckets[j]} :: 0 <= j < |buckets| && j != i ==> buckets[i] != buckets[j];
        buckets[i].Clear();
        i := i + 1;
      }
      entryCount := 0;
      chains := EmptyChains(IPSET_BUCKETS);
    }

    /** ipset_size */
    method Size() returns (n: nat)
      requires Valid()
      ensures n == Total(Table().chains) <= maxSize
    {
      n := entryCount;
    }

    /** ipset_add_cidr */
    method AddNetwork(codec: Codec, cidr: string) returns (ok: bool)
      requires Valid()
      modifies this, buckets, Nodes(buckets)
      ensures Valid() && Table() == IpSetFile.AddCidr(old(Table()), codec, cidr)
      ensures ok == IpSetFile.Accepts(old(Table()), codec, cidr)
      ensures forall n {:trigger n in Nodes(buckets)} :: n in Nodes(buckets) ==> n in old(Nodes(buckets)) || fresh(n)
    {
      hide Valid, InSlot, Sound, IpAddr.Key, Bucket, Chain.Valid, Nodes, ParseCidr;
      match ParseCidr(codec, cidr) {
        case None =>
          return false;
        case Some(b) =>
          if entryCount >= maxSize {
            return false;
          }
          InsertAt(b);
          return true;
      }
    }

    method InsertAt(b: Block)
      requires Valid() && entryCount < maxSize
      modifies this, buckets, Nodes(buckets)
      ensures Valid() && Table() == AddBlock(old(Table()), b)
      ensures forall n {:trigger n in Nodes(buckets)} :: n in Nodes(buckets) ==> n in old(Nodes(buckets)) || fresh(n)
    {
      hide InSlot, Sound, IpAddr.Key, Bucket, Chain.Valid, Nodes;
      var i := HashBucket(b.ip);
      Slot(i);
      Insert(i, b);
    }

    /** ipset_load_from_file */
    method LoadFrom(codec: Codec, text: string) returns (count: nat)
      requires Valid()
      modifies this, buckets, Nodes(buckets)
      ensures Valid() && (Table(), count) == IpSetFile.LoadText(old(Table()), codec, text)
      ensures forall n {:trigger n in Nodes(buckets)} :: n in Nodes(buckets) ==> n in old(Nodes(buckets)) || fresh(n)
    {
      hide Valid, Nodes, ParseCidr, IpSetFile.LineLength, IpSetFile.CutLine, IpSetFile.Skipped, IpSetFile.Accepts, IpSetFile.AddCidr;
      count := 0;
      var rest := text;
      Shape();
      ghost var goal := IpSetFile.LoadText(Table(), codec, text);
      while rest != []
        invariant Valid() && |chains| == IPSET_BUCKETS
        invariant forall n {:trigger n in Nodes(buckets)} :: n in Nodes(buckets) ==> n in old(Nodes(buckets)) || fresh(n)
        invariant goal.0 == IpSetFile.LoadText(Table(), codec, rest).0
        invariant goal.1 == count + IpSetFile.LoadText(Table(), codec, rest).1
        decreases |rest|
      {
        var n := IpSetFile.LineLength(rest);
        var line := IpSetFile.CutLine(rest[..n]);
        if !IpSetFile.Skipped(line) {
          var ok := AddNetwork(codec, line);
          Shape();
          if ok {
            count := count + 1;
          }
        }
        rest := rest[n..];
      }
    }

    lemma Shape()
      requires Valid()
      ensures |chains| == IPSET_BUCKETS == |buckets|
    {
    }

    /** ipset_save_to_file */
    method SaveTo(codec: Codec) returns (text: string, count: nat)
      requires Valid() && IpSetFile.AllStandard(Flat(chains))
      ensures text == IpSetFile.SaveText(codec, Flat(chains)) && count == entryCount
    {
      hide Sound, Chain.Valid, Flat, IpSetFile.SaveText, IpSetFile.AllStandard;
      text, count := "", 0;
      Shape();
      IpSetFile.SaveNothing(codec, chains);
      var i := 0;
      while i < |buckets|
        invariant i <= |buckets|
        invariant IpSetFile.AllStandard(Flat(chains[..i])) && text == IpSetFile.SaveText(codec, Flat(chains[..i]))
        invariant count == |Flat(chains[..i])|
        invariant Valid()
      {
        Slot(i);
        IpSetFile.SaveNextBucket(codec, chains, i);
        var lines, n := buckets[i].Dump(codec);
        text := text + lines;
        count := count + n;
        i := i + 1;
      }
      assert chains[..|buckets|] == chains;
      FlatSize(chains);
      CountIsTotal();
    }
  }
}
