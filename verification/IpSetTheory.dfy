/** What the IP set of src/storage/ipset.c does, as operations on its bucket chains. */
module IpSetTheory {
  import opened Addresses
  import opened Cidr
  import opened IpHash
  import opened Lists

  const IPSET_BUCKETS := 4096

  /** An entry as a value: a network, a prefix length, and an expiry time (0 means never). */
  datatype RawBlock = Block(ip: IpAddr, prefixLen: Byte, expires: int) {
    predicate Expired(now: int) {
      expires > 0 && now > expires
    }
  }

  type Block = b: RawBlock | b.prefixLen <= Width(b.ip.family) witness Block(IpAddr(seq(16, _ => 0), AF_INET), 0, 0)

  function Bucket(x: IpKey): (i: nat)
    ensures i < IPSET_BUCKETS
  {
    HashOf(x) % IPSET_BUCKETS
  }

  datatype IpTable = IpTable(chains: seq<seq<Block>>, count: int, maxSize: nat)

  function EmptyChains(n: nat): (r: seq<seq<Block>>)
    ensures |r| == n && forall i :: 0 <= i < n ==> r[i] == []
  {
    if n == 0 then [] else EmptyChains(n - 1) + [[]]
  }

  function Empty(maxSize: nat): IpTable {
    IpTable(EmptyChains(IPSET_BUCKETS), 0, maxSize)
  }

  // ----- the operations

  /** The first entry for exactly this address with prefix 32, or the length of the chain. */
  function HostIndex(c: seq<Block>, x: IpKey): (k: nat)
    ensures k <= |c|
    ensures k < |c| ==> c[k].ip.Key() == x && c[k].prefixLen == 32
    ensures forall j :: 0 <= j < k ==> !(c[j].ip.Key() == x && c[j].prefixLen == 32)
  {
    if c == [] || (c[0].ip.Key() == x && c[0].prefixLen == 32) then 0 else 1 + HostIndex(c[1..], x)
  }

  /** The first entry with this network address, or the length of the chain. */
  function AddressIndex(c: seq<Block>, x: IpKey): (k: nat)
    ensures k <= |c|
    ensures k < |c| ==> c[k].ip.Key() == x
    ensures forall j :: 0 <= j < k ==> c[j].ip.Key() != x
  {
    if c == [] || c[0].ip.Key() == x then 0 else 1 + AddressIndex(c[1..], x)
  }

  function Sweep(c: seq<Block>, now: int): (r: seq<Block>)
    ensures |r| <= |c|
  {
    if c == [] then [] else (if c[0].Expired(now) then [] else [c[0]]) + Sweep(c[1..], now)
  }

  function SweepAll(chains: seq<seq<Block>>, now: int): (r: seq<seq<Block>>)
    ensures |r| == |chains|
    ensures forall i :: 0 <= i < |chains| ==> r[i] == Sweep(chains[i], now)
  {
    if chains == [] then [] else [Sweep(chains[0], now)] + SweepAll(chains[1..], now)
  }

  /** A new entry at the head of its chain, unless the table is full. */
  function AddBlock(t: IpTable, b: Block): IpTable
    requires |t.chains| == IPSET_BUCKETS
  {
    var i := Bucket(b.ip.Key());
    if t.count >= t.maxSize then t
    else IpTable(t.chains[i := [b] + t.chains[i]], t.count + 1, t.maxSize)
  }

  /** A host entry: an entry with prefix 32 is renewed, otherwise one with the full prefix is added. */
  function AddHost(t: IpTable, ip: IpAddr, expires: int): IpTable
    requires |t.chains| == IPSET_BUCKETS
  {
    var i := Bucket(ip.Key());
    var c := t.chains[i];
    var k := HostIndex(c, ip.Key());
    if t.count >= t.maxSize then t
    else if k < |c| then t.(chains := t.chains[i := c[k := c[k].(expires := expires)]])
    else AddBlock(t, Block(ip, Width(ip.family), expires))
  }

  function Remove(t: IpTable, ip: IpAddr): IpTable
    requires |t.chains| == IPSET_BUCKETS
  {
    var i := Bucket(ip.Key());
    var c := t.chains[i];
    var k := AddressIndex(c, ip.Key());
    if k < |c| then IpTable(t.chains[i := Without(c, k)], t.count - 1, t.maxSize) else t
  }

  function Cleanup(t: IpTable, now: int): IpTable {
    var swept := SweepAll(t.chains, now);
    IpTable(swept, Total(swept), t.maxSize)
  }

  /** The scan of one bucket. */
  ghost predicate Contains(t: IpTable, ip: IpAddr, now: int)
    requires |t.chains| == IPSET_BUCKETS
  {
    exists b: Block :: b in t.chains[Bucket(ip.Key())] && !b.Expired(now) && b.ip.Key() == ip.Key()
  }

  /** The scan of the whole table. */
  ghost predicate ContainsCidr(t: IpTable, ip: IpAddr, now: int) {
    exists b: Block, i :: 0 <= i < |t.chains| && b in t.chains[i] && !b.Expired(now) && InCidr(ip, b.ip, b.prefixLen)
  }

  // ----- how many entries there are

  function Total(chains: seq<seq<Block>>): nat {
    if chains == [] then 0 else |chains[0]| + Total(chains[1..])
  }

  lemma {:induction false} TotalUpdate(chains: seq<seq<Block>>, i: nat, c: seq<Block>)
    requires i < |chains|
    ensures Total(chains[i := c]) == Total(chains) - |chains[i]| + |c|
  {
    if i == 0 {
      assert chains[i := c] == [c] + chains[1..];
    } else {
      assert chains[i := c][1..] == chains[1..][i - 1 := c];
      TotalUpdate(chains[1..], i - 1, c);
    }
  }

  lemma {:induction false} TotalOfEmpty(n: nat)
    ensures Total(EmptyChains(n)) == 0
  {
    if n > 0 {
      TotalAppend(EmptyChains(n - 1), [[]]);
      TotalOfEmpty(n - 1);
      assert Total([[]]) == 0;
    }
  }

  lemma {:induction false} TotalAppend(a: seq<seq<Block>>, b: seq<seq<Block>>)
    ensures Total(a + b) == Total(a) + Total(b)
  {
    if a == [] {
      assert a + b == b;
    } else {
      assert (a + b)[1..] == a[1..] + b;
      TotalAppend(a[1..], b);
    }
  }

  lemma {:induction false} TotalSwept(chains: seq<seq<Block>>, now: int)
    ensures Total(SweepAll(chains, now)) <= Total(chains)
  {
    if chains != [] {
      TotalSwept(chains[1..], now);
      assert SweepAll(chains, now)[1..] == SweepAll(chains[1..], now);
    }
  }

  // ----- every reachable table

  /** Every entry stands in the bucket of its address, and the count is right and within bounds. */
  ghost predicate Sound(t: IpTable) {
    && |t.chains| == IPSET_BUCKETS
    && Filed(t.chains)
    && t.count == Total(t.chains) <= t.maxSize
  }

  ghost predicate Filed(chains: seq<seq<Block>>) {
    forall i {:trigger chains[i]} :: 0 <= i < |chains| ==> AllIn(chains[i], i)
  }

  ghost predicate AllIn(c: seq<Block>, i: nat) {
    forall k {:trigger c[k]} :: 0 <= k < |c| ==> Bucket(c[k].ip.Key()) == i
  }

  lemma SoundOfEmpty(maxSize: nat)
    ensures Sound(Empty(maxSize))
  {
    TotalOfEmpty(IPSET_BUCKETS);
  }

  datatype Op =
    | AddHostOp(ip: IpAddr, expires: int)
    | AddBlockOp(block: Block)
    | RemoveOp(ip: IpAddr)
    | CleanupOp(now: int)
    | ClearOp

  function Next(t: IpTable, op: Op): IpTable
    requires |t.chains| == IPSET_BUCKETS
  {
    match op
    case AddHostOp(ip, expires) => AddHost(t, ip, expires)
    case AddBlockOp(block) => AddBlock(t, block)
    case RemoveOp(ip) => Remove(t, ip)
    case CleanupOp(now) => Cleanup(t, now)
    case ClearOp => Empty(t.maxSize)
  }

  function After(t: IpTable, ops: seq<Op>): (r: IpTable)
    requires |t.chains| == IPSET_BUCKETS
    ensures |r.chains| == IPSET_BUCKETS
  {
    if ops == [] then t else Next(After(t, ops[..|ops| - 1]), ops[|ops| - 1])
  }

  lemma {:induction false} SweptAreOld(c: seq<Block>, now: int, b: Block)
    ensures b in Sweep(c, now) <==> b in c && !b.Expired(now)
  {
    if c != [] {
      SweptAreOld(c[1..], now, b);
    }
  }

  lemma {:induction false} SweptAllIn(c: seq<Block>, now: int, i: nat)
    requires AllIn(c, i)
    ensures AllIn(Sweep(c, now), i)
  {
    if c != [] {
      assert c[0] == c[0];
      SweptAllIn(c[1..], now, i);
    }
  }

  lemma NextSound(t: IpTable, op: Op)
    requires Sound(t)
    ensures Sound(Next(t, op))
  {
    match op
    case AddHostOp(ip, expires) => AddHostSound(t, ip, expires);
    case AddBlockOp(block) => AddBlockSound(t, block);
    case RemoveOp(ip) => RemoveSound(t, ip);
    case CleanupOp(now) => CleanupSound(t, now);
    case ClearOp => SoundOfEmpty(t.maxSize);
  }

  lemma FiledUpdate(chains: seq<seq<Block>>, i: nat, c: seq<Block>)
    requires Filed(chains) && i < |chains|
    requires AllIn(c, i)
    ensures Filed(chains[i := c])
  {
    hide Bucket, IpAddr.Key;
  }

  lemma AddBlockSound(t: IpTable, b: Block)
    requires Sound(t)
    ensures Sound(AddBlock(t, b))
  {
    hide Bucket, IpAddr.Key;
    var i := Bucket(b.ip.Key());
    TotalUpdate(t.chains, i, [b] + t.chains[i]);
    FiledUpdate(t.chains, i, [b] + t.chains[i]);
  }

  lemma AddHostSound(t: IpTable, ip: IpAddr, expires: int)
    requires Sound(t)
    ensures Sound(AddHost(t, ip, expires))
  {
    hide Bucket, IpAddr.Key;
    var i := Bucket(ip.Key());
    var c := t.chains[i];
    var k := HostIndex(c, ip.Key());
    if t.count < t.maxSize && k < |c| {
      var c' := c[k := c[k].(expires := expires)];
      TotalUpdate(t.chains, i, c');
      FiledUpdate(t.chains, i, c');
    } else if t.count < t.maxSize {
      AddBlockSound(t, Block(ip, Width(ip.family), expires));
    }
  }

  lemma RemoveSound(t: IpTable, ip: IpAddr)
    requires Sound(t)
    ensures Sound(Remove(t, ip))
  {
    hide Bucket, IpAddr.Key;
    var i := Bucket(ip.Key());
    var c := t.chains[i];
    var k := AddressIndex(c, ip.Key());
    if k < |c| {
      TotalUpdate(t.chains, i, Without(c, k));
      FiledUpdate(t.chains, i, Without(c, k));
    }
  }

  lemma CleanupSound(t: IpTable, now: int)
    requires Sound(t)
    ensures Sound(Cleanup(t, now))
  {
    hide Bucket, IpAddr.Key;
    TotalSwept(t.chains, now);
    var swept := SweepAll(t.chains, now);
    forall i | 0 <= i < |swept|
      ensures AllIn(swept[i], i)
    {
      SweptAllIn(t.chains[i], now, i);
    }
  }

  /** In every reachable set the counter is the number of entries, within the limit, and every
      entry stands in the bucket its address hashes to. */
  lemma {:induction false} ReachableSound(maxSize: nat, ops: seq<Op>)
    ensures Sound(After(Empty(maxSize), ops))
  {
    if ops == [] {
      SoundOfEmpty(maxSize);
    } else {
      ReachableSound(maxSize, ops[..|ops| - 1]);
      NextSound(After(Empty(maxSize), ops[..|ops| - 1]), ops[|ops| - 1]);
    }
  }
}
