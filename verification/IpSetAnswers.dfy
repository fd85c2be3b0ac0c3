/** What the answers of the IP set mean, and what changes them. */
module IpSetAnswers {
  import opened Addresses
  import opened Cidr
  import opened IpSetTheory
  import opened Lists

  /** All entries, in the order a walk over the buckets meets them. */
  function Flat(chains: seq<seq<Block>>): (r: seq<Block>)
  {
    if chains == [] then [] else chains[0] + Flat(chains[1..])
  }

  lemma {:induction false} FlatIsUnion(chains: seq<seq<Block>>, b: Block)
    ensures b in Flat(chains) <==> exists i :: 0 <= i < |chains| && b in chains[i]
  {
    if chains != [] {
      FlatIsUnion(chains[1..], b);
      if b in chains[0] {
        assert 0 <= 0 < |chains| && b in chains[0];
      }
      if i :| 0 <= i < |chains[1..]| && b in chains[1..][i] {
        assert b in chains[i + 1];
      }
      if i :| 0 <= i < |chains| && b in chains[i] && i > 0 {
        assert b in chains[1..][i - 1];
      }
    }
  }

  lemma {:induction false} FlatSize(chains: seq<seq<Block>>)
    ensures |Flat(chains)| == Total(chains)
  {
    if chains != [] {
      FlatSize(chains[1..]);
    }
  }

  /** An unexpired entry somewhere in the table has exactly this address. */
  ghost predicate Listed(t: IpTable, ip: IpAddr, now: int) {
    exists b: Block :: b in Flat(t.chains) && !b.Expired(now) && b.ip.Key() == ip.Key()
  }

  /** An unexpired entry somewhere in the table covers the address. */
  ghost predicate Covered(t: IpTable, ip: IpAddr, now: int) {
    exists b: Block :: b in Flat(t.chains) && !b.Expired(now) && InCidr(ip, b.ip, b.prefixLen)
  }

  lemma InOwnBucket(t: IpTable, b: Block)
    requires Sound(t)
    ensures b in Flat(t.chains) <==> b in t.chains[Bucket(b.ip.Key())]
  {
    hide Bucket, IpAddr.Key;
    FlatIsUnion(t.chains, b);
    if i :| 0 <= i < |t.chains| && b in t.chains[i] {
      var k :| 0 <= k < |t.chains[i]| && t.chains[i][k] == b;
      assert AllIn(t.chains[i], i);
    }
  }

  /** Looking into one bucket is enough: ipset_contains says whether an unexpired entry with
      this address exists anywhere in the table. */
  lemma ContainsIsListed(t: IpTable, ip: IpAddr, now: int)
    requires Sound(t)
    ensures Contains(t, ip, now) <==> Listed(t, ip, now)
  {
    hide Bucket, IpAddr.Key, RawBlock.Expired, Sound;
    assert |t.chains| == IPSET_BUCKETS by { SoundSize(t); }
    if b: Block :| b in t.chains[Bucket(ip.Key())] && !b.Expired(now) && b.ip.Key() == ip.Key() {
      InOwnBucket(t, b);
    }
    if b: Block :| b in Flat(t.chains) && !b.Expired(now) && b.ip.Key() == ip.Key() {
      InOwnBucket(t, b);
    }
  }

  lemma SoundSize(t: IpTable)
    requires Sound(t)
    ensures |t.chains| == IPSET_BUCKETS
  {
  }

  /** The scan of all buckets says whether an unexpired block covers the address. */
  lemma ContainsCidrIsCovered(t: IpTable, ip: IpAddr, now: int)
    ensures ContainsCidr(t, ip, now) <==> Covered(t, ip, now)
  {
    hide InCidr, RawBlock.Expired;
    if b: Block, i :| 0 <= i < |t.chains| && b in t.chains[i] && !b.Expired(now) && InCidr(ip, b.ip, b.prefixLen) {
      FlatIsUnion(t.chains, b);
    }
    if b: Block :| b in Flat(t.chains) && !b.Expired(now) && InCidr(ip, b.ip, b.prefixLen) {
      FlatIsUnion(t.chains, b);
    }
  }

  /** Whatever the host test finds, the block test finds. */
  lemma ListedIsCovered(t: IpTable, ip: IpAddr, now: int)
    requires Sound(t) && Contains(t, ip, now)
    ensures ContainsCidr(t, ip, now)
  {
    hide InCidr, RawBlock.Expired, Sound, Bucket, IpAddr.Key;
    ContainsIsListed(t, ip, now);
    ContainsCidrIsCovered(t, ip, now);
    var b: Block :| b in Flat(t.chains) && !b.Expired(now) && b.ip.Key() == ip.Key();
    FullPrefixIsOneAddress(ip, b.ip, b.prefixLen);
  }

  // ----- sweeping

  lemma {:induction false} FlatSwept(chains: seq<seq<Block>>, now: int)
    ensures Flat(SweepAll(chains, now)) == Sweep(Flat(chains), now)
  {
    if chains != [] {
      FlatSwept(chains[1..], now);
      assert SweepAll(chains, now)[1..] == SweepAll(chains[1..], now);
      SweepAppend(chains[0], Flat(chains[1..]), now);
    }
  }

  lemma {:induction false} SweepAppend(a: seq<Block>, b: seq<Block>, now: int)
    ensures Sweep(a + b, now) == Sweep(a, now) + Sweep(b, now)
  {
    if a == [] {
      assert a + b == b;
    } else {
      assert (a + b)[1..] == a[1..] + b;
      SweepAppend(a[1..], b, now);
    }
  }

  /** Cleaning at one time changes no answer for any address at that time or later. */
  lemma CleanupKeepsAnswers(t: IpTable, ip: IpAddr, now: int, later: int)
    requires Sound(t) && now <= later
    ensures Sound(Cleanup(t, now))
    ensures Contains(Cleanup(t, now), ip, later) <==> Contains(t, ip, later)
    ensures ContainsCidr(Cleanup(t, now), ip, later) <==> ContainsCidr(t, ip, later)
  {
    hide InCidr, Sound, Bucket, IpAddr.Key, Contains, ContainsCidr;
    CleanupSound(t, now);
    FlatSwept(t.chains, now);
    forall b: Block
      ensures b in Flat(Cleanup(t, now).chains) <==> b in Flat(t.chains) && !b.Expired(now)
    {
      SweptAreOld(Flat(t.chains), now, b);
    }
    ContainsIsListed(t, ip, later);
    ContainsIsListed(Cleanup(t, now), ip, later);
    ContainsCidrIsCovered(t, ip, later);
    ContainsCidrIsCovered(Cleanup(t, now), ip, later);
  }

  // ----- adding and removing

  lemma {:induction false} FlatUpdate(chains: seq<seq<Block>>, i: nat, c: seq<Block>)
    requires i < |chains|
    ensures multiset(Flat(chains[i := c])) == multiset(Flat(chains)) - multiset(chains[i]) + multiset(c)
    ensures multiset(chains[i]) <= multiset(Flat(chains))
  {
    if i == 0 {
      assert chains[i := c][1..] == chains[1..];
    } else {
      assert chains[i := c][1..] == chains[1..][i - 1 := c];
      FlatUpdate(chains[1..], i - 1, c);
    }
  }

  /** A block added to a table with room joins its entries and nothing else happens:
      both tests now also say yes to what it names and covers. */
  lemma AddBlockAnswers(t: IpTable, b: Block, ip: IpAddr, now: int)
    requires Sound(t) && t.count < t.maxSize
    ensures multiset(Flat(AddBlock(t, b).chains)) == multiset(Flat(t.chains)) + multiset{b}
    ensures Contains(AddBlock(t, b), ip, now) <==> Contains(t, ip, now) || (!b.Expired(now) && b.ip.Key() == ip.Key())
    ensures ContainsCidr(AddBlock(t, b), ip, now) <==>
            ContainsCidr(t, ip, now) || (!b.Expired(now) && InCidr(ip, b.ip, b.prefixLen))
  {
    hide InCidr, Sound, Bucket, IpAddr.Key, Contains, ContainsCidr, RawBlock.Expired;
    AddBlockSound(t, b);
    SoundSize(t);
    AddBlockFlat(t, b);
    ContainsIsListed(t, ip, now);
    ContainsIsListed(AddBlock(t, b), ip, now);
    ContainsCidrIsCovered(t, ip, now);
    ContainsCidrIsCovered(AddBlock(t, b), ip, now);
  }

  lemma MembersFollow<T>(now: seq<T>, was: seq<T>, x: T)
    requires multiset(now) == multiset(was) + multiset{x}
    ensures forall a :: a in now <==> a in was || a == x
  {
    forall a
      ensures a in now <==> a in was || a == x
    {
      assert a in now <==> a in multiset(now);
      assert a in was <==> a in multiset(was);
    }
  }

  lemma PushedMultiset<T>(was: multiset<T>, c: seq<T>, x: T)
    requires multiset(c) <= was
    ensures was - multiset(c) + multiset([x] + c) == was + multiset{x}
  {
  }

  lemma AddBlockFlat(t: IpTable, b: Block)
    requires |t.chains| == IPSET_BUCKETS && t.count < t.maxSize
    ensures multiset(Flat(AddBlock(t, b).chains)) == multiset(Flat(t.chains)) + multiset{b}
    ensures forall a: Block :: a in Flat(AddBlock(t, b).chains) <==> a in Flat(t.chains) || a == b
  {
    hide Bucket, IpAddr.Key, Flat;
    var i := Bucket(b.ip.Key());
    FlatUpdate(t.chains, i, [b] + t.chains[i]);
    PushedMultiset(multiset(Flat(t.chains)), t.chains[i], b);
    MembersFollow(Flat(AddBlock(t, b).chains), Flat(t.chains), b);
  }

  // ----- an entry stays until something takes it away

  /** Some entry for exactly this address runs out at the given time. */
  ghost predicate HeldUntil(t: IpTable, x: IpKey, expires: int)
    requires |t.chains| == IPSET_BUCKETS
  {
    HeldIn(t.chains[Bucket(x)], x, expires)
  }

  ghost predicate HeldIn(c: seq<Block>, x: IpKey, expires: int) {
    exists b: Block :: b in c && b.ip.Key() == x && b.expires == expires
  }

  /** The operation neither removes, renews nor sweeps away what is held. */
  ghost predicate Harmless(op: Op, x: IpKey, expires: int) {
    match op
    case AddHostOp(ip, _) => ip.Key() != x
    case AddBlockOp(_) => true
    case RemoveOp(ip) => ip.Key() != x
    case CleanupOp(now) => !(expires > 0 && now > expires)
    case ClearOp => false
  }

  lemma HeldAt(c: seq<Block>, k: nat, b: Block, x: IpKey, expires: int)
    requires HeldIn(c, x, expires) && k < |c| && c[k].ip.Key() != x
    ensures HeldIn(c[k := b], x, expires) && HeldIn(Without(c, k), x, expires) && HeldIn([b] + c, x, expires)
  {
    hide IpAddr.Key;
    var h: Block :| h in c && h.ip.Key() == x && h.expires == expires;
    var j :| 0 <= j < |c| && c[j] == h;
    assert c[k := b][j] == h && ([b] + c)[j + 1] == h;
    assert Without(c, k)[if j < k then j else j - 1] == h;
  }

  lemma HeldBehind(c: seq<Block>, b: Block, x: IpKey, expires: int)
    requires HeldIn(c, x, expires)
    ensures HeldIn([b] + c, x, expires)
  {
    var h: Block :| h in c && h.ip.Key() == x && h.expires == expires;
    var j :| 0 <= j < |c| && c[j] == h;
    assert ([b] + c)[j + 1] == h;
  }

  lemma HeldNext(t: IpTable, op: Op, x: IpKey, expires: int)
    requires |t.chains| == IPSET_BUCKETS && HeldUntil(t, x, expires) && Harmless(op, x, expires)
    ensures HeldUntil(Next(t, op), x, expires)
  {
    hide Bucket, IpAddr.Key;
    var c := t.chains[Bucket(x)];
    match op
    case AddHostOp(ip, e) =>
      var k := HostIndex(c, ip.Key());
      if k < |c| {
        HeldAt(c, k, c[k].(expires := e), x, expires);
      } else {
        HeldBehind(c, Block(ip, Width(ip.family), e), x, expires);
      }
    case AddBlockOp(b) => HeldBehind(c, b, x, expires);
    case RemoveOp(ip) =>
      var k := AddressIndex(c, ip.Key());
      if k < |c| {
        HeldAt(c, k, c[k], x, expires);
      }
    case CleanupOp(now) =>
      var h: Block :| h in c && h.ip.Key() == x && h.expires == expires;
      SweptAreOld(c, now, h);
    case ClearOp =>
  }

  /** Over any run without a removal or renewal of this address, a clear, or a sweep past its time,
      a held address is found by ipset_contains up to and including its expiry time. */
  lemma {:induction false} HeldThroughout(t: IpTable, ops: seq<Op>, ip: IpAddr, expires: int, now: int)
    requires |t.chains| == IPSET_BUCKETS && HeldUntil(t, ip.Key(), expires)
    requires forall op :: op in ops ==> Harmless(op, ip.Key(), expires)
    ensures HeldUntil(After(t, ops), ip.Key(), expires)
    ensures expires <= 0 || now <= expires ==> Contains(After(t, ops), ip, now)
  {
    hide Bucket, IpAddr.Key, Harmless;
    if ops != [] {
      HeldThroughout(t, ops[..|ops| - 1], ip, expires, now);
      HeldNext(After(t, ops[..|ops| - 1]), ops[|ops| - 1], ip.Key(), expires);
    }
  }

  /** A successful addition of a host holds it, whether it made a new entry or renewed one. */
  lemma AddHostHolds(t: IpTable, ip: IpAddr, expires: int)
    requires |t.chains| == IPSET_BUCKETS && t.count < t.maxSize
    ensures HeldUntil(AddHost(t, ip, expires), ip.Key(), expires)
  {
    hide Bucket, IpAddr.Key;
    var c := t.chains[Bucket(ip.Key())];
    var k := HostIndex(c, ip.Key());
    if k < |c| {
      var c' := c[k := c[k].(expires := expires)];
      assert c'[k] in c';
    } else {
      var b: Block := Block(ip, Width(ip.family), expires);
      assert ([b] + c)[0] == b;
    }
  }
}
