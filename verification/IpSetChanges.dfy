/** What adding and removing a host does to both tests of an IP set. */
module IpSetChanges {
  import opened Addresses
  import opened Cidr
  import opened IpSetAnswers
  import opened IpSetTheory
  import opened Lists
  import opened Options

  // ----- ipset_contains

  /** A host added to a set with room is listed until its time runs out; the host test of no other
      address changes. */
  lemma AddHostLists(t: IpTable, ip: IpAddr, expires: int, other: IpAddr, now: int)
    requires Sound(t) && t.count < t.maxSize
    ensures Sound(AddHost(t, ip, expires))
    ensures !(expires > 0 && now > expires) ==> Contains(AddHost(t, ip, expires), ip, now)
    ensures other.Key() != ip.Key() ==> (Contains(AddHost(t, ip, expires), other, now) <==> Contains(t, other, now))
  {
    hide Bucket, IpAddr.Key, Filed;
    AddHostSound(t, ip, expires);
    var i := Bucket(ip.Key());
    var c := t.chains[i];
    var k := HostIndex(c, ip.Key());
    if k < |c| {
      var c' := c[k := c[k].(expires := expires)];
      assert c'[k] in c';
      if other.Key() != ip.Key() && Bucket(other.Key()) == i {
        SameOthers(c, c', k, other.Key(), now);
      }
    } else {
      var b: Block := Block(ip, Width(ip.family), expires);
      assert ([b] + c)[0] == b;
    }
  }

  ghost predicate ChainLists(c: seq<Block>, x: IpKey, now: int) {
    exists b: Block :: b in c && !b.Expired(now) && b.ip.Key() == x
  }

  lemma SameOthers(c: seq<Block>, c': seq<Block>, k: nat, x: IpKey, now: int)
    requires k < |c| == |c'| && (forall j :: 0 <= j < |c| && j != k ==> c'[j] == c[j])
    requires c[k].ip.Key() != x && c'[k].ip.Key() != x
    ensures ChainLists(c, x, now) <==> ChainLists(c', x, now)
  {
    hide IpAddr.Key, RawBlock.Expired;
    if b: Block :| b in c && !b.Expired(now) && b.ip.Key() == x {
      var j :| 0 <= j < |c| && c[j] == b;
      assert c'[j] == b;
    }
    if b: Block :| b in c' && !b.Expired(now) && b.ip.Key() == x {
      var j :| 0 <= j < |c'| && c'[j] == b;
      assert c[j] == b;
    }
  }

  /** The host test of no other address changes; the table stays as it is exactly when no entry has
      the address. */
  lemma RemoveLists(t: IpTable, ip: IpAddr, other: IpAddr, now: int)
    requires Sound(t)
    ensures Sound(Remove(t, ip))
    ensures other.Key() != ip.Key() ==> (Contains(Remove(t, ip), other, now) <==> Contains(t, other, now))
    ensures Remove(t, ip) == t <==> forall b: Block :: b in Flat(t.chains) ==> b.ip.Key() != ip.Key()
  {
    hide Bucket, IpAddr.Key, Filed;
    RemoveSound(t, ip);
    var i := Bucket(ip.Key());
    var c := t.chains[i];
    var k := AddressIndex(c, ip.Key());
    if k < |c| {
      assert c[k] in c;
      FlatIsUnion(t.chains, c[k]);
      if other.Key() != ip.Key() && Bucket(other.Key()) == i {
        OthersRemain(c, k, other.Key(), now);
      }
    } else {
      forall b: Block | b in Flat(t.chains)
        ensures b.ip.Key() != ip.Key()
      {
        InOwnBucket(t, b);
      }
    }
  }

  lemma OthersRemain(c: seq<Block>, k: nat, x: IpKey, now: int)
    requires k < |c| && c[k].ip.Key() != x
    ensures ChainLists(Without(c, k), x, now) <==> ChainLists(c, x, now)
  {
    hide IpAddr.Key, RawBlock.Expired;
    if b: Block :| b in c && !b.Expired(now) && b.ip.Key() == x {
      var j :| 0 <= j < |c| && c[j] == b;
      assert Without(c, k)[if j < k then j else j - 1] == b;
    }
  }

  // ----- the entries

  /** The entry ipset_remove takes: the first of its bucket with this address. */
  ghost function FirstEntry(t: IpTable, x: IpKey): (b: Option<Block>)
    requires |t.chains| == IPSET_BUCKETS
  {
    var c := t.chains[Bucket(x)];
    var k := AddressIndex(c, x);
    if k < |c| then Some(c[k]) else None
  }

  /** The entry ipset_add_expiring renews: the first of its bucket with this address and prefix 32. */
  ghost function RenewedEntry(t: IpTable, x: IpKey): (b: Option<Block>)
    requires |t.chains| == IPSET_BUCKETS
  {
    var c := t.chains[Bucket(x)];
    var k := HostIndex(c, x);
    if k < |c| then Some(c[k]) else None
  }

  function Renewed(b: Block, expires: int): Block {
    b.(expires := expires)
  }

  lemma WithoutMultiset<T>(c: seq<T>, k: nat)
    requires k < |c|
    ensures multiset(c) == multiset(Without(c, k)) + multiset{c[k]}
  {
    assert c == c[..k] + [c[k]] + c[k + 1..];
  }

  lemma TakenFrom<T>(all: multiset<T>, c: multiset<T>, d: multiset<T>, x: T)
    requires c <= all && c == d + multiset{x}
    ensures all - c + d == all - multiset{x} && x in all
  {
  }

  lemma ReplacedIn<T>(c: seq<T>, k: nat, y: T)
    requires k < |c|
    ensures multiset(c[k := y]) == multiset(c) - multiset{c[k]} + multiset{y} && c[k] in multiset(c)
  {
  }

  lemma ReplacedFrom<T>(all: multiset<T>, c: multiset<T>, d: multiset<T>, x: T, y: T)
    requires c <= all && x in c && d == c - multiset{x} + multiset{y}
    ensures all - c + d == all - multiset{x} + multiset{y} && x in all
  {
  }

  /** Removal takes one copy of the first entry with the address, and nothing else. */
  lemma RemoveTakesOne(t: IpTable, ip: IpAddr)
    requires |t.chains| == IPSET_BUCKETS && FirstEntry(t, ip.Key()).Some?
    ensures multiset(Flat(Remove(t, ip).chains)) == multiset(Flat(t.chains)) - multiset{FirstEntry(t, ip.Key()).value}
    ensures FirstEntry(t, ip.Key()).value in multiset(Flat(t.chains))
  {
    hide Bucket, IpAddr.Key, Flat, Without;
    var i := Bucket(ip.Key());
    var c := t.chains[i];
    var k := AddressIndex(c, ip.Key());
    FlatUpdate(t.chains, i, Without(c, k));
    WithoutMultiset(c, k);
    TakenFrom(multiset(Flat(t.chains)), multiset(c), multiset(Without(c, k)), c[k]);
  }

  /** A renewal replaces one copy of the renewed entry by itself with the new time. */
  lemma RenewalReplacesOne(t: IpTable, ip: IpAddr, expires: int)
    requires |t.chains| == IPSET_BUCKETS && t.count < t.maxSize && RenewedEntry(t, ip.Key()).Some?
    ensures var b := RenewedEntry(t, ip.Key()).value;
            multiset(Flat(AddHost(t, ip, expires).chains)) ==
              multiset(Flat(t.chains)) - multiset{b} + multiset{Renewed(b, expires)}
            && b in multiset(Flat(t.chains))
  {
    hide Bucket, IpAddr.Key, Flat;
    var i := Bucket(ip.Key());
    var c := t.chains[i];
    var k := HostIndex(c, ip.Key());
    var b := Renewed(c[k], expires);
    FlatUpdate(t.chains, i, c[k := b]);
    ReplacedIn(c, k, b);
    ReplacedFrom(multiset(Flat(t.chains)), multiset(c), multiset(c[k := b]), c[k], b);
  }

  // ----- ipset_contains_cidr

  /** The entry is alive and covers the address. */
  predicate Covers(b: Block, ip: IpAddr, now: int) {
    !b.Expired(now) && InCidr(ip, b.ip, b.prefixLen)
  }

  ghost predicate CoveredIn(m: multiset<Block>, ip: IpAddr, now: int) {
    exists b: Block :: b in m && Covers(b, ip, now)
  }

  lemma CoveredByMultiset(t: IpTable, ip: IpAddr, now: int)
    ensures ContainsCidr(t, ip, now) <==> CoveredIn(multiset(Flat(t.chains)), ip, now)
  {
    hide ContainsCidr, Flat, InCidr, RawBlock.Expired;
    ContainsCidrIsCovered(t, ip, now);
    if b: Block :| b in Flat(t.chains) && Covers(b, ip, now) {
      assert b in multiset(Flat(t.chains));
    }
  }

  lemma CoveredInMore(m: multiset<Block>, b: Block, ip: IpAddr, now: int)
    ensures CoveredIn(m + multiset{b}, ip, now) <==> CoveredIn(m, ip, now) || Covers(b, ip, now)
  {
    hide Covers;
    if a: Block :| a in m && Covers(a, ip, now) {
      assert a in m + multiset{b};
    }
    if Covers(b, ip, now) {
      assert b in m + multiset{b};
    }
  }

  /** A set without one copy of an entry covers what it covered, less what only that copy covered. */
  lemma CoveredInLess(m: multiset<Block>, b: Block, ip: IpAddr, now: int)
    requires b in m
    ensures CoveredIn(m, ip, now) <==> CoveredIn(m - multiset{b}, ip, now) || Covers(b, ip, now)
  {
    assert m == m - multiset{b} + multiset{b};
    CoveredInMore(m - multiset{b}, b, ip, now);
  }

  /** For every address at every time: it was covered exactly when it still is, or the removed entry covered it. */
  lemma RemoveCovers(t: IpTable, ip: IpAddr, other: IpAddr, now: int)
    requires |t.chains| == IPSET_BUCKETS
    ensures var b := FirstEntry(t, ip.Key());
            ContainsCidr(t, other, now) <==>
              ContainsCidr(Remove(t, ip), other, now) || (b.Some? && Covers(b.value, other, now))
  {
    hide ContainsCidr, Covers, CoveredIn, Bucket, IpAddr.Key, Flat;
    CoveredByMultiset(t, other, now);
    CoveredByMultiset(Remove(t, ip), other, now);
    var b := FirstEntry(t, ip.Key());
    if b.Some? {
      RemoveTakesOne(t, ip);
      CoveredInLess(multiset(Flat(t.chains)), b.value, other, now);
    }
  }

  /** No address but the removed one notices, at any time. */
  ghost predicate RemovalUnnoticed(t: IpTable, ip: IpAddr)
    requires |t.chains| == IPSET_BUCKETS
  {
    forall other: IpAddr, now {:trigger ContainsCidr(t, other, now)} :: other.Key() != ip.Key() ==>
      (ContainsCidr(Remove(t, ip), other, now) <==> ContainsCidr(t, other, now))
  }

  lemma FullPrefixUnnoticed(t: IpTable, ip: IpAddr)
    requires |t.chains| == IPSET_BUCKETS
    requires FirstEntry(t, ip.Key()).Some? ==>
               FirstEntry(t, ip.Key()).value.prefixLen == Width(FirstEntry(t, ip.Key()).value.ip.family)
    ensures RemovalUnnoticed(t, ip)
  {
    hide ContainsCidr, InCidr, Bucket, IpAddr.Key, Remove;
    forall other: IpAddr, now {:trigger ContainsCidr(t, other, now)} | other.Key() != ip.Key()
      ensures ContainsCidr(Remove(t, ip), other, now) <==> ContainsCidr(t, other, now)
    {
      RemoveCovers(t, ip, other, now);
      var b := FirstEntry(t, ip.Key());
      if b.Some? {
        FullPrefixIsOneAddress(other, b.value.ip, b.value.prefixLen);
      }
    }
  }

  /** A set that holds this entry alone. */
  function Only(b: Block): IpTable {
    AddBlock(Empty(2), b)
  }

  lemma OnlyOne(b: Block)
    ensures Sound(Only(b)) && Only(b).count == 1 && Only(b).maxSize == 2 && |Only(b).chains| == IPSET_BUCKETS
    ensures Only(b).chains[Bucket(b.ip.Key())] == [b]
    ensures FirstEntry(Only(b), b.ip.Key()) == Some(b)
    ensures b.prefixLen == 32 ==> RenewedEntry(Only(b), b.ip.Key()) == Some(b)
    ensures multiset(Flat(Only(b).chains)) == multiset{b}
  {
    hide Bucket, IpAddr.Key, Flat;
    SoundOfEmpty(2);
    AddBlockSound(Empty(2), b);
    AddBlockFlat(Empty(2), b);
    NothingFlat(IPSET_BUCKETS);
  }

  lemma {:induction false} NothingFlat(n: nat)
    ensures Flat(EmptyChains(n)) == []
  {
    FlatSize(EmptyChains(n));
    TotalOfEmpty(n);
  }

  /** The removal of the only entry: what its block covered is covered no more, beyond its own address too. */
  lemma RemovingBlockUncovers(b: Block, ip: IpAddr, other: IpAddr, now: int)
    requires Covers(b, other, now) && ip.Key() == b.ip.Key()
    ensures |Only(b).chains| == IPSET_BUCKETS
    ensures ContainsCidr(Only(b), other, now) && !ContainsCidr(Remove(Only(b), ip), other, now)
  {
    hide ContainsCidr, Covers, Bucket, IpAddr.Key, Flat, Only;
    OnlyOne(b);
    RemoveTakesOne(Only(b), ip);
    CoveredByMultiset(Only(b), other, now);
    CoveredByMultiset(Remove(Only(b), ip), other, now);
    assert b in multiset{b};
    assert multiset{b} - multiset{b} == multiset{};
  }

  /** The address next to this one: only the last digit differs. */
  function Neighbour(ip: IpAddr): IpAddr {
    var last := |ip.Octets()| - 1;
    IpAddr(ip.addr[last := if ip.addr[last] % 2 == 0 then ip.addr[last] + 1 else ip.addr[last] - 1], ip.family)
  }

  /** Every block that is more than one address holds a neighbour of its network address. */
  lemma NeighbourInside(ip: IpAddr, prefixLen: Byte)
    requires prefixLen < Width(ip.family)
    ensures Neighbour(ip).Key() != ip.Key() && InCidr(Neighbour(ip), ip, prefixLen)
  {
    hide InCidr;
    var a, b := Neighbour(ip).Octets(), ip.Octets();
    var last := |b| - 1;
    assert a[last] != b[last] && a[last] / 2 == b[last] / 2;
    InCidrIsPrefixMatch(Neighbour(ip), ip, prefixLen);
    forall i | 0 <= i < prefixLen
      ensures AddressBit(a, i) == AddressBit(b, i)
    {
      if i / 8 < last {
        assert a[i / 8] == b[i / 8];
      } else {
        SameButLast(a[last], b[last], 7 - i % 8);
      }
    }
  }

  lemma SameButLast(x: Byte, y: Byte, r: nat)
    requires x / 2 == y / 2 && r > 0
    ensures Bits.Bit(x, r) == Bits.Bit(y, r)
  {
  }

  /** Removing an address goes unnoticed by all other addresses, in every set with this first entry for it,
      exactly when there is no such entry or it has the full prefix: otherwise its block goes with it. */
  lemma RemovalUnnoticedExactly(ip: IpAddr, first: Option<Block>)
    requires first.Some? ==> first.value.ip.Key() == ip.Key()
    ensures (forall t {:trigger RemovalUnnoticed(t, ip)} ::
               Sound(t) && FirstEntry(t, ip.Key()) == first ==> RemovalUnnoticed(t, ip)) <==>
            (first == None || first.value.prefixLen == Width(ip.family))
  {
    hide ContainsCidr, InCidr, Bucket, IpAddr.Octets, Only, Neighbour, Filed, Total, FirstEntry, Remove;
    if first == None || first.value.prefixLen == Width(ip.family) {
      forall t | Sound(t) && FirstEntry(t, ip.Key()) == first
        ensures RemovalUnnoticed(t, ip)
      {
        FullPrefixUnnoticed(t, ip);
      }
    } else {
      var b := first.value;
      OnlyOne(b);
      NeighbourInside(b.ip, b.prefixLen);
      RemovingBlockUncovers(b, ip, Neighbour(b.ip), 0);
      assert !RemovalUnnoticed(Only(b), ip);
    }
  }

  // ----- what adding a host does to the covering test

  /** For every address at every time: with m the other entries, it was covered by m or the renewed entry,
      and it is covered by m or the entry with its new time. */
  lemma RenewalCovers(t: IpTable, ip: IpAddr, expires: int, other: IpAddr, now: int)
    requires |t.chains| == IPSET_BUCKETS && t.count < t.maxSize && RenewedEntry(t, ip.Key()).Some?
    ensures var b := RenewedEntry(t, ip.Key()).value;
            var m := multiset(Flat(t.chains)) - multiset{b};
            && (ContainsCidr(t, other, now) <==> CoveredIn(m, other, now) || Covers(b, other, now))
            && (ContainsCidr(AddHost(t, ip, expires), other, now) <==>
                  CoveredIn(m, other, now) || Covers(Renewed(b, expires), other, now))
  {
    hide ContainsCidr, Covers, CoveredIn, Bucket, IpAddr.Key, Flat, Renewed;
    var b := RenewedEntry(t, ip.Key()).value;
    CoveredByMultiset(t, other, now);
    CoveredByMultiset(AddHost(t, ip, expires), other, now);
    RenewalReplacesOne(t, ip, expires);
    CoveredInLess(multiset(Flat(t.chains)), b, other, now);
    CoveredInMore(multiset(Flat(t.chains)) - multiset{b}, Renewed(b, expires), other, now);
  }

  /** No address but the added one notices, at any time. */
  ghost predicate AdditionUnnoticed(t: IpTable, ip: IpAddr, expires: int)
    requires |t.chains| == IPSET_BUCKETS
  {
    forall other: IpAddr, now {:trigger ContainsCidr(t, other, now)} :: other.Key() != ip.Key() ==>
      (ContainsCidr(AddHost(t, ip, expires), other, now) <==> ContainsCidr(t, other, now))
  }

  /** Adding an IPv4 host, or any host that has no entry with prefix 32, goes unnoticed by all others. */
  lemma HostAdditionUnnoticed(t: IpTable, ip: IpAddr, expires: int)
    requires Sound(t) && (ip.family == AF_INET || RenewedEntry(t, ip.Key()) == None)
    ensures AdditionUnnoticed(t, ip, expires)
  {
    hide ContainsCidr, InCidr, Bucket, IpAddr.Octets, Filed, Total;
    forall other: IpAddr, now {:trigger ContainsCidr(t, other, now)} | other.Key() != ip.Key()
      ensures ContainsCidr(AddHost(t, ip, expires), other, now) <==> ContainsCidr(t, other, now)
    {
      if t.count < t.maxSize {
        OneHostAdded(t, ip, expires, other, now);
      }
    }
  }

  lemma OneHostAdded(t: IpTable, ip: IpAddr, expires: int, other: IpAddr, now: int)
    requires Sound(t) && t.count < t.maxSize && other.Key() != ip.Key()
    requires ip.family == AF_INET || RenewedEntry(t, ip.Key()) == None
    ensures ContainsCidr(AddHost(t, ip, expires), other, now) <==> ContainsCidr(t, other, now)
  {
    hide ContainsCidr, InCidr, Bucket, IpAddr.Octets, Filed, Total, CoveredIn, AddBlock;
    if RenewedEntry(t, ip.Key()).Some? {
      var b := RenewedEntry(t, ip.Key()).value;
      RenewalCovers(t, ip, expires, other, now);
      FullPrefixIsOneAddress(other, b.ip, b.prefixLen);
    } else {
      var b: Block := Block(ip, Width(ip.family), expires);
      AddBlockAnswers(t, b, other, now);
      FullPrefixIsOneAddress(other, ip, Width(ip.family));
    }
  }

  /** Renewing the only entry: its whole block takes the new time. */
  lemma RenewingBlock(b: Block, ip: IpAddr, expires: int, other: IpAddr, now: int)
    requires b.prefixLen == 32 && ip.Key() == b.ip.Key()
    ensures |Only(b).chains| == IPSET_BUCKETS
    ensures ContainsCidr(Only(b), other, now) <==> Covers(b, other, now)
    ensures ContainsCidr(AddHost(Only(b), ip, expires), other, now) <==> Covers(Renewed(b, expires), other, now)
  {
    hide ContainsCidr, Covers, Bucket, IpAddr.Key, Flat, Renewed, AddHost, Empty;
    OnlyOne(b);
    RenewalCovers(Only(b), ip, expires, other, now);
    assert multiset{b} - multiset{b} == multiset{};
  }

  /** An IPv6 block with prefix 32 and no expiry, added again as a host until some time: after that time
      every other address of the block has lost its cover. */
  lemma RenewingBlockUncovers(b: Block, expires: int, other: IpAddr, now: int)
    requires b.prefixLen == 32 && b.expires <= 0 && 0 < expires < now && InCidr(other, b.ip, 32)
    ensures |Only(b).chains| == IPSET_BUCKETS
    ensures ContainsCidr(Only(b), other, now) && !ContainsCidr(AddHost(Only(b), b.ip, expires), other, now)
  {
    hide ContainsCidr, InCidr, Bucket, IpAddr.Key, Only;
    RenewingBlock(b, b.ip, expires, other, now);
  }

  /** Adding a host goes unnoticed by all other addresses, in every set that renews this entry for it, exactly
      when the host is IPv4 or nothing is renewed: an IPv6 entry with prefix 32 is a whole block. */
  lemma AdditionUnnoticedExactly(ip: IpAddr, renewed: Option<Block>)
    requires renewed.Some? ==> renewed.value.ip.Key() == ip.Key() && renewed.value.prefixLen == 32
    ensures (forall t, expires {:trigger AdditionUnnoticed(t, ip, expires)} ::
               Sound(t) && RenewedEntry(t, ip.Key()) == renewed ==> AdditionUnnoticed(t, ip, expires)) <==>
            (ip.family == AF_INET || renewed == None)
  {
    hide ContainsCidr, InCidr, Bucket, IpAddr.Octets, Only, Neighbour, Filed, Total, RenewedEntry, AddHost;
    if ip.family == AF_INET || renewed == None {
      forall t, expires | Sound(t) && RenewedEntry(t, ip.Key()) == renewed
        ensures AdditionUnnoticed(t, ip, expires)
      {
        HostAdditionUnnoticed(t, ip, expires);
      }
    } else {
      var b := renewed.value;
      var expires := if b.expires <= 0 then 1 else 0;
      var now := if b.expires <= 0 then 2 else b.expires + 1;
      OnlyOne(b);
      NeighbourInside(b.ip, 32);
      RenewingBlock(b, ip, expires, Neighbour(b.ip), now);
      assert !AdditionUnnoticed(Only(b), ip, expires);
    }
  }

  // ----- the removed address itself

  /** The entry at j has this address and is alive. */
  ghost predicate AliveAt(c: seq<Block>, j: nat, x: IpKey, now: int)
    requires j < |c|
  {
    c[j].ip.Key() == x && !c[j].Expired(now)
  }

  lemma ListedWithout(c: seq<Block>, k: nat, x: IpKey, now: int)
    requires k < |c|
    ensures ChainLists(Without(c, k), x, now) <==> exists j :: 0 <= j < |c| && j != k && AliveAt(c, j, x, now)
  {
    hide IpAddr.Key, RawBlock.Expired;
    var d := Without(c, k);
    if j :| 0 <= j < |c| && j != k && AliveAt(c, j, x, now) {
      assert d[if j < k then j else j - 1] == c[j];
    }
    if b: Block :| b in d && !b.Expired(now) && b.ip.Key() == x {
      var j :| 0 <= j < |d| && d[j] == b;
      assert d[j] == c[if j < k then j else j + 1];
      assert AliveAt(c, if j < k then j else j + 1, x, now);
    }
  }

  /** After a removal the address is listed exactly when a later entry of its bucket has it and is alive. */
  lemma RemovedAddress(t: IpTable, ip: IpAddr, now: int)
    requires |t.chains| == IPSET_BUCKETS
    ensures var c := t.chains[Bucket(ip.Key())]; var k := AddressIndex(c, ip.Key());
            Contains(Remove(t, ip), ip, now) <==> exists j :: k < j < |c| && AliveAt(c, j, ip.Key(), now)
  {
    hide Bucket, IpAddr.Key, RawBlock.Expired, Without;
    var c := t.chains[Bucket(ip.Key())];
    var k := AddressIndex(c, ip.Key());
    if k < |c| {
      ListedWithout(c, k, ip.Key(), now);
    }
  }

  /** One removal takes an address off the list for good exactly when it has at most one entry. */
  lemma RemovedForGoodExactly(t: IpTable, ip: IpAddr)
    requires |t.chains| == IPSET_BUCKETS
    ensures var c := t.chains[Bucket(ip.Key())]; var k := AddressIndex(c, ip.Key());
            (forall now :: !Contains(Remove(t, ip), ip, now)) <==>
              forall j :: k < j < |c| ==> c[j].ip.Key() != ip.Key()
  {
    hide Bucket, IpAddr.Key, Contains;
    var c := t.chains[Bucket(ip.Key())];
    var k := AddressIndex(c, ip.Key());
    forall now
      ensures Contains(Remove(t, ip), ip, now) <==>
              exists j :: k < j < |c| && AliveAt(c, j, ip.Key(), now)
    {
      RemovedAddress(t, ip, now);
    }
    if j :| k < j < |c| && c[j].ip.Key() == ip.Key() {
      assert AliveAt(c, j, ip.Key(), 0);
      assert Contains(Remove(t, ip), ip, 0);
    }
  }

  /** An IPv6 host added twice has two entries; after one removal the address is still listed. */
  lemma TwiceAddedStays(ip: IpAddr, first: int, second: int, now: int)
    requires ip.family != AF_INET && !(first > 0 && now > first)
    ensures |AddHost(AddHost(Empty(2), ip, first), ip, second).chains| == IPSET_BUCKETS
    ensures Contains(Remove(AddHost(AddHost(Empty(2), ip, first), ip, second), ip), ip, now)
  {
    hide Bucket, IpAddr.Key;
    var b1: Block := Block(ip, 128, first);
    var b2: Block := Block(ip, 128, second);
    var once := AddHost(Empty(2), ip, first);
    var i := Bucket(ip.Key());
    assert once.chains[i] == [b1] && once.count == 1;
    assert HostIndex([b1], ip.Key()) == 1;
    var twice := AddHost(once, ip, second);
    assert twice.chains[i] == [b2] + [b1];
    assert AliveAt(twice.chains[i], 1, ip.Key(), now);
    RemovedAddress(twice, ip, now);
  }

  // ----- the two operations as a whole

  /** Removal takes one copy of the first entry with the address. The host test of the other addresses
      stays; every address the removed entry covered must now be covered by another; and the address
      itself is listed only if a later entry has it. */
  lemma RemoveAnswers(t: IpTable, ip: IpAddr, other: IpAddr, now: int)
    requires Sound(t)
    ensures Sound(Remove(t, ip))
    ensures var b := FirstEntry(t, ip.Key());
            && (b == None <==> forall a: Block :: a in Flat(t.chains) ==> a.ip.Key() != ip.Key())
            && (b == None ==> Remove(t, ip) == t)
            && (b.Some? ==> multiset(Flat(Remove(t, ip).chains)) == multiset(Flat(t.chains)) - multiset{b.value})
            && (ContainsCidr(t, other, now) <==>
                  ContainsCidr(Remove(t, ip), other, now) || (b.Some? && Covers(b.value, other, now)))
    ensures other.Key() != ip.Key() ==> (Contains(Remove(t, ip), other, now) <==> Contains(t, other, now))
    ensures var c := t.chains[Bucket(ip.Key())]; var k := AddressIndex(c, ip.Key());
            Contains(Remove(t, ip), ip, now) <==>
              exists j :: k < j < |c| && AliveAt(c, j, ip.Key(), now)
  {
    hide ContainsCidr, Contains, Covers, Bucket, IpAddr.Key, Flat, Filed;
    RemoveLists(t, ip, other, now);
    RemoveCovers(t, ip, other, now);
    RemovedAddress(t, ip, now);
    if FirstEntry(t, ip.Key()).Some? {
      RemoveTakesOne(t, ip);
    }
  }

  /** A host added to a set with room is listed until its time runs out, and the host test of the other
      addresses stays. Their covering test stays for IPv4 and where no entry with prefix 32 is renewed;
      otherwise the renewed entry covers them until the new time instead of the old. */
  lemma AddHostAnswers(t: IpTable, ip: IpAddr, expires: int, other: IpAddr, now: int)
    requires Sound(t)
    ensures Sound(AddHost(t, ip, expires))
    ensures t.count >= t.maxSize ==> AddHost(t, ip, expires) == t
    ensures t.count < t.maxSize && !(expires > 0 && now > expires) ==> Contains(AddHost(t, ip, expires), ip, now)
    ensures other.Key() != ip.Key() ==> (Contains(AddHost(t, ip, expires), other, now) <==> Contains(t, other, now))
    ensures other.Key() != ip.Key() && (ip.family == AF_INET || RenewedEntry(t, ip.Key()) == None) ==>
              (ContainsCidr(AddHost(t, ip, expires), other, now) <==> ContainsCidr(t, other, now))
    ensures t.count < t.maxSize && RenewedEntry(t, ip.Key()).Some? ==>
              var b := RenewedEntry(t, ip.Key()).value;
              var m := multiset(Flat(t.chains)) - multiset{b};
              && (ContainsCidr(t, other, now) <==> CoveredIn(m, other, now) || Covers(b, other, now))
              && (ContainsCidr(AddHost(t, ip, expires), other, now) <==>
                    CoveredIn(m, other, now) || Covers(Renewed(b, expires), other, now))
  {
    hide ContainsCidr, Contains, Covers, CoveredIn, Bucket, IpAddr.Key, Flat, Filed, Renewed, RenewedEntry;
    AddHostSound(t, ip, expires);
    if t.count < t.maxSize {
      AddHostLists(t, ip, expires, other, now);
      if RenewedEntry(t, ip.Key()).Some? {
        RenewalCovers(t, ip, expires, other, now);
      }
      if other.Key() != ip.Key() && (ip.family == AF_INET || RenewedEntry(t, ip.Key()) == None) {
        OneHostAdded(t, ip, expires, other, now);
      }
    }
  }
}
