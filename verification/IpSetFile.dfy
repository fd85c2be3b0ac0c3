/** Saving an IP set to a file and loading it again (src/storage/ipset.c). */
module IpSetFile {
  import opened Addresses
  import opened Cidr
  import opened CidrText
  import opened IpSetAnswers
  import opened IpSetTheory
  import opened Lists
  import opened Options

  // ----- the text of a set

  predicate AllStandard(bs: seq<Block>) {
    forall k {:trigger bs[k]} :: 0 <= k < |bs| ==> Standard(bs[k])
  }

  /** One line for each entry. */
  function SaveText(codec: Codec, bs: seq<Block>): string
    requires AllStandard(bs)
  {
    if bs == [] then "" else
      FormatBlock(codec, bs[0]) + "\n" + SaveText(codec, bs[1..])
  }

  /** fgets: how much one call takes, at most 255 characters and no further than a newline. */
  function LineLength(text: string): (n: nat)
    ensures n <= |text| && (text != [] ==> n > 0)
  {
    var k := IndexOfChar(text, '\n');
    if k < |text| && k < LINE_SIZE - 1 then k + 1
    else if |text| < LINE_SIZE - 1 then |text| else LINE_SIZE - 1
  }

  /** The buffer as a C string, cut at its newline. */
  function CutLine(line: string): string {
    line[..IndexOfChar(line[..IndexOfChar(line, '\0')], '\n')]
  }

  /** ipset_add_cidr */
  function AddCidr(t: IpTable, codec: Codec, cidr: string): IpTable
    requires |t.chains| == IPSET_BUCKETS
  {
    match ParseCidr(codec, cidr)
    case None => t
    case Some(b) => AddBlock(t, b)
  }

  predicate Accepts(t: IpTable, codec: Codec, cidr: string) {
    ParseCidr(codec, cidr).Some? && t.count < t.maxSize
  }

  predicate Skipped(line: string) {
    line == [] || line[0] == '#'
  }

  /** ipset_load_from_file: the resulting table and the number of networks added. */
  function LoadText(t: IpTable, codec: Codec, text: string): (r: (IpTable, nat))
    requires |t.chains| == IPSET_BUCKETS
    ensures |r.0.chains| == IPSET_BUCKETS
    decreases |text|
  {
    if text == [] then (t, 0) else
      var n := LineLength(text);
      var line := CutLine(text[..n]);
      if Skipped(line) then LoadText(t, codec, text[n..])
      else
        var r := LoadText(AddCidr(t, codec, line), codec, text[n..]);
        (r.0, r.1 + if Accepts(t, codec, line) then 1 else 0)
  }

  // ----- loading what was saved

  /** The entries that come back from the file. */
  function Reloaded(codec: Codec, bs: seq<Block>): (r: seq<Block>)
    requires AllStandard(bs)
    ensures |r| <= |bs|
  {
    if bs == [] then [] else
      var p := ParseCidr(codec, FormatBlock(codec, bs[0]));
      (if p.Some? then [p.value] else []) + Reloaded(codec, bs[1..])
  }

  function AddAll(t: IpTable, bs: seq<Block>): (r: IpTable)
    requires |t.chains| == IPSET_BUCKETS
    ensures |r.chains| == IPSET_BUCKETS
    decreases |bs|
  {
    if bs == [] then t else AddAll(AddBlock(t, bs[0]), bs[1..])
  }

  function Nets(bs: seq<Block>): (r: seq<Net>)
    ensures |r| == |bs|
    ensures forall k :: 0 <= k < |bs| ==> r[k] == NetOf(bs[k])
  {
    if bs == [] then [] else [NetOf(bs[0])] + Nets(bs[1..])
  }

  ghost predicate Permanent(bs: seq<Block>) {
    forall k {:trigger bs[k]} :: 0 <= k < |bs| ==> bs[k].expires <= 0
  }

  lemma {:induction false} ReloadedIsSame(codec: Codec, bs: seq<Block>)
    requires Faithful(codec) && AllStandard(bs)
    ensures Nets(Reloaded(codec, bs)) == Nets(bs) && Permanent(Reloaded(codec, bs))
  {
    hide FormatBlock, ParseCidr, NetOf, Faithful;
    if bs != [] {
      ParseOfFormat(codec, bs[0]);
      ReloadedIsSame(codec, bs[1..]);
      var p := ParseCidr(codec, FormatBlock(codec, bs[0]));
      assert Reloaded(codec, bs) == [p.value] + Reloaded(codec, bs[1..]);
    }
  }

  /** A printed network is one short line without a newline inside. */
  lemma FormatIsLine(codec: Codec, b: Block)
    requires Faithful(codec) && Standard(b)
    ensures var line := FormatBlock(codec, b);
            0 < |line| < LINE_SIZE - 1 && '\n' !in line && '\0' !in line && line[0] != '#'
  {
    assert PlainText(codec.toText(b.ip));
    var n: nat := b.prefixLen;
    assert |Decimal(n)| <= 3 by {
      assert n / 10 < 100 && n / 10 / 10 < 10;
      assert n >= 10 ==> Decimal(n) == Decimal(n / 10) + [Digit(n % 10)];
      assert n / 10 >= 10 ==> Decimal(n / 10) == Decimal(n / 10 / 10) + [Digit(n / 10 % 10)];
    }
    forall c | c in Decimal(b.prefixLen)
      ensures c != '\n' && c != '\0'
    {
      DecimalIsDigits(b.prefixLen, c);
    }
  }

  lemma {:induction false} IndexOfFirst(s: string, rest: string, c: char)
    requires c !in s
    ensures IndexOfChar(s + [c] + rest, c) == |s| && IndexOfChar(s, c) == |s|
  {
    var line := s + [c] + rest;
    if s != [] {
      assert line[0] == s[0] && line[1..] == s[1..] + [c] + rest;
      IndexOfFirst(s[1..], rest, c);
    }
  }

  lemma TakesLine(line: string, rest: string)
    requires 0 < |line| < LINE_SIZE - 1 && '\n' !in line && '\0' !in line && line[0] != '#'
    ensures var text := line + "\n" + rest; var n := LineLength(text);
            n == |line| + 1 && text[n..] == rest && CutLine(text[..n]) == line && !Skipped(line)
  {
    IndexOfFirst(line, rest, '\n');
    var text := line + "\n" + rest;
    assert text[..|line| + 1] == line + "\n";
    IndexOfFirst(line + "\n", [], '\0');
    assert (line + "\n")[..|line| + 1] == line + "\n";
    assert line + "\n" == line + "\n" + [];
    IndexOfFirst(line, [], '\n');
  }

  /** Loading a saved text adds its entries one by one, in order. */
  lemma {:induction false} LoadOfSave(t: IpTable, codec: Codec, bs: seq<Block>)
    requires Faithful(codec) && AllStandard(bs) && |t.chains| == IPSET_BUCKETS
    ensures LoadText(t, codec, SaveText(codec, bs)).0 == AddAll(t, Reloaded(codec, bs))
    ensures 0 <= t.count <= t.maxSize ==>
              LoadText(t, codec, SaveText(codec, bs)).1 == AddAll(t, Reloaded(codec, bs)).count - t.count
    decreases |bs|
  {
    hide FormatBlock, ParseCidr, NetOf, Faithful, Bucket, LineLength, CutLine;
    if bs != [] {
      var line, rest := FormatBlock(codec, bs[0]), SaveText(codec, bs[1..]);
      ParseOfFormat(codec, bs[0]);
      FormatIsLine(codec, bs[0]);
      TakesLine(line, rest);
      var p := ParseCidr(codec, line);
      assert Reloaded(codec, bs) == [p.value] + Reloaded(codec, bs[1..]);
      LoadOfSave(AddBlock(t, p.value), codec, bs[1..]);
    }
  }

  // ----- where the entries go

  /** The networks of one bucket, in order. */
  function InBucket(ns: seq<Net>, i: nat): seq<Net> {
    if ns == [] then [] else (if Bucket(ns[0].key) == i then [ns[0]] else []) + InBucket(ns[1..], i)
  }

  lemma InBucketCons(n: Net, ns: seq<Net>, i: nat)
    ensures InBucket([n] + ns, i) == (if Bucket(n.key) == i then [n] else []) + InBucket(ns, i)
    ensures InBucket([], i) == []
  {
    assert ([n] + ns)[1..] == ns;
  }

  lemma {:induction false} InBucketAppend(a: seq<Net>, b: seq<Net>, i: nat)
    ensures InBucket(a + b, i) == InBucket(a, i) + InBucket(b, i)
  {
    hide Bucket, InBucket;
    if a == [] {
      assert a + b == b;
      InBucketCons(Net(IpKey(0, []), 0), [], i);
    } else {
      assert a + b == [a[0]] + (a[1..] + b) && a == [a[0]] + a[1..];
      InBucketCons(a[0], a[1..] + b, i);
      InBucketCons(a[0], a[1..], i);
      InBucketAppend(a[1..], b, i);
    }
  }

  lemma {:induction false} NetsAppend(a: seq<Block>, b: seq<Block>)
    ensures Nets(a + b) == Nets(a) + Nets(b)
  {
    hide NetOf;
    if a == [] {
      assert a + b == b;
    } else {
      assert (a + b)[1..] == a[1..] + b;
      NetsAppend(a[1..], b);
    }
  }

  lemma {:induction false} InBucketOfChain(c: seq<Block>, j: nat, i: nat)
    requires AllIn(c, j)
    ensures InBucket(Nets(c), i) == if i == j then Nets(c) else []
  {
    hide Bucket, IpAddr.Key;
    if c != [] {
      assert Bucket(c[0].ip.Key()) == j;
      InBucketOfChain(c[1..], j, i);
      assert Nets(c) == [NetOf(c[0])] + Nets(c[1..]);
      assert Nets(c)[1..] == Nets(c[1..]);
    }
  }

  lemma FlatFront(chains: seq<seq<Block>>, i: nat)
    requires chains != []
    ensures InBucket(Nets(Flat(chains)), i) == InBucket(Nets(chains[0]), i) + InBucket(Nets(Flat(chains[1..])), i)
  {
    hide NetOf, Bucket;
    NetsAppend(chains[0], Flat(chains[1..]));
    InBucketAppend(Nets(chains[0]), Nets(Flat(chains[1..])), i);
  }

  /** A walk over the buckets meets the chain of bucket i as a whole. */
  lemma {:induction false} InBucketOfFlat(chains: seq<seq<Block>>, from: nat, i: nat)
    requires forall j {:trigger chains[j]} :: 0 <= j < |chains| ==> AllIn(chains[j], from + j)
    ensures InBucket(Nets(Flat(chains)), i) == if from <= i < from + |chains| then Nets(chains[i - from]) else []
    decreases |chains|, 1
  {
    if chains == [] {
    } else {
      InBucketOfRest(chains, from, i);
    }
  }

  lemma {:induction false} InBucketOfRest(chains: seq<seq<Block>>, from: nat, i: nat)
    requires chains != []
    requires forall j {:trigger chains[j]} :: 0 <= j < |chains| ==> AllIn(chains[j], from + j)
    ensures InBucket(Nets(Flat(chains)), i) == if from <= i < from + |chains| then Nets(chains[i - from]) else []
    decreases |chains|, 0
  {
    hide Bucket, AllIn, NetOf, InBucket, Nets, Flat;
    var rest := chains[1..];
    forall j | 0 <= j < |rest|
      ensures AllIn(rest[j], from + 1 + j)
    {
      assert rest[j] == chains[j + 1];
    }
    InBucketOfFlat(rest, from + 1, i);
    FlatFront(chains, i);
    assert AllIn(chains[0], from + 0);
    InBucketOfChain(chains[0], from, i);
    if from < i < from + |chains| {
      assert rest[i - from - 1] == chains[i - from];
    }
  }

  lemma OneMore(b: Block, bs: seq<Block>, i: nat)
    requires bs != [] && b == bs[0]
    ensures Reverse(InBucket(Nets(bs), i)) ==
            Reverse(InBucket(Nets(bs[1..]), i)) + (if Bucket(b.ip.Key()) == i then [NetOf(b)] else [])
  {
    hide Bucket, IpAddr.Key;
    var ns := Nets(bs);
    assert ns[1..] == Nets(bs[1..]) && ns[0] == NetOf(b);
    if Bucket(b.ip.Key()) == i {
      assert InBucket(ns, i) == [NetOf(b)] + InBucket(ns[1..], i);
      assert InBucket(ns, i)[1..] == InBucket(ns[1..], i);
    } else {
      assert InBucket(ns, i) == InBucket(ns[1..], i);
    }
  }

  lemma NetsOnTop(t: IpTable, b: Block, i: nat)
    requires |t.chains| == IPSET_BUCKETS && i < IPSET_BUCKETS && t.count < t.maxSize
    ensures Nets(AddBlock(t, b).chains[i]) == (if Bucket(b.ip.Key()) == i then [NetOf(b)] else []) + Nets(t.chains[i])
  {
    hide Bucket, IpAddr.Key;
    assert ([b] + t.chains[i])[1..] == t.chains[i];
  }

  lemma AddAllStep(t: IpTable, bs: seq<Block>)
    requires |t.chains| == IPSET_BUCKETS
    ensures AddAll(t, bs) == if bs == [] then t else AddAll(AddBlock(t, bs[0]), bs[1..])
    ensures bs != [] && t.count < t.maxSize ==>
              AddBlock(t, bs[0]).count == t.count + 1 && AddBlock(t, bs[0]).maxSize == t.maxSize
    ensures bs != [] ==> |AddBlock(t, bs[0]).chains| == IPSET_BUCKETS
  {
    hide Bucket, IpAddr.Key;
  }

  /** Adding entries one by one stacks them on their chains, the last on top. */
  lemma {:induction false} AddAllChain(t: IpTable, bs: seq<Block>, i: nat)
    requires |t.chains| == IPSET_BUCKETS && i < IPSET_BUCKETS && t.count + |bs| <= t.maxSize
    ensures Nets(AddAll(t, bs).chains[i]) == Reverse(InBucket(Nets(bs), i)) + Nets(t.chains[i])
    decreases |bs|
  {
    hide Bucket, IpAddr.Key, NetOf, Nets, Reverse, InBucket, AddAll, AddBlock;
    AddAllStep(t, bs);
    if bs == [] {
      NoNets();
      NoneInBucket(i);
    } else {
      AddAllChain(AddBlock(t, bs[0]), bs[1..], i);
      OneMore(bs[0], bs, i);
      NetsOnTop(t, bs[0], i);
    }
  }

  /** A full set refuses what is left. */
  lemma {:induction false} AddAllCount(t: IpTable, bs: seq<Block>)
    requires Sound(t)
    ensures Sound(AddAll(t, bs)) && AddAll(t, bs).maxSize == t.maxSize
    ensures AddAll(t, bs).count == if t.count + |bs| <= t.maxSize then t.count + |bs| else t.maxSize
    decreases |bs|
  {
    hide Bucket, Filed, Total;
    if bs != [] {
      AddBlockSound(t, bs[0]);
      AddAllCount(AddBlock(t, bs[0]), bs[1..]);
    }
  }

  // ----- the round trip

  /** Bucket by bucket the same networks, in the opposite order. */
  ghost predicate Mirrors(c: seq<seq<Block>>, d: seq<seq<Block>>) {
    |c| == |d| && forall i {:trigger c[i]} {:trigger d[i]} :: 0 <= i < |c| ==> Nets(c[i]) == Reverse(Nets(d[i]))
  }

  lemma {:induction false} MirrorPermutes(c: seq<seq<Block>>, d: seq<seq<Block>>)
    requires Mirrors(c, d)
    ensures multiset(Nets(Flat(c))) == multiset(Nets(Flat(d)))
  {
    hide NetOf;
    if c != [] {
      forall i | 0 <= i < |c[1..]|
        ensures Nets(c[1..][i]) == Reverse(Nets(d[1..][i]))
      {
        assert c[1..][i] == c[i + 1] && d[1..][i] == d[i + 1];
      }
      MirrorPermutes(c[1..], d[1..]);
      assert c[0] == c[0];
      ReversePermutes(Nets(d[0]));
      NetsAppend(c[0], Flat(c[1..]));
      NetsAppend(d[0], Flat(d[1..]));
    }
  }

  function Loaded(codec: Codec, t: IpTable, maxSize: nat): (r: (IpTable, nat))
    requires AllStandard(Flat(t.chains))
    ensures |r.0.chains| == IPSET_BUCKETS
  {
    LoadText(Empty(maxSize), codec, SaveText(codec, Flat(t.chains)))
  }

  /** Loading a saved set into an empty one keeps all its entries exactly when there is room for them. */
  lemma RoundTripCount(codec: Codec, t: IpTable, maxSize: nat)
    requires Faithful(codec) && Sound(t) && AllStandard(Flat(t.chains))
    ensures var r := Loaded(codec, t, maxSize);
            Sound(r.0) && r.0.count == r.1 == (if t.count <= maxSize then t.count else maxSize)
  {
    hide Faithful, ParseCidr, FormatBlock, LoadText, SaveText, Filed, NetOf;
    var bs := Flat(t.chains);
    LoadOfSave(Empty(maxSize), codec, bs);
    ReloadedIsSame(codec, bs);
    SameSize(codec, bs);
    SoundOfEmpty(maxSize);
    FlatSize(t.chains);
    AddAllCount(Empty(maxSize), Reloaded(codec, bs));
  }

  lemma SameSize(codec: Codec, bs: seq<Block>)
    requires AllStandard(bs) && Nets(Reloaded(codec, bs)) == Nets(bs)
    ensures |Reloaded(codec, bs)| == |bs|
  {
  }

  /** Loading a saved set into an empty one with room reverses every chain and keeps the networks. */
  lemma RoundTripMirrors(codec: Codec, t: IpTable, maxSize: nat)
    requires Faithful(codec) && Sound(t) && AllStandard(Flat(t.chains)) && t.count <= maxSize
    ensures Mirrors(Loaded(codec, t, maxSize).0.chains, t.chains)
    ensures multiset(Nets(Flat(Loaded(codec, t, maxSize).0.chains))) == multiset(Nets(Flat(t.chains)))
  {
    hide Faithful, ParseCidr, FormatBlock, LoadText, SaveText, NetOf, Bucket, AllIn, AddAll, Nets, Flat, Reverse, Total;
    var r := Loaded(codec, t, maxSize).0;
    forall i | 0 <= i < IPSET_BUCKETS
      ensures Nets(r.chains[i]) == Reverse(Nets(t.chains[i]))
    {
      ReloadedChain(codec, t, maxSize, i);
    }
    SoundSize(t);
    MirrorPermutes(r.chains, t.chains);
  }

  lemma ReloadedChain(codec: Codec, t: IpTable, maxSize: nat, i: nat)
    requires Faithful(codec) && Sound(t) && AllStandard(Flat(t.chains)) && t.count <= maxSize && i < IPSET_BUCKETS
    ensures |t.chains| == IPSET_BUCKETS
    ensures Nets(Loaded(codec, t, maxSize).0.chains[i]) == Reverse(Nets(t.chains[i]))
  {
    hide Faithful, ParseCidr, FormatBlock, LoadText, SaveText, NetOf, Bucket, AllIn, AddAll, Nets, Flat, Reverse, InBucket, Total;
    var bs := Flat(t.chains);
    LoadOfSave(Empty(maxSize), codec, bs);
    ReloadedIsSame(codec, bs);
    SameSize(codec, bs);
    FlatSize(t.chains);
    AddAllChain(Empty(maxSize), Reloaded(codec, bs), i);
    FiledFrom(t.chains);
    InBucketOfFlat(t.chains, 0, i);
    NoNets();
  }

  lemma NoneInBucket(i: nat)
    ensures Reverse(InBucket([], i)) == []
  {
  }

  lemma NoNets()
    ensures Nets([]) == []
  {
  }

  lemma FiledFrom(chains: seq<seq<Block>>)
    requires Filed(chains)
    ensures forall j {:trigger chains[j]} :: 0 <= j < |chains| ==> AllIn(chains[j], 0 + j)
  {
    hide AllIn;
  }

  // ----- what the reloaded set answers

  lemma SameNets(c: seq<Block>, d: seq<Block>, b: Block)
    requires multiset(Nets(c)) == multiset(Nets(d)) && b in c
    ensures exists a: Block :: a in d && NetOf(a) == NetOf(b)
  {
    hide NetOf;
    var k :| 0 <= k < |c| && c[k] == b;
    assert Nets(c)[k] in multiset(Nets(d));
    var j :| 0 <= j < |d| && Nets(d)[j] == NetOf(b);
    assert d[j] in d;
  }

  lemma {:induction false} AddAllPermanent(t: IpTable, bs: seq<Block>)
    requires |t.chains| == IPSET_BUCKETS && Permanent(bs)
    requires forall i {:trigger t.chains[i]} :: 0 <= i < |t.chains| ==> Permanent(t.chains[i])
    ensures forall i {:trigger AddAll(t, bs).chains[i]} :: 0 <= i < IPSET_BUCKETS ==> Permanent(AddAll(t, bs).chains[i])
    decreases |bs|
  {
    hide Bucket, IpAddr.Key;
    if bs != [] {
      assert bs[0].expires <= 0;
      AddAllPermanent(AddBlock(t, bs[0]), bs[1..]);
    }
  }

  lemma ReloadedPermanent(codec: Codec, t: IpTable, maxSize: nat)
    requires Faithful(codec) && AllStandard(Flat(t.chains))
    ensures Permanent(Flat(Loaded(codec, t, maxSize).0.chains))
  {
    hide Faithful, ParseCidr, FormatBlock, LoadText, SaveText, NetOf, AddAll, Nets, Flat, Reloaded;
    var bs := Flat(t.chains);
    LoadOfSave(Empty(maxSize), codec, bs);
    ReloadedIsSame(codec, bs);
    AddAllPermanent(Empty(maxSize), Reloaded(codec, bs));
    var r := Loaded(codec, t, maxSize).0;
    FlatPermanent(r.chains);
  }

  lemma FlatPermanent(chains: seq<seq<Block>>)
    requires forall i {:trigger chains[i]} :: 0 <= i < |chains| ==> Permanent(chains[i])
    ensures Permanent(Flat(chains))
  {
    hide Flat;
    forall k | 0 <= k < |Flat(chains)|
      ensures Flat(chains)[k].expires <= 0
    {
      var b := Flat(chains)[k];
      FlatIsUnion(chains, b);
      var i :| 0 <= i < |chains| && b in chains[i];
      var j :| 0 <= j < |chains[i]| && chains[i][j] == b;
      assert Permanent(chains[i]);
    }
  }

  lemma ReloadedStandard(codec: Codec, t: IpTable, maxSize: nat)
    requires Faithful(codec) && Sound(t) && AllStandard(Flat(t.chains)) && t.count <= maxSize
    ensures AllStandard(Flat(Loaded(codec, t, maxSize).0.chains))
  {
    hide Faithful, LoadText, SaveText, Nets, Flat, Mirrors, Loaded, Sound, IpAddr.Octets;
    RoundTripMirrors(codec, t, maxSize);
    var c, d := Flat(Loaded(codec, t, maxSize).0.chains), Flat(t.chains);
    forall k | 0 <= k < |c|
      ensures Standard(c[k])
    {
      SameNets(c, d, c[k]);
      var a: Block :| a in d && NetOf(a) == NetOf(c[k]);
      var j :| 0 <= j < |d| && d[j] == a;
    }
  }

  /** A saved entry names this address, expired or not. */
  ghost predicate Named(bs: seq<Block>, ip: IpAddr) {
    exists b: Block :: b in bs && b.ip.Key() == ip.Key()
  }

  /** A saved entry covers this address, expired or not. */
  ghost predicate Spanned(bs: seq<Block>, ip: IpAddr) {
    exists b: Block :: b in bs && InCidr(ip, b.ip, b.prefixLen)
  }

  lemma NetsDecide(c: seq<Block>, d: seq<Block>, ip: IpAddr)
    requires multiset(Nets(c)) == multiset(Nets(d))
    ensures Named(c, ip) ==> Named(d, ip)
    ensures Spanned(c, ip) ==> Spanned(d, ip)
  {
    hide Nets, InCidr, IpAddr.Octets;
    if b: Block :| b in c && b.ip.Key() == ip.Key() {
      SameNets(c, d, b);
    }
    if b: Block :| b in c && InCidr(ip, b.ip, b.prefixLen) {
      SameNets(c, d, b);
      var a: Block :| a in d && NetOf(a) == NetOf(b);
      InCidrByKey(ip, a.ip, b.ip, b.prefixLen);
    }
  }

  lemma InCidrByKey(ip: IpAddr, n1: IpAddr, n2: IpAddr, prefixLen: Byte)
    requires n1.Key() == n2.Key() && prefixLen <= Width(n1.family)
    ensures InCidr(ip, n1, prefixLen) <==> InCidr(ip, n2, prefixLen)
  {
    hide Bits.And, Mask4, MemCmp, HighMask, Endian.LittleEndian;
  }

  lemma PermanentAnswers(t: IpTable, ip: IpAddr, now: int)
    requires Sound(t) && Permanent(Flat(t.chains))
    ensures Contains(t, ip, now) <==> Named(Flat(t.chains), ip)
    ensures ContainsCidr(t, ip, now) <==> Spanned(Flat(t.chains), ip)
  {
    hide Flat, InCidr, IpAddr.Key, Sound, Contains, ContainsCidr;
    ContainsIsListed(t, ip, now);
    ContainsCidrIsCovered(t, ip, now);
    forall b: Block | b in Flat(t.chains)
      ensures !b.Expired(now)
    {
      var k :| 0 <= k < |Flat(t.chains)| && Flat(t.chains)[k] == b;
    }
  }

  /** The reloaded set says yes exactly to what some saved entry names or covers, expired or not:
      never less than the saved set, and the same when nothing in it could expire. */
  lemma RoundTripAnswers(codec: Codec, t: IpTable, maxSize: nat, ip: IpAddr, now: int)
    requires Faithful(codec) && Sound(t) && AllStandard(Flat(t.chains)) && t.count <= maxSize
    ensures var r := Loaded(codec, t, maxSize).0;
            && (Contains(r, ip, now) <==> Named(Flat(t.chains), ip))
            && (ContainsCidr(r, ip, now) <==> Spanned(Flat(t.chains), ip))
            && (Contains(t, ip, now) ==> Contains(r, ip, now))
            && (ContainsCidr(t, ip, now) ==> ContainsCidr(r, ip, now))
            && (Permanent(Flat(t.chains)) ==>
                  (Contains(r, ip, now) <==> Contains(t, ip, now)) &&
                  (ContainsCidr(r, ip, now) <==> ContainsCidr(t, ip, now)))
  {
    hide Faithful, Flat, InCidr, IpAddr.Key, Sound, Contains, ContainsCidr, Loaded, Nets, Mirrors, RawBlock.Expired;
    SoundSize(t);
    var r := Loaded(codec, t, maxSize).0;
    RoundTripCount(codec, t, maxSize);
    RoundTripMirrors(codec, t, maxSize);
    ReloadedPermanent(codec, t, maxSize);
    PermanentAnswers(r, ip, now);
    NetsDecide(Flat(r.chains), Flat(t.chains), ip);
    NetsDecide(Flat(t.chains), Flat(r.chains), ip);
    ContainsIsListed(t, ip, now);
    ContainsCidrIsCovered(t, ip, now);
    if Permanent(Flat(t.chains)) {
      PermanentAnswers(t, ip, now);
    }
  }

  /** Two round trips put every chain back in its order. */
  lemma TwoRoundTrips(codec: Codec, t: IpTable, maxSize: nat)
    requires Faithful(codec) && Sound(t) && AllStandard(Flat(t.chains)) && t.count <= maxSize
    ensures var once := Loaded(codec, t, maxSize).0;
            AllStandard(Flat(once.chains)) && |t.chains| == IPSET_BUCKETS &&
            forall i :: 0 <= i < IPSET_BUCKETS ==> Nets(Loaded(codec, once, maxSize).0.chains[i]) == Nets(t.chains[i])
  {
    hide Faithful, Flat, Sound, Loaded, Nets, Reverse;
    SoundSize(t);
    var once := Loaded(codec, t, maxSize).0;
    RoundTripCount(codec, t, maxSize);
    RoundTripMirrors(codec, t, maxSize);
    ReloadedStandard(codec, t, maxSize);
    RoundTripMirrors(codec, once, maxSize);
    var twice := Loaded(codec, once, maxSize).0;
    forall i | 0 <= i < IPSET_BUCKETS
      ensures Nets(twice.chains[i]) == Nets(t.chains[i])
    {
      ReverseTwice(Nets(t.chains[i]));
    }
  }

  // ----- pieces of a text

  lemma {:induction false} SaveTextAppend(codec: Codec, a: seq<Block>, b: seq<Block>)
    requires AllStandard(a + b) && AllStandard(a) && AllStandard(b)
    ensures SaveText(codec, a + b) == SaveText(codec, a) + SaveText(codec, b)
  {
    hide FormatBlock;
    if a == [] {
      assert a + b == b;
    } else {
      assert (a + b)[1..] == a[1..] + b && (a + b)[0] == a[0];
      SaveTextAppend(codec, a[1..], b);
    }
  }

  lemma {:induction false} FlatAppend(a: seq<seq<Block>>, b: seq<seq<Block>>)
    ensures Flat(a + b) == Flat(a) + Flat(b)
  {
    if a == [] {
      assert a + b == b;
    } else {
      assert (a + b)[1..] == a[1..] + b;
      FlatAppend(a[1..], b);
    }
  }

  lemma FlatOne(c: seq<Block>)
    ensures Flat([c]) == c
  {
    assert Flat([c][1..]) == [];
  }

  lemma SaveNothing(codec: Codec, chains: seq<seq<Block>>)
    ensures Flat(chains[..0]) == [] && AllStandard(Flat(chains[..0])) && SaveText(codec, Flat(chains[..0])) == ""
  {
  }

  /** The text of the buckets up to one more. */
  lemma SaveNextBucket(codec: Codec, chains: seq<seq<Block>>, i: nat)
    requires i < |chains| && AllStandard(Flat(chains))
    ensures AllStandard(Flat(chains[..i])) && AllStandard(chains[i]) && AllStandard(Flat(chains[..i + 1]))
    ensures SaveText(codec, Flat(chains[..i + 1])) == SaveText(codec, Flat(chains[..i])) + SaveText(codec, chains[i])
    ensures |Flat(chains[..i + 1])| == |Flat(chains[..i])| + |chains[i]|
  {
    hide Flat, FormatBlock, SaveText, Standard;
    assert chains[..i + 1] == chains[..i] + [chains[i]];
    assert chains == chains[..i + 1] + chains[i + 1..];
    FlatAppend(chains[..i], [chains[i]]);
    FlatOne(chains[i]);
    FlatAppend(chains[..i + 1], chains[i + 1..]);
    StandardParts(Flat(chains[..i + 1]), Flat(chains[i + 1..]));
    StandardParts(Flat(chains[..i]), chains[i]);
    SaveTextAppend(codec, Flat(chains[..i]), chains[i]);
  }

  lemma StandardParts(a: seq<Block>, b: seq<Block>)
    requires AllStandard(a + b)
    ensures AllStandard(a) && AllStandard(b)
  {
    hide Standard;
    forall k | 0 <= k < |a|
      ensures Standard(a[k])
    {
      assert (a + b)[k] == a[k];
    }
    forall k | 0 <= k < |b|
      ensures Standard(b[k])
    {
      assert (a + b)[|a| + k] == b[k];
    }
  }

  // ----- an address without a prefix

  /** Written without a slash, an address gets prefix 32. That is the address alone exactly when it
      is an IPv4 address: a bare IPv6 address stands for all addresses with the same first 32 digits. */
  lemma BareAddress(codec: Codec, text: string)
    requires '/' !in text && |text| < MAX_IP_STR_LEN && codec.fromText(text).Some?
    ensures ParseCidr(codec, text) == Some(Block(codec.fromText(text).value, 32, 0))
    ensures var ip := codec.fromText(text).value;
            (forall other :: InCidr(other, ip, 32) <==> other.Key() == ip.Key()) <==> ip.family == AF_INET
  {
    hide InCidr;
    NoSlash(text);
    var ip := codec.fromText(text).value;
    forall other
      ensures ip.family == AF_INET ==> (InCidr(other, ip, 32) <==> other.Key() == ip.Key())
    {
      FullPrefixIsOneAddress(other, ip, 32);
    }
    if ip.family == AF_INET6 {
      var other := IpAddr(ip.addr[15 := if ip.addr[15] == 0 then 1 else 0], ip.family);
      SameStart(ip, other);
      assert other.Octets()[15] != ip.Octets()[15];
      InCidrIsPrefixMatch(other, ip, 32);
    }
  }

  lemma SameStart(ip: IpAddr, other: IpAddr)
    requires ip.family == other.family == AF_INET6 && ip.addr[..4] == other.addr[..4]
    ensures FirstBitsAgree(other.Octets(), ip.Octets(), 32)
  {
    WholeBytes(other.Octets(), ip.Octets(), 4);
  }

  lemma NoSlash(text: string)
    requires '/' !in text
    ensures IndexOfChar(text, '/') == |text|
  {
    IndexOfFirst(text, [], '/');
  }
}
