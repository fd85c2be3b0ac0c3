/** The 32-bit MurmurHash3 of src/storage/hashtable.c and the connection hash built from it.
    Words are read in little-endian order. */
module Murmur {
  import opened Addresses
  import opened Bits
  import opened Endian

  const HASH_SEED: Word := 0x9747b28c

  function Mul(x: Word, c: Word): Word { (x * c) % 0x1_0000_0000 }

  /** The rotations, as sums of two parts that have no digit in common (RotationsAreOr). */
  function RotL15(x: Word): Word { (x * 0x8000) % 0x1_0000_0000 + x / 0x2_0000 }

  function RotL13(x: Word): Word { (x * 0x2000) % 0x1_0000_0000 + x / 0x8_0000 }

  lemma Remainder(r: nat, d: nat)
    requires r < 0x1_0000_0000
    ensures (0x1_0000_0000 * d + r) % 0x1_0000_0000 == r
  {
  }

  /** The rotations are (x << 15) | (x >> 17) and (x << 13) | (x >> 19) on 32 bits. */
  lemma RotationsAreOr(x: Word)
    ensures RotL15(x) == Or((x * 0x8000) % 0x1_0000_0000, Shr(x, 17))
    ensures RotL13(x) == Or((x * 0x2000) % 0x1_0000_0000, Shr(x, 19))
  {
    hide Or, Shr, Pow2;
    Pow2Of32();
    var low15 := ShrSplits(x, 17);
    Remainder(0x8000 * low15, Shr(x, 17));
    OrOfDisjoint(low15, Shr(x, 17), 15);
    var low13 := ShrSplits(x, 19);
    Remainder(0x2000 * low13, Shr(x, 19));
    OrOfDisjoint(low13, Shr(x, 19), 13);
  }

  /** x ^ (x >> s) */
  function XorShift(x: Word, s: nat): Word { Xor32(x, Shr(x, s)) }

  /** A key word before it enters the hash. */
  function MixKey(k: Word): Word { Mul(RotL15(Mul(k, 0xcc9e2d51)), 0x1b873593) }

  /** One turn of the body loop. */
  function Round(h: Word, k: Word): Word {
    (RotL13(Xor32(h, MixKey(k))) * 5 + 0xe6546b64) % 0x1_0000_0000
  }

  function Avalanche(h: Word): Word {
    XorShift(Mul(XorShift(Mul(XorShift(h, 16), 0x85ebca6b), 13), 0xc2b2ae35), 16)
  }

  function Block(data: seq<Byte>, i: nat): Word
    requires 4 * i + 4 <= |data|
  {
    LittleEndian(data[4 * i..4 * i + 4])
  }

  /** The hash after the first n words of the data. */
  function Body(data: seq<Byte>, n: nat, seed: Word): Word
    requires 4 * n <= |data|
  {
    if n == 0 then seed else Round(Body(data, n - 1, seed), Block(data, n - 1))
  }

  /** The last one to three bytes, read as one word (TailSum). */
  function TailWord(tail: seq<Byte>): Word
    requires |tail| < 4
  {
    LittleEndian(tail + seq(4 - |tail|, _ => 0))
  }

  /** What the switch over the tail mixes together with exclusive or is the sum of its parts. */
  lemma TailSum(b2: nat, b1: nat, b0: nat)
    requires b2 < 0x100 && b1 < 0x100 && b0 < 0x100
    ensures Xor(0, 0x1_0000 * b2) == 0x1_0000 * b2
    ensures Xor(0x1_0000 * b2, 0x100 * b1) == 0x1_0000 * b2 + 0x100 * b1
    ensures Xor(0x1_0000 * b2 + 0x100 * b1, b0) == 0x1_0000 * b2 + 0x100 * b1 + b0
  {
    hide Xor, Pow2;
    Pow2Of32();
    XorCommutes(0, 0x1_0000 * b2);
    XorWithZero(0x1_0000 * b2);
    XorOfDisjoint(b2, 0x100 * b1, 16);
    XorOfDisjoint(0x100 * b2 + b1, b0, 8);
  }

  function Tail(data: seq<Byte>): (t: seq<Byte>)
    ensures |t| == |data| % 4
  {
    data[4 * (|data| / 4)..]
  }

  function Murmur3(data: seq<Byte>, seed: Word): Word {
    var h := Body(data, |data| / 4, seed);
    Avalanche(Xor32(Xor32(h, MixKey(TailWord(Tail(data)))), |data| % 0x1_0000_0000))
  }

  // ----- every step is one-to-one

  lemma MulInjective(x: Word, y: Word, c: Word, inverse: Word, q: nat)
    requires c * inverse == 0x1_0000_0000 * q + 1
    requires Mul(x, c) == Mul(y, c)
    ensures x == y
  {
    var t := (x * c) / 0x1_0000_0000 - (y * c) / 0x1_0000_0000;
    assert (x - y) * c == 0x1_0000_0000 * t;
    assert (x - y) * (0x1_0000_0000 * q + 1) == 0x1_0000_0000 * (t * inverse);
    assert x - y == 0x1_0000_0000 * (t * inverse - (x - y) * q);
  }

  lemma RotL15Parts(x: Word)
    ensures RotL15(x) == (x % 0x2_0000) * 0x8000 + x / 0x2_0000
  {
    var q, r := x / 0x2_0000, x % 0x2_0000;
    assert x * 0x8000 == 0x1_0000_0000 * q + r * 0x8000;
  }

  lemma RotL13Parts(x: Word)
    ensures RotL13(x) == (x % 0x8_0000) * 0x2000 + x / 0x8_0000
  {
    var q, r := x / 0x8_0000, x % 0x8_0000;
    assert x * 0x2000 == 0x1_0000_0000 * q + r * 0x2000;
  }

  lemma RotL15Injective(x: Word, y: Word)
    requires RotL15(x) == RotL15(y)
    ensures x == y
  {
    RotL15Parts(x);
    RotL15Parts(y);
    assert x % 0x2_0000 == RotL15(x) / 0x8000 && y % 0x2_0000 == RotL15(y) / 0x8000;
  }

  lemma RotL13Injective(x: Word, y: Word)
    requires RotL13(x) == RotL13(y)
    ensures x == y
  {
    RotL13Parts(x);
    RotL13Parts(y);
    assert x % 0x8_0000 == RotL13(x) / 0x2000 && y % 0x8_0000 == RotL13(y) / 0x2000;
  }

  lemma MixKeyInjective(k: Word, k': Word)
    requires MixKey(k) == MixKey(k')
    ensures k == k'
  {
    MulInjective(RotL15(Mul(k, 0xcc9e2d51)), RotL15(Mul(k', 0xcc9e2d51)), 0x1b873593, 0x56ed309b, 0x958ed66);
    RotL15Injective(Mul(k, 0xcc9e2d51), Mul(k', 0xcc9e2d51));
    MulInjective(k, k', 0xcc9e2d51, 0xdee13bb1, 0xb2253208);
  }

  lemma RoundInjective(h: Word, k: Word, h': Word, k': Word)
    requires Round(h, k) == Round(h', k')
    ensures Xor(h, MixKey(k)) == Xor(h', MixKey(k'))
  {
    TimesFivePlus(RotL13(Xor32(h, MixKey(k))), RotL13(Xor32(h', MixKey(k'))));
    RotL13Injective(Xor32(h, MixKey(k)), Xor32(h', MixKey(k')));
  }

  lemma TimesFivePlus(x: Word, y: Word)
    requires (x * 5 + 0xe6546b64) % 0x1_0000_0000 == (y * 5 + 0xe6546b64) % 0x1_0000_0000
    ensures x == y
  {
    var t := (x * 5 + 0xe6546b64) / 0x1_0000_0000 - (y * 5 + 0xe6546b64) / 0x1_0000_0000;
    assert (x - y) * 5 == 0x1_0000_0000 * t;
  }

  lemma AvalancheInjective(h: Word, h': Word)
    requires Avalanche(h) == Avalanche(h')
    ensures h == h'
  {
    var a, a' := XorShift(h, 16), XorShift(h', 16);
    var b, b' := Mul(a, 0x85ebca6b), Mul(a', 0x85ebca6b);
    var c, c' := XorShift(b, 13), XorShift(b', 13);
    XorShiftInjective(Mul(c, 0xc2b2ae35), Mul(c', 0xc2b2ae35), 16);
    MulInjective(c, c', 0xc2b2ae35, 0x7ed1b41d, 0x60736e9a);
    XorShiftInjective(b, b', 13);
    MulInjective(a, a', 0x85ebca6b, 0xa5cb9243, 0x56bb77f4);
    XorShiftInjective(h, h', 16);
  }

  // ----- the whole hash

  /** murmur3_32: the loop over the words, the switch over the tail, the finalization. */
  method Murmur3_32(data: seq<Byte>, seed: Word) returns (h1: Word)
    ensures h1 == Murmur3(data, seed)
  {
    var nblocks := |data| / 4;
    h1 := seed;
    for i := 0 to nblocks
      invariant h1 == Body(data, i, seed)
    {
      h1 := Round(h1, Block(data, i));
    }
    var rest := |data| % 4;
    if rest != 0 {
      var k1 := SwitchTail(Tail(data));
      h1 := Xor32(h1, MixKey(k1));
    } else {
      EmptyTail(data, h1);
    }
    h1 := Avalanche(Xor32(h1, |data| % 0x1_0000_0000));
  }

  /** The switch over the tail; each case falls through to the next. */
  method SwitchTail(tail: seq<Byte>) returns (k1: Word)
    requires 0 < |tail| < 4
    ensures k1 == TailWord(tail)
  {
    hide Xor;
    var b2: nat := if |tail| >= 3 then tail[2] else 0;
    var b1: nat := if |tail| >= 2 then tail[1] else 0;
    TailSum(b2, b1, tail[0]);
    TailSum(0, b1, tail[0]);
    XorOfZero();
    var word: nat := 0;
    if |tail| >= 3 {
      word := Xor(word, 0x1_0000 * b2);
    }
    if |tail| >= 2 {
      word := Xor(word, 0x100 * b1);
    }
    word := Xor(word, tail[0]);
    k1 := word;
  }

  /** Skipping the tail step is the same as mixing in a tail of no bytes. */
  lemma EmptyTail(data: seq<Byte>, h: Word)
    requires |data| % 4 == 0
    ensures Xor32(h, MixKey(TailWord(Tail(data)))) == h
  {
    assert Tail(data) == [];
    assert TailWord([]) == 0 && MixKey(0) == 0;
    XorWithZero(h);
  }

  /** The finalization is one-to-one in what the body left and in the tail. */
  lemma FinishInjective(h: Word, t: Word, h': Word, t': Word, len: nat)
    requires Avalanche(Xor32(Xor32(h, MixKey(t)), len % 0x1_0000_0000)) ==
             Avalanche(Xor32(Xor32(h', MixKey(t')), len % 0x1_0000_0000))
    ensures Xor(h, MixKey(t)) == Xor(h', MixKey(t'))
  {
    var l := len % 0x1_0000_0000;
    AvalancheInjective(Xor32(Xor32(h, MixKey(t)), l), Xor32(Xor32(h', MixKey(t')), l));
    XorCancel(Xor(h, MixKey(t)), Xor(h', MixKey(t')), l);
  }

  lemma BlockAgrees(data: seq<Byte>, data': seq<Byte>, i: nat)
    requires 4 * i + 4 <= |data| == |data'|
    requires forall j :: 4 * i <= j < 4 * i + 4 ==> data[j] == data'[j]
    ensures Block(data, i) == Block(data', i)
  {
    assert data[4 * i..4 * i + 4] == data'[4 * i..4 * i + 4];
  }

  lemma {:induction false} BodyOfSamePrefix(data: seq<Byte>, data': seq<Byte>, n: nat, seed: Word)
    requires 4 * n <= |data| == |data'|
    requires forall j :: 0 <= j < 4 * n ==> data[j] == data'[j]
    ensures Body(data, n, seed) == Body(data', n, seed)
  {
    if n > 0 {
      BodyOfSamePrefix(data, data', n - 1, seed);
      BlockAgrees(data, data', n - 1);
    }
  }

  /** When the inputs agree from word m on, equal results at word n go back to equal states at word m. */
  lemma {:induction false} BodyBack(data: seq<Byte>, data': seq<Byte>, m: nat, n: nat, seed: Word, seed': Word)
    requires m <= n && 4 * n <= |data| == |data'|
    requires forall j :: 4 * m <= j < 4 * n ==> data[j] == data'[j]
    requires Body(data, n, seed) == Body(data', n, seed')
    ensures Body(data, m, seed) == Body(data', m, seed')
  {
    hide Xor, MixKey, Round, LittleEndian;
    if m < n {
      BlockAgrees(data, data', n - 1);
      var h, h', k := Body(data, n - 1, seed), Body(data', n - 1, seed'), Block(data, n - 1);
      RoundInjective(h, k, h', k);
      XorCancel(h, h', MixKey(k));
      BodyBack(data, data', m, n - 1, seed, seed');
    }
  }

  /** For fixed data the hash is one-to-one in its seed. */
  lemma SeedInjective(data: seq<Byte>, seed: Word, seed': Word)
    requires Murmur3(data, seed) == Murmur3(data, seed')
    ensures seed == seed'
  {
    var n := |data| / 4;
    var h, h', t := Body(data, n, seed), Body(data, n, seed'), TailWord(Tail(data));
    FinishInjective(h, t, h', t, |data|);
    XorCancel(h, h', MixKey(t));
    BodyBack(data, data, 0, n, seed, seed');
  }

  ghost function Image(f: int -> int, n: nat): set<int> {
    set i | 0 <= i < n :: f(i)
  }

  lemma {:induction false} ImageSize(f: int -> int, n: nat)
    requires forall i, j :: 0 <= i < j < n ==> f(i) != f(j)
    ensures |Image(f, n)| == n
  {
    if n > 0 {
      ImageSize(f, n - 1);
      assert Image(f, n) == Image(f, n - 1) + {f(n - 1)};
      assert f(n - 1) !in Image(f, n - 1);
    }
  }

  lemma SameSizeSubset(s: set<int>, t: set<int>)
    requires s <= t && |s| == |t|
    ensures s == t
  {
    assert |t - s| == |t| - |s|;
    assert t == s + (t - s);
  }

  ghost function Below(n: nat): (s: set<int>)
    ensures |s| == n
    ensures forall i :: i in s <==> 0 <= i < n
  {
    if n == 0 then {} else Below(n - 1) + {n - 1}
  }

  /** A one-to-one function on 0..n-1 reaches every number. */
  lemma OneToOneIsOnto(f: int -> int, n: nat, y: nat)
    requires forall i, j :: 0 <= i < j < n ==> f(i) != f(j)
    requires forall i :: 0 <= i < n ==> 0 <= f(i) < n
    requires y < n
    ensures exists i :: 0 <= i < n && f(i) == y
  {
    ImageSize(f, n);
    SameSizeSubset(Image(f, n), Below(n));
    assert y in Below(n);
  }

  /** For fixed data the hash is a bijection of its seed: every hash value has exactly one seed. */
  lemma SeedBijective(data: seq<Byte>, h: Word) returns (seed: Word)
    ensures Murmur3(data, seed) == h
    ensures forall other: Word :: Murmur3(data, other) == h ==> other == seed
  {
    hide Murmur3;
    var n := 0x1_0000_0000;
    var f := (i: int) => if 0 <= i < n then Murmur3(data, i) else 0;
    forall i, j | 0 <= i < j < n
      ensures f(i) != f(j)
    {
      if f(i) == f(j) {
        SeedInjective(data, i, j);
      }
    }
    OneToOneIsOnto(f, n, h);
    var i :| 0 <= i < n && f(i) == h;
    seed := i;
    forall other: Word | Murmur3(data, other) == h
      ensures other == seed
    {
      SeedInjective(data, other, seed);
    }
  }

  /** The two inputs agree outside aligned word i; the word after the last whole one is the tail. */
  ghost predicate AgreeOutsideWord(data: seq<Byte>, data': seq<Byte>, i: nat) {
    && |data| == |data'|
    && forall j :: 0 <= j < |data| && !(4 * i <= j < 4 * i + 4) ==> data[j] == data'[j]
  }

  /** For a fixed seed the hash tells apart any two inputs that differ in one word only. */
  lemma WordInjective(data: seq<Byte>, data': seq<Byte>, i: nat, seed: Word)
    requires AgreeOutsideWord(data, data', i)
    requires Murmur3(data, seed) == Murmur3(data', seed)
    ensures data == data'
  {
    var n := |data| / 4;
    FinishInjective(Body(data, n, seed), TailWord(Tail(data)), Body(data', n, seed), TailWord(Tail(data')), |data|);
    if i < n {
      WordBeforeTail(data, data', i, seed);
    } else {
      WordInTail(data, data', seed);
    }
  }

  lemma WordBeforeTail(data: seq<Byte>, data': seq<Byte>, i: nat, seed: Word)
    requires AgreeOutsideWord(data, data', i) && i < |data| / 4
    requires Xor(Body(data, |data| / 4, seed), MixKey(TailWord(Tail(data)))) ==
             Xor(Body(data', |data| / 4, seed), MixKey(TailWord(Tail(data'))))
    ensures data == data'
  {
    hide Xor, MixKey, Round, LittleEndian, TailWord;
    var n := |data| / 4;
    assert Tail(data) == Tail(data');
    XorCancel(Body(data, n, seed), Body(data', n, seed), MixKey(TailWord(Tail(data))));
    BodyBack(data, data', i + 1, n, seed, seed);
    BodyOfSamePrefix(data, data', i, seed);
    KeyFromRound(Body(data, i, seed), Block(data, i), Block(data', i));
    BlockInjective(data, data', i);
  }

  lemma WordInTail(data: seq<Byte>, data': seq<Byte>, seed: Word)
    requires |data| == |data'|
    requires forall j :: 0 <= j < 4 * (|data| / 4) ==> data[j] == data'[j]
    requires Xor(Body(data, |data| / 4, seed), MixKey(TailWord(Tail(data)))) ==
             Xor(Body(data', |data| / 4, seed), MixKey(TailWord(Tail(data'))))
    ensures data == data'
  {
    var n := |data| / 4;
    BodyOfSamePrefix(data, data', n, seed);
    KeyFromXor(Body(data, n, seed), TailWord(Tail(data)), TailWord(Tail(data')));
    TailInjective(data, data');
  }

  lemma KeyFromXor(h: Word, k: Word, k': Word)
    requires Xor(h, MixKey(k)) == Xor(h, MixKey(k'))
    ensures k == k'
  {
    XorCommutes(h, MixKey(k));
    XorCommutes(h, MixKey(k'));
    XorCancel(MixKey(k), MixKey(k'), h);
    MixKeyInjective(k, k');
  }

  lemma KeyFromRound(h: Word, k: Word, k': Word)
    requires Round(h, k) == Round(h, k')
    ensures k == k'
  {
    RoundInjective(h, k, h, k');
    KeyFromXor(h, k, k');
  }

  /** Between two equal rounds the states agree exactly when the words do. */
  lemma RoundOneToOne(h: Word, k: Word, h': Word, k': Word)
    requires Round(h, k) == Round(h', k')
    ensures h == h' <==> k == k'
  {
    hide Xor, MixKey, Round;
    RoundInjective(h, k, h', k');
    if h == h' {
      KeyFromXor(h, k, k');
    }
    if k == k' {
      XorCancel(h, h', MixKey(k));
    }
  }

  lemma BlockInjective(data: seq<Byte>, data': seq<Byte>, i: nat)
    requires AgreeOutsideWord(data, data', i) && 4 * i + 4 <= |data|
    requires Block(data, i) == Block(data', i)
    ensures data == data'
  {
    var b, b' := data[4 * i..4 * i + 4], data'[4 * i..4 * i + 4];
    LittleEndianInjective(b, b');
    forall j | 4 * i <= j < 4 * i + 4
      ensures data[j] == data'[j]
    {
      assert data[j] == b[j - 4 * i] && data'[j] == b'[j - 4 * i];
    }
  }

  lemma TailInjective(data: seq<Byte>, data': seq<Byte>)
    requires |data| == |data'|
    requires forall j :: 0 <= j < 4 * (|data| / 4) ==> data[j] == data'[j]
    requires TailWord(Tail(data)) == TailWord(Tail(data'))
    ensures data == data'
  {
    var m := |data| % 4;
    var pad := seq(4 - m, _ => 0);
    var b, b' := Tail(data) + pad, Tail(data') + pad;
    LittleEndianInjective(b, b');
    forall j | |data| - m <= j < |data|
      ensures data[j] == data'[j]
    {
      assert data[j] == b[j - (|data| - m)] && data'[j] == b'[j - (|data| - m)];
    }
  }

  // ----- the hash of a connection

  /** A uint16_t as it lies in memory. */
  function PortBytes(p: Port): (b: seq<Byte>)
    ensures |b| == 2
  {
    [p % 0x100, p / 0x100]
  }

  /** The hash depends on nothing but what identifies the connection. */
  function KeyHash(k: TupleKey): Word {
    var h1 := Murmur3(k.src.octets, HASH_SEED);
    var h2 := Murmur3(k.dst.octets, h1);
    var h3 := Murmur3(PortBytes(k.srcPort), h2);
    var h4 := Murmur3(PortBytes(k.dstPort), h3);
    Murmur3([k.protocol], h4)
  }

  function TupleHash(t: ConnTuple): Word {
    KeyHash(t.Key())
  }

  /** conn_tuple_hash */
  method ConnTupleHash(t: ConnTuple) returns (hash: Word)
    ensures hash == TupleHash(t)
  {
    hash := Murmur3_32(t.srcIp.Octets(), HASH_SEED);
    hash := Murmur3_32(t.dstIp.Octets(), hash);
    hash := Murmur3_32(PortBytes(t.srcPort), hash);
    hash := Murmur3_32(PortBytes(t.dstPort), hash);
    hash := Murmur3_32([t.protocol], hash);
  }

  /** Connections the table takes for the same one have the same hash. */
  lemma CompareZeroSameHash(a: ConnTuple, b: ConnTuple)
    requires TupleCompare(a, b) == 0
    ensures TupleHash(a) == TupleHash(b)
  {
    TupleCompareTotalOrder(a, b, b);
  }

  /** Two addresses of one family that differ in one aligned word at most; any two IPv4 addresses are. */
  ghost predicate OneWordApart(a: IpAddr, b: IpAddr) {
    a.family == b.family && exists i: nat :: AgreeOutsideWord(a.Octets(), b.Octets(), i)
  }

  lemma Ipv4OneWordApart(a: IpAddr, b: IpAddr)
    requires a.family == b.family == AF_INET
    ensures OneWordApart(a, b)
  {
    assert AgreeOutsideWord(a.Octets(), b.Octets(), 0);
  }

  lemma StageInjective(data: seq<Byte>, data': seq<Byte>, seed: Word, seed': Word)
    requires Murmur3(data, seed) == Murmur3(data', seed')
    ensures data == data' ==> seed == seed'
    ensures seed == seed' && (exists i: nat :: AgreeOutsideWord(data, data', i)) ==> data == data'
  {
    if data == data' {
      SeedInjective(data, seed, seed');
    } else if seed == seed' && exists i: nat :: AgreeOutsideWord(data, data', i) {
      var i: nat :| AgreeOutsideWord(data, data', i);
      WordInjective(data, data', i, seed);
    }
  }

  /** How many of the five fields differ. */
  function FieldsApart(a: TupleKey, b: TupleKey): nat {
    (if a.src != b.src then 1 else 0) + (if a.dst != b.dst then 1 else 0)
    + (if a.srcPort != b.srcPort then 1 else 0) + (if a.dstPort != b.dstPort then 1 else 0)
    + (if a.protocol != b.protocol then 1 else 0)
  }

  /** Connections whose addresses are at most one word apart, and which differ in at most one
      field, have the same hash only if they are the same connection. */
  lemma HashSeparates(a: ConnTuple, b: ConnTuple)
    requires OneWordApart(a.srcIp, b.srcIp) && OneWordApart(a.dstIp, b.dstIp)
    requires FieldsApart(a.Key(), b.Key()) <= 1
    requires TupleHash(a) == TupleHash(b)
    ensures a.Key() == b.Key()
  {
    var a1, b1 := Murmur3(a.srcIp.Octets(), HASH_SEED), Murmur3(b.srcIp.Octets(), HASH_SEED);
    var a2, b2 := Murmur3(a.dstIp.Octets(), a1), Murmur3(b.dstIp.Octets(), b1);
    var a3, b3 := Murmur3(PortBytes(a.srcPort), a2), Murmur3(PortBytes(b.srcPort), b2);
    var a4, b4 := Murmur3(PortBytes(a.dstPort), a3), Murmur3(PortBytes(b.dstPort), b3);
    StageInjective([a.protocol], [b.protocol], a4, b4);
    assert AgreeOutsideWord([a.protocol], [b.protocol], 0);
    assert [a.protocol][0] == a.protocol && [b.protocol][0] == b.protocol;
    StageInjective(PortBytes(a.dstPort), PortBytes(b.dstPort), a3, b3);
    StageInjective(PortBytes(a.srcPort), PortBytes(b.srcPort), a2, b2);
    PortsApart(a.srcPort, b.srcPort);
    PortsApart(a.dstPort, b.dstPort);
    StageInjective(a.dstIp.Octets(), b.dstIp.Octets(), a1, b1);
    StageInjective(a.srcIp.Octets(), b.srcIp.Octets(), HASH_SEED, HASH_SEED);
  }

  lemma PortsApart(p: Port, q: Port)
    ensures PortBytes(p) == PortBytes(q) ==> p == q
    ensures AgreeOutsideWord(PortBytes(p), PortBytes(q), 0)
  {
    assert PortBytes(p)[0] == p % 0x100 && PortBytes(p)[1] == p / 0x100;
    assert PortBytes(q)[0] == q % 0x100 && PortBytes(q)[1] == q / 0x100;
  }

  /** Two IPv4 connections that differ in exactly one of the five fields never share a hash. */
  lemma Ipv4HashSeparates(a: ConnTuple, b: ConnTuple)
    requires a.srcIp.family == b.srcIp.family == a.dstIp.family == b.dstIp.family == AF_INET
    requires FieldsApart(a.Key(), b.Key()) == 1
    ensures TupleHash(a) != TupleHash(b)
  {
    Ipv4OneWordApart(a.srcIp, b.srcIp);
    Ipv4OneWordApart(a.dstIp, b.dstIp);
    if TupleHash(a) == TupleHash(b) {
      HashSeparates(a, b);
    }
  }
}
