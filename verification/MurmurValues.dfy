/** The connection hash by the book: every step with its constants, and its values at fixed inputs. */
module MurmurValues {
  import opened Addresses
  import opened Bits
  import opened Murmur

  // ----- the steps

  /** No word leaves the seed; one more word is mixed in with these shifts and constants. */
  lemma WordByTheBook(data: seq<Byte>, n: nat, seed: Word)
    requires 4 * n + 4 <= |data|
    ensures Body(data, 0, seed) == seed
    ensures var k := data[4 * n] as int + 0x100 * data[4 * n + 1] as int + 0x1_0000 * data[4 * n + 2] as int
                     + 0x100_0000 * data[4 * n + 3] as int;
            var k1 := (k * 0xcc9e2d51) % 0x1_0000_0000;
            var k2 := Or((k1 * 0x8000) % 0x1_0000_0000, Shr(k1, 17));
            var k3 := (k2 * 0x1b873593) % 0x1_0000_0000;
            var h1 := Xor(Body(data, n, seed), k3);
            var h2 := Or((h1 * 0x2000) % 0x1_0000_0000, Shr(h1, 19));
            Body(data, n + 1, seed) == (h2 * 5 + 0xe6546b64) % 0x1_0000_0000
  {
    hide Or, Shr, Xor, RotL15, RotL13, Body, Block;
    var k := Block(data, n);
    WordAt(data, n);
    BodySteps(data, n, seed);
    RotationsAreOr(Mul(k, 0xcc9e2d51));
    RotationsAreOr(Xor32(Body(data, n, seed), MixKey(k)));
  }

  lemma WordAt(data: seq<Byte>, n: nat)
    requires 4 * n + 4 <= |data|
    ensures Block(data, n) == data[4 * n] as int + 0x100 * data[4 * n + 1] as int + 0x1_0000 * data[4 * n + 2] as int
                              + 0x100_0000 * data[4 * n + 3] as int
  {
    var w := data[4 * n..4 * n + 4];
    assert w[0] == data[4 * n] && w[1] == data[4 * n + 1] && w[2] == data[4 * n + 2] && w[3] == data[4 * n + 3];
  }

  lemma BodySteps(data: seq<Byte>, n: nat, seed: Word)
    requires 4 * n + 4 <= |data|
    ensures Body(data, 0, seed) == seed && Body(data, n + 1, seed) == Round(Body(data, n, seed), Block(data, n))
  {
    hide Round, Block;
  }

  /** After the last word: up to three bytes, the length, and the finalization. */
  lemma FinishByTheBook(data: seq<Byte>, seed: Word)
    ensures var n := 4 * (|data| / 4); var rest := |data| % 4;
            var k := (if rest > 0 then data[n] as int else 0) + 0x100 * (if rest > 1 then data[n + 1] as int else 0)
                     + 0x1_0000 * (if rest > 2 then data[n + 2] as int else 0);
            var k1 := (k * 0xcc9e2d51) % 0x1_0000_0000;
            var k2 := Or((k1 * 0x8000) % 0x1_0000_0000, Shr(k1, 17));
            var k3 := (k2 * 0x1b873593) % 0x1_0000_0000;
            var h1 := Xor(Xor(Body(data, |data| / 4, seed), k3), |data| % 0x1_0000_0000);
            var h2 := (Xor(h1, Shr(h1, 16)) * 0x85ebca6b) % 0x1_0000_0000;
            var h3 := (Xor(h2, Shr(h2, 13)) * 0xc2b2ae35) % 0x1_0000_0000;
            Murmur3(data, seed) == Xor(h3, Shr(h3, 16))
  {
    hide Or, Shr, Xor, RotL15, Body;
    var t := Tail(data);
    RotationsAreOr(Mul(TailWord(t), 0xcc9e2d51));
  }

  // ----- exclusive or of given numbers

  type Hex = d: int | 0 <= d < 16

  lemma NextBit(x: nat, y: nat, r: nat, a: nat, b: nat, c: nat)
    requires Xor(x, y) == r
    requires a < 2 && b < 2 && c < 2 && (a + b + c) % 2 == 0
    ensures Xor(2 * x + a, 2 * y + b) == 2 * r + c
  {
    hide Xor;
    XorDigits(2 * x + a, 2 * y + b);
    LowestDigit(a, x);
    LowestDigit(b, y);
  }

  /** The binary digit with the value p. */
  function Place(a: Hex, p: nat): nat
    requires p > 0
  {
    a / p % 2
  }

  lemma BitsOfHex(a: Hex)
    ensures a == 8 * Place(a, 8) + 4 * Place(a, 4) + 2 * Place(a, 2) + Place(a, 1)
    ensures Place(a, 8) < 2 && Place(a, 4) < 2 && Place(a, 2) < 2 && Place(a, 1) < 2
  {
  }

  /** In none of the four binary places do the three digits hold an odd number of ones. */
  predicate NoneOdd(a: Hex, b: Hex, c: Hex) {
    && (Place(a, 1) + Place(b, 1) + Place(c, 1)) % 2 == 0 && (Place(a, 2) + Place(b, 2) + Place(c, 2)) % 2 == 0
    && (Place(a, 4) + Place(b, 4) + Place(c, 4)) % 2 == 0 && (Place(a, 8) + Place(b, 8) + Place(c, 8)) % 2 == 0
  }

  /** One hexadecimal digit more. */
  lemma NextDigit(x: nat, y: nat, r: nat, a: Hex, b: Hex, c: Hex)
    requires Xor(x, y) == r
    requires NoneOdd(a, b, c)
    ensures Xor(16 * x + a, 16 * y + b) == 16 * r + c
  {
    hide Xor, Place;
    BitsOfHex(a);
    BitsOfHex(b);
    BitsOfHex(c);
    FourBits(x, y, r, Place(a, 8), Place(a, 4), Place(a, 2), Place(a, 1), Place(b, 8), Place(b, 4), Place(b, 2), Place(b, 1),
             Place(c, 8), Place(c, 4), Place(c, 2), Place(c, 1));
  }

  lemma {:induction false} FourBits(x: nat, y: nat, r: nat, a3: nat, a2: nat, a1: nat, a0: nat,
                                    b3: nat, b2: nat, b1: nat, b0: nat, c3: nat, c2: nat, c1: nat, c0: nat)
    requires Xor(x, y) == r
    requires a3 < 2 && b3 < 2 && c3 < 2 && (a3 + b3 + c3) % 2 == 0
    requires a2 < 2 && b2 < 2 && c2 < 2 && (a2 + b2 + c2) % 2 == 0
    requires a1 < 2 && b1 < 2 && c1 < 2 && (a1 + b1 + c1) % 2 == 0
    requires a0 < 2 && b0 < 2 && c0 < 2 && (a0 + b0 + c0) % 2 == 0
    ensures Xor(16 * x + 8 * a3 + 4 * a2 + 2 * a1 + a0, 16 * y + 8 * b3 + 4 * b2 + 2 * b1 + b0) ==
            16 * r + 8 * c3 + 4 * c2 + 2 * c1 + c0
  {
    hide Xor;
    NextBit(x, y, r, a3, b3, c3);
    NextBit(2 * x + a3, 2 * y + b3, 2 * r + c3, a2, b2, c2);
    NextBit(4 * x + 2 * a3 + a2, 4 * y + 2 * b3 + b2, 4 * r + 2 * c3 + c2, a1, b1, c1);
    NextBit(8 * x + 4 * a3 + 2 * a2 + a1, 8 * y + 4 * b3 + 2 * b2 + b1, 8 * r + 4 * c3 + 2 * c2 + c1, a0, b0, c0);
  }

  lemma PlacesOf(a: Hex)
    ensures Place(a, 1) == a % 2 && Place(a, 2) == a / 2 % 2 && Place(a, 4) == a / 4 % 2 && Place(a, 8) == a / 8
  {
  }

  lemma SameParity(a: nat, b: nat, c: nat, a': nat, b': nat, c': nat)
    requires a == a' && b == b' && c == c' && (a + b + c) % 2 == 0
    ensures (a' + b' + c') % 2 == 0
  {
  }

  lemma NoOddPlace(a: Hex, b: Hex, c: Hex)
    requires (a % 2 + b % 2 + c % 2) % 2 == 0 && (a / 2 % 2 + b / 2 % 2 + c / 2 % 2) % 2 == 0
    requires (a / 4 % 2 + b / 4 % 2 + c / 4 % 2) % 2 == 0 && (a / 8 + b / 8 + c / 8) % 2 == 0
    ensures NoneOdd(a, b, c)
  {
    hide Place;
    PlacesOf(a);
    PlacesOf(b);
    PlacesOf(c);
    SameParity(a % 2, b % 2, c % 2, Place(a, 1), Place(b, 1), Place(c, 1));
    SameParity(a / 2 % 2, b / 2 % 2, c / 2 % 2, Place(a, 2), Place(b, 2), Place(c, 2));
    SameParity(a / 4 % 2, b / 4 % 2, c / 4 % 2, Place(a, 4), Place(b, 4), Place(c, 4));
    SameParity(a / 8, b / 8, c / 8, Place(a, 8), Place(b, 8), Place(c, 8));
  }

  /** Exclusive or of given numbers: four hexadecimal digits more, highest first. */
  lemma {:induction false} XorHex(x: nat, y: nat, r: nat, x': nat, y': nat, r': nat, a3: Hex, a2: Hex, a1: Hex, a0: Hex,
                                  b3: Hex, b2: Hex, b1: Hex, b0: Hex, r3: Hex, r2: Hex, r1: Hex, r0: Hex)
    requires Xor(x, y) == r
    requires (a3 % 2 + b3 % 2 + r3 % 2) % 2 == 0 && (a3 / 2 % 2 + b3 / 2 % 2 + r3 / 2 % 2) % 2 == 0
    requires (a3 / 4 % 2 + b3 / 4 % 2 + r3 / 4 % 2) % 2 == 0 && (a3 / 8 + b3 / 8 + r3 / 8) % 2 == 0
    requires (a2 % 2 + b2 % 2 + r2 % 2) % 2 == 0 && (a2 / 2 % 2 + b2 / 2 % 2 + r2 / 2 % 2) % 2 == 0
    requires (a2 / 4 % 2 + b2 / 4 % 2 + r2 / 4 % 2) % 2 == 0 && (a2 / 8 + b2 / 8 + r2 / 8) % 2 == 0
    requires (a1 % 2 + b1 % 2 + r1 % 2) % 2 == 0 && (a1 / 2 % 2 + b1 / 2 % 2 + r1 / 2 % 2) % 2 == 0
    requires (a1 / 4 % 2 + b1 / 4 % 2 + r1 / 4 % 2) % 2 == 0 && (a1 / 8 + b1 / 8 + r1 / 8) % 2 == 0
    requires (a0 % 2 + b0 % 2 + r0 % 2) % 2 == 0 && (a0 / 2 % 2 + b0 / 2 % 2 + r0 / 2 % 2) % 2 == 0
    requires (a0 / 4 % 2 + b0 / 4 % 2 + r0 / 4 % 2) % 2 == 0 && (a0 / 8 + b0 / 8 + r0 / 8) % 2 == 0
    requires x' == 0x10000 * x + 0x1000 * a3 + 0x100 * a2 + 0x10 * a1 + a0
    requires y' == 0x10000 * y + 0x1000 * b3 + 0x100 * b2 + 0x10 * b1 + b0
    requires r' == 0x10000 * r + 0x1000 * r3 + 0x100 * r2 + 0x10 * r1 + r0
    ensures Xor(x', y') == r'
  {
    hide Xor, NoneOdd;
    NoOddPlace(a3, b3, r3);
    NoOddPlace(a2, b2, r2);
    NoOddPlace(a1, b1, r1);
    NoOddPlace(a0, b0, r0);
    FourDigits(x, y, r, a3, a2, a1, a0, b3, b2, b1, b0, r3, r2, r1, r0);
  }

  lemma {:induction false} FourDigits(x: nat, y: nat, r: nat, a3: Hex, a2: Hex, a1: Hex, a0: Hex,
                                      b3: Hex, b2: Hex, b1: Hex, b0: Hex, r3: Hex, r2: Hex, r1: Hex, r0: Hex)
    requires Xor(x, y) == r
    requires NoneOdd(a3, b3, r3) && NoneOdd(a2, b2, r2)
    requires NoneOdd(a1, b1, r1) && NoneOdd(a0, b0, r0)
    ensures Xor(0x10000 * x + 0x1000 * a3 + 0x100 * a2 + 0x10 * a1 + a0, 0x10000 * y + 0x1000 * b3 + 0x100 * b2 + 0x10 * b1 + b0) ==
            0x10000 * r + 0x1000 * r3 + 0x100 * r2 + 0x10 * r1 + r0
  {
    hide Xor, NoneOdd;
    NextDigit(x, y, r, a3, b3, r3);
    NextDigit(16 * x + a3, 16 * y + b3, 16 * r + r3, a2, b2, r2);
    NextDigit(0x100 * x + 16 * a3 + a2, 0x100 * y + 16 * b3 + b2, 0x100 * r + 16 * r3 + r2, a1, b1, r1);
    NextDigit(0x1000 * x + 0x100 * a3 + 16 * a2 + a1, 0x1000 * y + 0x100 * b3 + 16 * b2 + b1,
              0x1000 * r + 0x100 * r3 + 16 * r2 + r1, a0, b0, r0);
  }

  lemma ZeroXor(x: nat)
    ensures Xor(0, x) == x
  {
    XorCommutes(0, x);
    XorWithZero(x);
  }

  // ----- the steps on given numbers

  /** A product of words is a multiple of 2^32 and the rest. */
  lemma Rest(x: nat, q: nat, r: Word)
    requires x == 0x1_0000_0000 * q + r
    ensures x % 0x1_0000_0000 == r
  {
  }

  lemma Rotated15(hi: nat, lo: nat)
    requires hi < 0x8000 && lo < 0x2_0000
    ensures RotL15(0x2_0000 * hi + lo) == 0x8000 * lo + hi
  {
  }

  lemma Rotated13(hi: nat, lo: nat)
    requires hi < 0x2000 && lo < 0x8_0000
    ensures RotL13(0x8_0000 * hi + lo) == 0x2000 * lo + hi
  {
  }

  /** A key word mixed, with the parts its product is rotated by. */
  lemma MixIs(k: Word, p: nat, hi: nat, lo: nat, q: nat, k3: Word)
    requires hi < 0x8000 && lo < 0x2_0000
    requires k * 0xcc9e2d51 == 0x1_0000_0000 * p + 0x2_0000 * hi + lo
    requires (0x8000 * lo + hi) * 0x1b873593 == 0x1_0000_0000 * q + k3
    ensures MixKey(k) == k3
  {
    hide RotL15;
    Rest(k * 0xcc9e2d51, p, 0x2_0000 * hi + lo);
    Rotated15(hi, lo);
    Rest((0x8000 * lo + hi) * 0x1b873593, q, k3);
  }

  lemma RoundIs(h: Word, k: Word, k3: Word, x: Word, hi: nat, lo: nat, q: nat, z: Word)
    requires MixKey(k) == k3 && Xor(h, k3) == x
    requires hi < 0x2000 && lo < 0x8_0000 && x == 0x8_0000 * hi + lo
    requires (0x2000 * lo + hi) * 5 + 0xe6546b64 == 0x1_0000_0000 * q + z
    ensures Round(h, k) == z
  {
    hide Xor, MixKey, RotL13;
    Rotated13(hi, lo);
    Rest((0x2000 * lo + hi) * 5 + 0xe6546b64, q, z);
  }

  lemma Shifted16(x: Word, hi: nat, lo: nat)
    requires lo < 0x1_0000 && x == 0x1_0000 * hi + lo
    ensures Shr(x, 16) == hi
  {
    hide Shr, Pow2;
    Pow2Of32();
    var low := ShrSplits(x, 16);
  }

  lemma Shifted13(x: Word, hi: nat, lo: nat)
    requires lo < 0x2000 && x == 0x2000 * hi + lo
    ensures Shr(x, 13) == hi
  {
    hide Shr, Pow2;
    Pow2Of32();
    var low := ShrSplits(x, 13);
  }

  /** The finalization, with the parts its words are shifted by. */
  lemma {:induction false} AvalancheIs(h: Word, hh: nat, hl: nat, a: Word, p: nat, b: Word, bh: nat, bl: nat,
                                       c: Word, q: nat, d: Word, dh: nat, dl: nat, r: Word)
    requires hl < 0x1_0000 && h == 0x1_0000 * hh + hl && Xor(h, hh) == a && a * 0x85ebca6b == 0x1_0000_0000 * p + b
    requires bl < 0x2000 && b == 0x2000 * bh + bl && Xor(b, bh) == c && c * 0xc2b2ae35 == 0x1_0000_0000 * q + d
    requires dl < 0x1_0000 && d == 0x1_0000 * dh + dl && Xor(d, dh) == r
    ensures Avalanche(h) == r
  {
    hide Xor, Shr;
    Shifted16(h, hh, hl);
    Rest(a * 0x85ebca6b, p, b);
    Shifted13(b, bh, bl);
    Rest(c * 0xc2b2ae35, q, d);
    Shifted16(d, dh, dl);
  }

  lemma ShortData(data: seq<Byte>, seed: Word)
    requires |data| < 4
    ensures Body(data, |data| / 4, seed) == seed && Tail(data) == data && |data| % 0x1_0000_0000 == |data|
  {
    assert |data| / 4 == 0;
  }

  lemma WithoutWords(data: seq<Byte>, seed: Word)
    requires |data| < 4
    ensures Murmur3(data, seed) == Avalanche(Xor32(Xor32(seed, MixKey(TailWord(data))), |data|))
  {
    hide Xor32, MixKey, Avalanche, TailWord, Body, Tail;
    ShortData(data, seed);
  }

  lemma NoWord(data: seq<Byte>, seed: Word)
    requires |data| < 4
    ensures var k := (if |data| > 0 then data[0] as int else 0) + 0x100 * (if |data| > 1 then data[1] as int else 0)
                     + 0x1_0000 * (if |data| > 2 then data[2] as int else 0);
            Murmur3(data, seed) == Avalanche(Xor32(Xor32(seed, MixKey(k)), |data|))
  {
    hide Xor32, MixKey, Avalanche, Murmur3;
    WithoutWords(data, seed);
  }

  lemma OneWord(data: seq<Byte>, seed: Word)
    requires |data| == 4
    ensures var k := data[0] as int + 0x100 * data[1] as int + 0x1_0000 * data[2] as int + 0x100_0000 * data[3] as int;
            Murmur3(data, seed) == Avalanche(Xor32(Xor32(Round(seed, k), MixKey(0)), 4))
  {
    hide Xor, MixKey, Avalanche, Round;
    assert Tail(data) == [];
    WordAt(data, 0);
    BodySteps(data, 0, seed);
  }

  // ----- values

  lemma NoTail()
    ensures MixKey(0) == 0
  {
    hide MixKey;
    MixIs(0, 0, 0, 0, 0, 0);
  }

  lemma NoBytesXor1()
    ensures Xor(0x85ebca6b, 0x42f5e) == 0x85efe535
  {
    hide Xor;
    XorOfZero();
    XorHex(0, 0, 0, 0x85eb, 0x4, 0x85ef, 8, 5, 14, 11, 0, 0, 0, 4, 8, 5, 14, 15);
    XorHex(0x85eb, 0x4, 0x85ef, 0x85ebca6b, 0x42f5e, 0x85efe535, 12, 10, 6, 11, 2, 15, 5, 14, 14, 5, 3, 5);
  }

  lemma NoBytesXor2()
    ensures Xor(0x514e79f9, 0x514e) == 0x514e28b7
  {
    hide Xor;
    XorOfZero();
    XorHex(0, 0, 0, 0x514e, 0, 0x514e, 5, 1, 4, 14, 0, 0, 0, 0, 5, 1, 4, 14);
    XorHex(0x514e, 0, 0x514e, 0x514e79f9, 0x514e, 0x514e28b7, 7, 9, 15, 9, 5, 1, 4, 14, 2, 8, 11, 7);
  }

  lemma NoBytesEnd()
    ensures Avalanche(0x1) == 0x514e28b7
  {
    hide Xor, Avalanche;
    XorWithZero(0x1);
    NoBytesXor1();
    NoBytesXor2();
    AvalancheIs(0x1, 0, 0x1, 0x1, 0, 0x85ebca6b, 0x42f5e, 0xa6b,
                0x85efe535, 0x65dd47a4, 0x514e79f9, 0x514e, 0x79f9, 0x514e28b7);
  }

  /** Nothing but the finalization. */
  lemma NoBytes()
    ensures Murmur3([], 0x1) == 0x514e28b7
  {
    hide Xor, MixKey, Round, Avalanche, Murmur3;
    NoWord([], 0x1);
    NoTail();
    XorWithZero(0x1);
    XorWithZero(0x1);
    NoBytesEnd();
  }

  lemma ThreeBytesXor1()
    ensures Xor(0x17a6636e, 0x3) == 0x17a6636d
  {
    hide Xor;
    XorOfZero();
    XorHex(0, 0, 0, 0x17a6, 0, 0x17a6, 1, 7, 10, 6, 0, 0, 0, 0, 1, 7, 10, 6);
    XorHex(0x17a6, 0, 0x17a6, 0x17a6636e, 0x3, 0x17a6636d, 6, 3, 6, 14, 0, 0, 0, 3, 6, 3, 6, 13);
  }

  lemma ThreeBytesXor2()
    ensures Xor(0x17a6636d, 0x17a6) == 0x17a674cb
  {
    hide Xor;
    XorOfZero();
    XorHex(0, 0, 0, 0x17a6, 0, 0x17a6, 1, 7, 10, 6, 0, 0, 0, 0, 1, 7, 10, 6);
    XorHex(0x17a6, 0, 0x17a6, 0x17a6636d, 0x17a6, 0x17a674cb, 6, 3, 6, 13, 1, 7, 10, 6, 7, 4, 12, 11);
  }

  lemma ThreeBytesXor3()
    ensures Xor(0xe813fed9, 0x7409f) == 0xe814be46
  {
    hide Xor;
    XorOfZero();
    XorHex(0, 0, 0, 0xe813, 0x7, 0xe814, 14, 8, 1, 3, 0, 0, 0, 7, 14, 8, 1, 4);
    XorHex(0xe813, 0x7, 0xe814, 0xe813fed9, 0x7409f, 0xe814be46, 15, 14, 13, 9, 4, 0, 9, 15, 11, 14, 4, 6);
  }

  lemma ThreeBytesXor4()
    ensures Xor(0x7e4af87e, 0x7e4a) == 0x7e4a8634
  {
    hide Xor;
    XorOfZero();
    XorHex(0, 0, 0, 0x7e4a, 0, 0x7e4a, 7, 14, 4, 10, 0, 0, 0, 0, 7, 14, 4, 10);
    XorHex(0x7e4a, 0, 0x7e4a, 0x7e4af87e, 0x7e4a, 0x7e4a8634, 15, 8, 7, 14, 7, 14, 4, 10, 8, 6, 3, 4);
  }

  lemma ThreeBytesTail()
    ensures MixKey(0x654321) == 0x17a6636e
  {
    hide MixKey;
    MixIs(0x654321, 0x50f00f, 0x539a, 0x10a71, 0xe535b2a, 0x17a6636e);
  }

  lemma ThreeBytesEnd()
    ensures Avalanche(0x17a6636d) == 0x7e4a8634
  {
    hide Xor, Avalanche;
    ThreeBytesXor2();
    ThreeBytesXor3();
    ThreeBytesXor4();
    AvalancheIs(0x17a6636d, 0x17a6, 0x636d, 0x17a674cb, 0xc5f432d, 0xe813fed9, 0x7409f, 0x1ed9,
                0xe814be46, 0xb081b48b, 0x7e4af87e, 0x7e4a, 0xf87e, 0x7e4a8634);
  }

  /** A tail of three bytes. */
  lemma ThreeBytes()
    ensures Murmur3([0x21, 0x43, 0x65], 0) == 0x7e4a8634
  {
    hide Xor, MixKey, Round, Avalanche, Murmur3;
    NoWord([0x21, 0x43, 0x65], 0);
    ThreeBytesTail();
    ZeroXor(0x17a6636e);
    ThreeBytesXor1();
    ThreeBytesEnd();
  }

  // ----- a connection from 10.0.0.1, port 1234, to 192.168.0.2, port 80, by TCP

  lemma SourceXor1()
    ensures Xor(0x9747b28c, 0xaef1c922) == 0x39b67bae
  {
    hide Xor;
    XorOfZero();
    XorHex(0, 0, 0, 0x9747, 0xaef1, 0x39b6, 9, 7, 4, 7, 10, 14, 15, 1, 3, 9, 11, 6);
    XorHex(0x9747, 0xaef1, 0x39b6, 0x9747b28c, 0xaef1c922, 0x39b67bae, 11, 2, 8, 12, 12, 9, 2, 2, 7, 11, 10, 14);
  }

  lemma SourceXor2()
    ensures Xor(0xf3a14f72, 0x4) == 0xf3a14f76
  {
    hide Xor;
    XorOfZero();
    XorHex(0, 0, 0, 0xf3a1, 0, 0xf3a1, 15, 3, 10, 1, 0, 0, 0, 0, 15, 3, 10, 1);
    XorHex(0xf3a1, 0, 0xf3a1, 0xf3a14f72, 0x4, 0xf3a14f76, 4, 15, 7, 2, 0, 0, 0, 4, 4, 15, 7, 6);
  }

  lemma SourceXor3()
    ensures Xor(0xf3a14f76, 0xf3a1) == 0xf3a1bcd7
  {
    hide Xor;
    XorOfZero();
    XorHex(0, 0, 0, 0xf3a1, 0, 0xf3a1, 15, 3, 10, 1, 0, 0, 0, 0, 15, 3, 10, 1);
    XorHex(0xf3a1, 0, 0xf3a1, 0xf3a14f76, 0xf3a1, 0xf3a1bcd7, 4, 15, 7, 6, 15, 3, 10, 1, 11, 12, 13, 7);
  }

  lemma SourceXor4()
    ensures Xor(0x7ff893dd, 0x3ffc4) == 0x7ffb6c19
  {
    hide Xor;
    XorOfZero();
    XorHex(0, 0, 0, 0x7ff8, 0x3, 0x7ffb, 7, 15, 15, 8, 0, 0, 0, 3, 7, 15, 15, 11);
    XorHex(0x7ff8, 0x3, 0x7ffb, 0x7ff893dd, 0x3ffc4, 0x7ffb6c19, 9, 3, 13, 13, 15, 15, 12, 4, 6, 12, 1, 9);
  }

  lemma SourceXor5()
    ensures Xor(0x7de85f2d, 0x7de8) == 0x7de822c5
  {
    hide Xor;
    XorOfZero();
    XorHex(0, 0, 0, 0x7de8, 0, 0x7de8, 7, 13, 14, 8, 0, 0, 0, 0, 7, 13, 14, 8);
    XorHex(0x7de8, 0, 0x7de8, 0x7de85f2d, 0x7de8, 0x7de822c5, 5, 15, 2, 13, 7, 13, 14, 8, 2, 2, 12, 5);
  }

  lemma SourceWord()
    ensures Round(0x9747b28c, 0x100000a) == 0xf3a14f72
  {
    hide Xor, MixKey, Round;
    SourceXor1();
    MixIs(0x100000a, 0xcc9e35, 0x2796, 0x1c52a, 0x185d673f, 0xaef1c922);
    RoundIs(0x9747b28c, 0x100000a, 0xaef1c922, 0x39b67bae, 0x736, 0x67bae, 0x4, 0xf3a14f72);
  }

  lemma SourceEnd()
    ensures Avalanche(0xf3a14f76) == 0x7de822c5
  {
    hide Xor, Avalanche;
    SourceXor3();
    SourceXor4();
    SourceXor5();
    AvalancheIs(0xf3a14f76, 0xf3a1, 0x4f76, 0xf3a1bcd7, 0x7f736d37, 0x7ff893dd, 0x3ffc4, 0x13dd,
                0x7ffb6c19, 0x6155dbd3, 0x7de85f2d, 0x7de8, 0x5f2d, 0x7de822c5);
  }

  lemma Source()
    ensures Murmur3([0xa, 0, 0, 0x1], 0x9747b28c) == 0x7de822c5
  {
    hide Xor, MixKey, Round, Avalanche, Murmur3;
    OneWord([0xa, 0, 0, 0x1], 0x9747b28c);
    SourceWord();
    NoTail();
    XorWithZero(0xf3a14f72);
    SourceXor2();
    SourceEnd();
  }

  lemma DestinationXor1()
    ensures Xor(0x7de822c5, 0xb803defd) == 0xc5ebfc38
  {
    hide Xor;
    XorOfZero();
    XorHex(0, 0, 0, 0x7de8, 0xb803, 0xc5eb, 7, 13, 14, 8, 11, 8, 0, 3, 12, 5, 14, 11);
    XorHex(0x7de8, 0xb803, 0xc5eb, 0x7de822c5, 0xb803defd, 0xc5ebfc38, 2, 2, 12, 5, 13, 14, 15, 13, 15, 12, 3, 8);
  }

  lemma DestinationXor2()
    ensures Xor(0x63f7e715, 0x4) == 0x63f7e711
  {
    hide Xor;
    XorOfZero();
    XorHex(0, 0, 0, 0x63f7, 0, 0x63f7, 6, 3, 15, 7, 0, 0, 0, 0, 6, 3, 15, 7);
    XorHex(0x63f7, 0, 0x63f7, 0x63f7e715, 0x4, 0x63f7e711, 14, 7, 1, 5, 0, 0, 0, 4, 14, 7, 1, 1);
  }

  lemma DestinationXor3()
    ensures Xor(0x63f7e711, 0x63f7) == 0x63f784e6
  {
    hide Xor;
    XorOfZero();
    XorHex(0, 0, 0, 0x63f7, 0, 0x63f7, 6, 3, 15, 7, 0, 0, 0, 0, 6, 3, 15, 7);
    XorHex(0x63f7, 0, 0x63f7, 0x63f7e711, 0x63f7, 0x63f784e6, 14, 7, 1, 1, 6, 3, 15, 7, 8, 4, 14, 6);
  }

  lemma DestinationXor4()
    ensures Xor(0x94740822, 0x4a3a0) == 0x9470ab82
  {
    hide Xor;
    XorOfZero();
    XorHex(0, 0, 0, 0x9474, 0x4, 0x9470, 9, 4, 7, 4, 0, 0, 0, 4, 9, 4, 7, 0);
    XorHex(0x9474, 0x4, 0x9470, 0x94740822, 0x4a3a0, 0x9470ab82, 0, 8, 2, 2, 10, 3, 10, 0, 10, 11, 8, 2);
  }

  lemma DestinationXor5()
    ensures Xor(0x1449ddea, 0x1449) == 0x1449c9a3
  {
    hide Xor;
    XorOfZero();
    XorHex(0, 0, 0, 0x1449, 0, 0x1449, 1, 4, 4, 9, 0, 0, 0, 0, 1, 4, 4, 9);
    XorHex(0x1449, 0, 0x1449, 0x1449ddea, 0x1449, 0x1449c9a3, 13, 13, 14, 10, 1, 4, 4, 9, 12, 9, 10, 3);
  }

  lemma DestinationWord()
    ensures Round(0x7de822c5, 0x200a8c0) == 0x63f7e715
  {
    hide Xor, MixKey, Round;
    DestinationXor1();
    MixIs(0x200a8c0, 0x199c33b, 0x732f, 0x124c0, 0xfbd7ba4, 0xb803defd);
    RoundIs(0x7de822c5, 0x200a8c0, 0xb803defd, 0xc5ebfc38, 0x18bd, 0x3fc38, 0x3, 0x63f7e715);
  }

  lemma DestinationEnd()
    ensures Avalanche(0x63f7e711) == 0x1449c9a3
  {
    hide Xor, Avalanche;
    DestinationXor3();
    DestinationXor4();
    DestinationXor5();
    AvalancheIs(0x63f7e711, 0x63f7, 0xe711, 0x63f784e6, 0x344bab4d, 0x94740822, 0x4a3a0, 0x822,
                0x9470ab82, 0x70e4fd53, 0x1449ddea, 0x1449, 0xddea, 0x1449c9a3);
  }

  lemma Destination()
    ensures Murmur3([0xc0, 0xa8, 0, 0x2], 0x7de822c5) == 0x1449c9a3
  {
    hide Xor, MixKey, Round, Avalanche, Murmur3;
    OneWord([0xc0, 0xa8, 0, 0x2], 0x7de822c5);
    DestinationWord();
    NoTail();
    XorWithZero(0x63f7e715);
    DestinationXor2();
    DestinationEnd();
  }

  lemma SourcePortXor1()
    ensures Xor(0x1449c9a3, 0x1578e3e1) == 0x1312a42
  {
    hide Xor;
    XorOfZero();
    XorHex(0, 0, 0, 0x1449, 0x1578, 0x131, 1, 4, 4, 9, 1, 5, 7, 8, 0, 1, 3, 1);
    XorHex(0x1449, 0x1578, 0x131, 0x1449c9a3, 0x1578e3e1, 0x1312a42, 12, 9, 10, 3, 14, 3, 14, 1, 2, 10, 4, 2);
  }

  lemma SourcePortXor2()
    ensures Xor(0x1312a42, 0x2) == 0x1312a40
  {
    hide Xor;
    XorOfZero();
    XorHex(0, 0, 0, 0x131, 0, 0x131, 0, 1, 3, 1, 0, 0, 0, 0, 0, 1, 3, 1);
    XorHex(0x131, 0, 0x131, 0x1312a42, 0x2, 0x1312a40, 2, 10, 4, 2, 0, 0, 0, 2, 2, 10, 4, 0);
  }

  lemma SourcePortXor3()
    ensures Xor(0x1312a40, 0x131) == 0x1312b71
  {
    hide Xor;
    XorOfZero();
    XorHex(0, 0, 0, 0x131, 0, 0x131, 0, 1, 3, 1, 0, 0, 0, 0, 0, 1, 3, 1);
    XorHex(0x131, 0, 0x131, 0x1312a40, 0x131, 0x1312b71, 2, 10, 4, 0, 0, 1, 3, 1, 2, 11, 7, 1);
  }

  lemma SourcePortXor4()
    ensures Xor(0xe18f523b, 0x70c7a) == 0xe1885e41
  {
    hide Xor;
    XorOfZero();
    XorHex(0, 0, 0, 0xe18f, 0x7, 0xe188, 14, 1, 8, 15, 0, 0, 0, 7, 14, 1, 8, 8);
    XorHex(0xe18f, 0x7, 0xe188, 0xe18f523b, 0x70c7a, 0xe1885e41, 5, 2, 3, 11, 0, 12, 7, 10, 5, 14, 4, 1);
  }

  lemma SourcePortXor5()
    ensures Xor(0x2c7db175, 0x2c7d) == 0x2c7d9d08
  {
    hide Xor;
    XorOfZero();
    XorHex(0, 0, 0, 0x2c7d, 0, 0x2c7d, 2, 12, 7, 13, 0, 0, 0, 0, 2, 12, 7, 13);
    XorHex(0x2c7d, 0, 0x2c7d, 0x2c7db175, 0x2c7d, 0x2c7d9d08, 11, 1, 7, 5, 2, 12, 7, 13, 9, 13, 0, 8);
  }

  lemma SourcePortTail()
    ensures MixKey(0x4d2) == 0x1578e3e1
  {
    hide MixKey;
    MixIs(0x4d2, 0x3da, 0x293b, 0x7072, 0x60bb942, 0x1578e3e1);
  }

  lemma SourcePortEnd()
    ensures Avalanche(0x1312a40) == 0x2c7d9d08
  {
    hide Xor, Avalanche;
    SourcePortXor3();
    SourcePortXor4();
    SourcePortXor5();
    AvalancheIs(0x1312a40, 0x131, 0x2a40, 0x1312b71, 0x9fa4a5, 0xe18f523b, 0x70c7a, 0x123b,
                0xe1885e41, 0xab86c1b8, 0x2c7db175, 0x2c7d, 0xb175, 0x2c7d9d08);
  }

  lemma SourcePort()
    ensures Murmur3([0xd2, 0x4], 0x1449c9a3) == 0x2c7d9d08
  {
    hide Xor, MixKey, Round, Avalanche, Murmur3;
    NoWord([0xd2, 0x4], 0x1449c9a3);
    SourcePortTail();
    SourcePortXor1();
    SourcePortXor2();
    SourcePortEnd();
  }

  lemma DestinationPortXor1()
    ensures Xor(0x2c7d9d08, 0xb33c3415) == 0x9f41a91d
  {
    hide Xor;
    XorOfZero();
    XorHex(0, 0, 0, 0x2c7d, 0xb33c, 0x9f41, 2, 12, 7, 13, 11, 3, 3, 12, 9, 15, 4, 1);
    XorHex(0x2c7d, 0xb33c, 0x9f41, 0x2c7d9d08, 0xb33c3415, 0x9f41a91d, 9, 13, 0, 8, 3, 4, 1, 5, 10, 9, 1, 13);
  }

  lemma DestinationPortXor2()
    ensures Xor(0x9f41a91d, 0x2) == 0x9f41a91f
  {
    hide Xor;
    XorOfZero();
    XorHex(0, 0, 0, 0x9f41, 0, 0x9f41, 9, 15, 4, 1, 0, 0, 0, 0, 9, 15, 4, 1);
    XorHex(0x9f41, 0, 0x9f41, 0x9f41a91d, 0x2, 0x9f41a91f, 10, 9, 1, 13, 0, 0, 0, 2, 10, 9, 1, 15);
  }

  lemma DestinationPortXor3()
    ensures Xor(0x9f41a91f, 0x9f41) == 0x9f41365e
  {
    hide Xor;
    XorOfZero();
    XorHex(0, 0, 0, 0x9f41, 0, 0x9f41, 9, 15, 4, 1, 0, 0, 0, 0, 9, 15, 4, 1);
    XorHex(0x9f41, 0, 0x9f41, 0x9f41a91f, 0x9f41, 0x9f41365e, 10, 9, 1, 15, 9, 15, 4, 1, 3, 6, 5, 14);
  }

  lemma DestinationPortXor4()
    ensures Xor(0xc371e54a, 0x61b8f) == 0xc377fec5
  {
    hide Xor;
    XorOfZero();
    XorHex(0, 0, 0, 0xc371, 0x6, 0xc377, 12, 3, 7, 1, 0, 0, 0, 6, 12, 3, 7, 7);
    XorHex(0xc371, 0x6, 0xc377, 0xc371e54a, 0x61b8f, 0xc377fec5, 14, 5, 4, 10, 1, 11, 8, 15, 15, 14, 12, 5);
  }

  lemma DestinationPortXor5()
    ensures Xor(0x75fba4c9, 0x75fb) == 0x75fbd132
  {
    hide Xor;
    XorOfZero();
    XorHex(0, 0, 0, 0x75fb, 0, 0x75fb, 7, 5, 15, 11, 0, 0, 0, 0, 7, 5, 15, 11);
    XorHex(0x75fb, 0, 0x75fb, 0x75fba4c9, 0x75fb, 0x75fbd132, 10, 4, 12, 9, 7, 5, 15, 11, 13, 1, 3, 2);
  }

  lemma DestinationPortTail()
    ensures MixKey(0x50) == 0xb33c3415
  {
    hide MixKey;
    MixIs(0x50, 0x3f, 0x78b7, 0x2950, 0x238ade5, 0xb33c3415);
  }

  lemma DestinationPortEnd()
    ensures Avalanche(0x9f41a91f) == 0x75fbd132
  {
    hide Xor, Avalanche;
    DestinationPortXor3();
    DestinationPortXor4();
    DestinationPortXor5();
    AvalancheIs(0x9f41a91f, 0x9f41, 0xa91f, 0x9f41365e, 0x534f9007, 0xc371e54a, 0x61b8f, 0x54a,
                0xc377fec5, 0x94a95d84, 0x75fba4c9, 0x75fb, 0xa4c9, 0x75fbd132);
  }

  lemma DestinationPort()
    ensures Murmur3([0x50, 0], 0x2c7d9d08) == 0x75fbd132
  {
    hide Xor, MixKey, Round, Avalanche, Murmur3;
    NoWord([0x50, 0], 0x2c7d9d08);
    DestinationPortTail();
    DestinationPortXor1();
    DestinationPortXor2();
    DestinationPortEnd();
  }

  lemma ProtocolXor1()
    ensures Xor(0x75fbd132, 0x28cf9e2e) == 0x5d344f1c
  {
    hide Xor;
    XorOfZero();
    XorHex(0, 0, 0, 0x75fb, 0x28cf, 0x5d34, 7, 5, 15, 11, 2, 8, 12, 15, 5, 13, 3, 4);
    XorHex(0x75fb, 0x28cf, 0x5d34, 0x75fbd132, 0x28cf9e2e, 0x5d344f1c, 13, 1, 3, 2, 9, 14, 2, 14, 4, 15, 1, 12);
  }

  lemma ProtocolXor2()
    ensures Xor(0x5d344f1c, 0x1) == 0x5d344f1d
  {
    hide Xor;
    XorOfZero();
    XorHex(0, 0, 0, 0x5d34, 0, 0x5d34, 5, 13, 3, 4, 0, 0, 0, 0, 5, 13, 3, 4);
    XorHex(0x5d34, 0, 0x5d34, 0x5d344f1c, 0x1, 0x5d344f1d, 4, 15, 1, 12, 0, 0, 0, 1, 4, 15, 1, 13);
  }

  lemma ProtocolXor3()
    ensures Xor(0x5d344f1d, 0x5d34) == 0x5d341229
  {
    hide Xor;
    XorOfZero();
    XorHex(0, 0, 0, 0x5d34, 0, 0x5d34, 5, 13, 3, 4, 0, 0, 0, 0, 5, 13, 3, 4);
    XorHex(0x5d34, 0, 0x5d34, 0x5d344f1d, 0x5d34, 0x5d341229, 4, 15, 1, 13, 5, 13, 3, 4, 1, 2, 2, 9);
  }

  lemma ProtocolXor4()
    ensures Xor(0x3baf123, 0x1dd7) == 0x3baecf4
  {
    hide Xor;
    XorOfZero();
    XorHex(0, 0, 0, 0x3ba, 0, 0x3ba, 0, 3, 11, 10, 0, 0, 0, 0, 0, 3, 11, 10);
    XorHex(0x3ba, 0, 0x3ba, 0x3baf123, 0x1dd7, 0x3baecf4, 15, 1, 2, 3, 1, 13, 13, 7, 14, 12, 15, 4);
  }

  lemma ProtocolXor5()
    ensures Xor(0x7c68e684, 0x7c68) == 0x7c689aec
  {
    hide Xor;
    XorOfZero();
    XorHex(0, 0, 0, 0x7c68, 0, 0x7c68, 7, 12, 6, 8, 0, 0, 0, 0, 7, 12, 6, 8);
    XorHex(0x7c68, 0, 0x7c68, 0x7c68e684, 0x7c68, 0x7c689aec, 14, 6, 8, 4, 7, 12, 6, 8, 9, 10, 14, 12);
  }

  lemma ProtocolTail()
    ensures MixKey(0x6) == 0x28cf9e2e
  {
    hide MixKey;
    MixIs(0x6, 0x4, 0x65da, 0x10fe6, 0xe9e798c, 0x28cf9e2e);
  }

  lemma ProtocolEnd()
    ensures Avalanche(0x5d344f1d) == 0x7c689aec
  {
    hide Xor, Avalanche;
    ProtocolXor3();
    ProtocolXor4();
    ProtocolXor5();
    AvalancheIs(0x5d344f1d, 0x5d34, 0x4f1d, 0x5d341229, 0x30c1e5ee, 0x3baf123, 0x1dd7, 0x1123,
                0x3baecf4, 0x2d64213, 0x7c68e684, 0x7c68, 0xe684, 0x7c689aec);
  }

  lemma Protocol()
    ensures Murmur3([0x6], 0x75fbd132) == 0x7c689aec
  {
    hide Xor, MixKey, Round, Avalanche, Murmur3;
    NoWord([0x6], 0x75fbd132);
    ProtocolTail();
    ProtocolXor1();
    ProtocolXor2();
    ProtocolEnd();
  }

  /** The hash of the connection as a whole: its stages follow in this order, from this seed. */
  lemma ConnectionHash(t: ConnTuple)
    requires t.srcIp.Key() == IpKey(AF_INET, [10, 0, 0, 1]) && t.dstIp.Key() == IpKey(AF_INET, [192, 168, 0, 2])
    requires t.srcPort == 1234 && t.dstPort == 80 && t.protocol == 6
    ensures TupleHash(t) == 0x7c689aec
  {
    hide Murmur3;
    Source();
    Destination();
    SourcePort();
    DestinationPort();
    Protocol();
    assert PortBytes(1234) == [0xd2, 0x4] && PortBytes(80) == [0x50, 0];
  }
}
