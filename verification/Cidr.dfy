/** Address blocks (src/storage/ipset.c). A block is a network address and a prefix length. */
module Cidr {
  import opened Addresses
  import opened Bits
  import opened Endian

  // ----- binary digits

  lemma {:induction false} BitOfAnd(x: nat, y: nat, j: nat)
    ensures Bit(And(x, y), j) == Bit(x, j) * Bit(y, j)
    decreases j
  {
    if x == 0 || y == 0 {
      NoBits(j);
    } else if j > 0 {
      assert And(x, y) / 2 == And(x / 2, y / 2);
      BitOfAnd(x / 2, y / 2, j - 1);
    }
  }

  lemma {:induction false} NoBits(j: nat)
    ensures Bit(0, j) == 0
  {
    if j > 0 {
      NoBits(j - 1);
    }
  }

  lemma {:induction false} AndBelow(x: nat, y: nat)
    ensures And(x, y) <= x
  {
    if x != 0 && y != 0 {
      AndBelow(x / 2, y / 2);
    }
  }

  /** A number below 2^n is known by its n lowest digits. */
  lemma {:induction false} BitsDetermine(x: nat, y: nat, n: nat)
    requires x < Pow2(n) && y < Pow2(n)
    requires forall j :: 0 <= j < n ==> Bit(x, j) == Bit(y, j)
    ensures x == y
  {
    if n > 0 {
      assert Bit(x, 0) == Bit(y, 0);
      forall j | 0 <= j < n - 1
        ensures Bit(x / 2, j) == Bit(y / 2, j)
      {
        assert Bit(x, j + 1) == Bit(y, j + 1);
      }
      BitsDetermine(x / 2, y / 2, n - 1);
    }
  }

  ghost predicate AgreeUnder(mask: nat, x: nat, y: nat, n: nat) {
    forall j {:trigger Bit(mask, j)} {:trigger Bit(x, j)} {:trigger Bit(y, j)} :: 0 <= j < n && Bit(mask, j) == 1 ==> Bit(x, j) == Bit(y, j)
  }

  lemma MaskedDigit(mask: nat, x: nat, y: nat, j: nat)
    ensures Bit(mask, j) == 1 && And(x, mask) == And(y, mask) ==> Bit(x, j) == Bit(y, j)
    ensures (Bit(mask, j) == 1 ==> Bit(x, j) == Bit(y, j)) ==> Bit(And(x, mask), j) == Bit(And(y, mask), j)
  {
    hide Bit, And;
    BitOfAnd(x, mask, j);
    BitOfAnd(y, mask, j);
    BitIsDigit(mask, j);
  }

  /** Two masked numbers are equal exactly when they agree on every digit of the mask. */
  lemma MaskedEqual(mask: nat, x: nat, y: nat, n: nat)
    requires x < Pow2(n) && y < Pow2(n)
    ensures And(x, mask) == And(y, mask) <==> AgreeUnder(mask, x, y, n)
  {
    hide Bit, And, Pow2;
    if AgreeUnder(mask, x, y, n) {
      forall j | 0 <= j < n
        ensures Bit(And(x, mask), j) == Bit(And(y, mask), j)
      {
        MaskedDigit(mask, x, y, j);
      }
      AndBelow(x, mask);
      AndBelow(y, mask);
      BitsDetermine(And(x, mask), And(y, mask), n);
    }
    if And(x, mask) == And(y, mask) {
      forall j | 0 <= j < n && Bit(mask, j) == 1
        ensures Bit(x, j) == Bit(y, j)
      {
        MaskedDigit(mask, x, y, j);
      }
    }
  }

  lemma {:induction false} BitIsDigit(x: nat, j: nat)
    ensures 0 <= Bit(x, j) <= 1
  {
    if j > 0 {
      BitIsDigit(x / 2, j - 1);
    }
  }

  /** The digits of 2^n - 2^k are ones from k to n. */
  lemma {:induction false} BitOfMask(n: nat, k: nat, j: nat)
    requires k <= n && j < n
    ensures Pow2(k) <= Pow2(n)
    ensures Bit(Pow2(n) - Pow2(k), j) == if k <= j then 1 else 0
  {
    if k > 0 {
      if j > 0 {
        BitOfMask(n - 1, k - 1, j - 1);
      } else {
        PowersGrow(n - 1, k - 1);
      }
    } else if j > 0 {
      BitOfMask(n - 1, 0, j - 1);
    }
  }

  lemma {:induction false} PowersGrow(n: nat, k: nat)
    requires k <= n
    ensures Pow2(k) <= Pow2(n)
  {
    if k < n {
      PowersGrow(n - 1, k);
    }
  }

  /** The digits of two numbers written one after the other. */
  lemma {:induction false} BitOfPair(lo: nat, hi: nat, s: nat, j: nat)
    requires lo < Pow2(s)
    ensures Bit(lo + Pow2(s) * hi, j) == if j < s then Bit(lo, j) else Bit(hi, j - s)
  {
    if s > 0 {
      var x := lo + Pow2(s) * hi;
      assert Pow2(s) * hi == 2 * (Pow2(s - 1) * hi);
      assert x / 2 == lo / 2 + Pow2(s - 1) * hi && x % 2 == lo % 2;
      if j > 0 {
        BitOfPair(lo / 2, hi, s - 1, j - 1);
      }
    }
  }

  // ----- the digits of an address

  /** Digit i of an address, in network order: the first is the highest of the first byte. */
  function AddressBit(o: seq<Byte>, i: nat): nat
    requires i < 8 * |o|
  {
    Bit(o[i / 8], 7 - i % 8)
  }

  /** Both addresses start with the same p digits. */
  ghost predicate FirstBitsAgree(a: seq<Byte>, b: seq<Byte>, p: nat)
    requires |a| == |b| && p <= 8 * |a|
  {
    forall i :: 0 <= i < p ==> AddressBit(a, i) == AddressBit(b, i)
  }

  /** The bytes of a word, the highest first. */
  function NetworkBytes(w: Word): (b: seq<Byte>)
    ensures |b| == 4
  {
    var w1 := w / 0x100;
    var w2 := w1 / 0x100;
    [w2 / 0x100, w2 % 0x100, w1 % 0x100, w % 0x100]
  }

  /** htonl on a little-endian machine. */
  function Htonl(w: Word): Word {
    LittleEndian(NetworkBytes(w))
  }

  lemma PairOfBytes(lo: nat, hi: nat, j: nat)
    requires lo < 0x100
    ensures Bit(lo + 0x100 * hi, j) == if j < 8 then Bit(lo, j) else Bit(hi, j - 8)
  {
    assert Pow2(8) == 0x100;
    BitOfPair(lo, hi, 8, j);
  }

  lemma BitOfLittleEndian(b: seq<Byte>, k: nat, r: nat)
    requires |b| == 4 && k < 4 && r < 8
    ensures Bit(LittleEndian(b), 8 * k + r) == Bit(b[k], r)
  {
    FourBytes(b[0], b[1], b[2], b[3], k, r);
  }

  lemma FourBytes(b0: Byte, b1: Byte, b2: Byte, b3: Byte, k: nat, r: nat)
    requires k < 4 && r < 8
    ensures Bit(b0 + 0x100 * b1 + 0x1_0000 * b2 + 0x100_0000 * b3, 8 * k + r) ==
            Bit(if k == 0 then b0 else if k == 1 then b1 else if k == 2 then b2 else b3, r)
  {
    PairOfBytes(b0, b1 + 0x100 * b2 + 0x1_0000 * b3, 8 * k + r);
    if k >= 1 {
      PairOfBytes(b1, b2 + 0x100 * b3, 8 * (k - 1) + r);
    }
    if k >= 2 {
      PairOfBytes(b2, b3, 8 * (k - 2) + r);
    }
  }

  lemma BytesOfWord(w: Word)
    ensures BigEndian(NetworkBytes(w)) == w
  {
  }

  lemma BitOfHtonl(w: Word, k: nat, r: nat)
    requires k < 4 && r < 8
    ensures Bit(Htonl(w), 8 * k + r) == Bit(w, 8 * (3 - k) + r)
  {
    hide Bit, NetworkBytes;
    var b := NetworkBytes(w);
    BytesOfWord(w);
    BitOfLittleEndian(b, k, r);
    FourBytes(b[3], b[2], b[1], b[0], 3 - k, r);
  }

  // ----- the test

  /** ~((1 << k) - 1) in width digits. */
  function HighMask(width: nat, k: nat): nat
    requires k <= width
  {
    PowersGrow(width, k);
    Pow2(width) - 1 - (Pow2(k) - 1)
  }

  function Mask4(prefixLen: Byte): Word
    requires prefixLen <= 32
  {
    Pow2Of32();
    if prefixLen != 0 then Htonl(HighMask(32, 32 - prefixLen)) else 0
  }

  function Width(family: Byte): Byte {
    if family == AF_INET then 32 else 128
  }

  /** ip_in_cidr */
  predicate InCidr(ip: IpAddr, network: IpAddr, prefixLen: Byte)
    requires prefixLen <= Width(network.family)
  {
    ip.family == network.family &&
    if ip.family == AF_INET then
      And(LittleEndian(ip.Octets()), Mask4(prefixLen)) == And(LittleEndian(network.Octets()), Mask4(prefixLen))
    else
      var fullBytes: nat, remainingBits: nat := prefixLen / 8, prefixLen % 8;
      MemCmp(ip.Octets()[..fullBytes], network.Octets()[..fullBytes]) == 0
      && (remainingBits > 0 ==>
            var mask := HighMask(8, 8 - remainingBits);
            And(ip.Octets()[fullBytes], mask) == And(network.Octets()[fullBytes], mask))
  }

  lemma BitOfMask4(prefixLen: Byte, k: nat, r: nat)
    requires prefixLen <= 32 && k < 4 && r < 8
    ensures Bit(Mask4(prefixLen), 8 * k + r) == if 8 * k + (7 - r) < prefixLen then 1 else 0
  {
    hide Bit, Htonl;
    if prefixLen == 0 {
      NoBits(8 * k + r);
    } else {
      Pow2Of32();
      BitOfHtonl(HighMask(32, 32 - prefixLen), k, r);
      BitOfMask(32, 32 - prefixLen, 8 * (3 - k) + r);
    }
  }

  /** What one digit of the words says about one digit of the addresses. */
  lemma DigitOfWords(a: seq<Byte>, b: seq<Byte>, prefixLen: Byte, i: nat, j: nat)
    requires |a| == |b| == 4 && prefixLen <= 32
    requires i < 32 && j == 8 * (i / 8) + (7 - i % 8)
    ensures Bit(LittleEndian(a), j) == AddressBit(a, i) && Bit(LittleEndian(b), j) == AddressBit(b, i)
    ensures Bit(Mask4(prefixLen), j) == if i < prefixLen then 1 else 0
  {
    hide Bit, LittleEndian, Mask4;
    BitOfLittleEndian(a, i / 8, 7 - i % 8);
    BitOfLittleEndian(b, i / 8, 7 - i % 8);
    BitOfMask4(prefixLen, i / 8, 7 - i % 8);
  }

  /** For IPv4 the masked words agree exactly when the first digits do. */
  lemma MaskedWords(a: seq<Byte>, b: seq<Byte>, prefixLen: Byte)
    requires |a| == |b| == 4 && prefixLen <= 32
    ensures And(LittleEndian(a), Mask4(prefixLen)) == And(LittleEndian(b), Mask4(prefixLen)) <==>
            FirstBitsAgree(a, b, prefixLen)
  {
    hide Bit, And, Mask4, LittleEndian, AddressBit;
    var mask, x, y := Mask4(prefixLen), LittleEndian(a), LittleEndian(b);
    Pow2Of32();
    MaskedEqual(mask, x, y, 32);
    if FirstBitsAgree(a, b, prefixLen) {
      forall j | 0 <= j < 32 && Bit(mask, j) == 1
        ensures Bit(x, j) == Bit(y, j)
      {
        var i := 8 * (j / 8) + (7 - j % 8);
        DigitOfWords(a, b, prefixLen, i, j);
      }
    }
    if AgreeUnder(mask, x, y, 32) {
      forall i | 0 <= i < prefixLen
        ensures AddressBit(a, i) == AddressBit(b, i)
      {
        DigitOfWords(a, b, prefixLen, i, 8 * (i / 8) + (7 - i % 8));
      }
    }
  }

  lemma {:induction false} MemCmpZero(s: seq<Byte>, t: seq<Byte>)
    requires |s| == |t|
    ensures MemCmp(s, t) == 0 <==> s == t
  {
    MemCmpIsLex(s, t);
    LexZero(s, t);
  }

  /** Two bytes have the same digits from the given one up. */
  ghost predicate SameUpper(x: Byte, y: Byte, from: nat) {
    forall r {:trigger Bit(x, r)} {:trigger Bit(y, r)} :: from <= r < 8 ==> Bit(x, r) == Bit(y, r)
  }

  lemma BytesByDigits(x: Byte, y: Byte)
    ensures x == y <==> SameUpper(x, y, 0)
  {
    hide Bit;
    assert Pow2(8) == 0x100;
    if SameUpper(x, y, 0) {
      BitsDetermine(x, y, 8);
    }
  }

  /** Agreement on whole bytes is agreement on their digits. */
  lemma WholeBytes(a: seq<Byte>, b: seq<Byte>, n: nat)
    requires |a| == |b| && n <= |a|
    ensures a[..n] == b[..n] <==> FirstBitsAgree(a, b, 8 * n)
  {
    hide Bit;
    if a[..n] == b[..n] {
      forall i | 0 <= i < 8 * n
        ensures AddressBit(a, i) == AddressBit(b, i)
      {
        assert a[..n][i / 8] == b[..n][i / 8];
      }
    }
    if FirstBitsAgree(a, b, 8 * n) {
      forall k | 0 <= k < n
        ensures a[k] == b[k]
      {
        forall r | 0 <= r < 8
          ensures Bit(a[k], r) == Bit(b[k], r)
        {
          assert AddressBit(a, 8 * k + (7 - r)) == AddressBit(b, 8 * k + (7 - r));
        }
        BytesByDigits(a[k], b[k]);
      }
    }
  }

  /** The masked part of the last byte covers its first rest digits. */
  lemma LastByte(x: Byte, y: Byte, rest: nat)
    requires 0 < rest < 8
    ensures And(x, HighMask(8, 8 - rest)) == And(y, HighMask(8, 8 - rest)) <==>
            SameUpper(x, y, 8 - rest)
  {
    hide Bit, And;
    var mask := HighMask(8, 8 - rest);
    assert Pow2(8) == 0x100;
    MaskedEqual(mask, x, y, 8);
    forall r | 0 <= r < 8
      ensures Bit(mask, r) == if 8 - rest <= r then 1 else 0
    {
      BitOfMask(8, 8 - rest, r);
    }
  }

  lemma SplitAtByte(a: seq<Byte>, b: seq<Byte>, n: nat, rest: nat)
    requires |a| == |b| && n < |a| && 0 < rest < 8
    ensures FirstBitsAgree(a, b, 8 * n + rest) <==>
            FirstBitsAgree(a, b, 8 * n) && SameUpper(a[n], b[n], 8 - rest)
  {
    hide Bit;
    if FirstBitsAgree(a, b, 8 * n + rest) {
      forall r | 8 - rest <= r < 8
        ensures Bit(a[n], r) == Bit(b[n], r)
      {
        assert AddressBit(a, 8 * n + (7 - r)) == AddressBit(b, 8 * n + (7 - r));
      }
    }
    if FirstBitsAgree(a, b, 8 * n) && SameUpper(a[n], b[n], 8 - rest) {
      forall i | 8 * n <= i < 8 * n + rest
        ensures AddressBit(a, i) == AddressBit(b, i)
      {
        assert Bit(a[n], 7 - i % 8) == Bit(b[n], 7 - i % 8);
      }
    }
  }

  /** For IPv6 the comparison of bytes agrees exactly when the first digits do. */
  lemma ComparedBytes(a: seq<Byte>, b: seq<Byte>, n: nat, rest: nat)
    requires |a| == |b| && rest < 8 && (if rest == 0 then n <= |a| else n < |a|)
    ensures FirstBitsAgree(a, b, 8 * n + rest) <==>
            MemCmp(a[..n], b[..n]) == 0 &&
            (rest > 0 ==> And(a[n], HighMask(8, 8 - rest)) == And(b[n], HighMask(8, 8 - rest)))
  {
    hide Bit, And, HighMask, FirstBitsAgree, MemCmp;
    MemCmpZero(a[..n], b[..n]);
    WholeBytes(a, b, n);
    if rest > 0 {
      SplitAtByte(a, b, n, rest);
      LastByte(a[n], b[n], rest);
    }
  }

  // ----- what the test means

  /** The address lies in the block exactly when both have the same family and the first
      prefixLen digits of the network, as the prefix notation of section 3.1 of RFC 4632
      and section 2.3 of RFC 4291 has it. Every prefix from 0 to the full width is meant. */
  lemma InCidrIsPrefixMatch(ip: IpAddr, network: IpAddr, prefixLen: Byte)
    requires prefixLen <= Width(network.family)
    ensures InCidr(ip, network, prefixLen) <==>
            ip.family == network.family && FirstBitsAgree(ip.Octets(), network.Octets(), prefixLen)
  {
    hide Bit, And, HighMask, FirstBitsAgree, MemCmp, Mask4, LittleEndian;
    if ip.family == network.family {
      var a, b := ip.Octets(), network.Octets();
      if ip.family == AF_INET {
        MaskedWords(a, b, prefixLen);
      } else {
        ComparedBytes(a, b, prefixLen / 8, prefixLen % 8);
        assert 8 * (prefixLen / 8) + prefixLen % 8 == prefixLen;
      }
    }
  }

  /** A block is contained in every block of the same network with a shorter prefix. */
  lemma ShorterPrefixMatches(ip: IpAddr, network: IpAddr, longer: Byte, shorter: Byte)
    requires shorter <= longer <= Width(network.family)
    requires InCidr(ip, network, longer)
    ensures InCidr(ip, network, shorter)
  {
    hide InCidr, AddressBit;
    InCidrIsPrefixMatch(ip, network, longer);
    InCidrIsPrefixMatch(ip, network, shorter);
  }

  /** Two blocks are nested or disjoint: one common address puts the longer prefix inside the shorter. */
  lemma BlocksNestOrAreDisjoint(n1: IpAddr, p1: Byte, n2: IpAddr, p2: Byte)
    requires p1 <= p2 <= Width(n2.family) && p1 <= Width(n1.family)
    ensures (forall ip :: InCidr(ip, n2, p2) ==> InCidr(ip, n1, p1))
            || (forall ip :: !(InCidr(ip, n1, p1) && InCidr(ip, n2, p2)))
  {
    hide InCidr, AddressBit;
    if common :| InCidr(common, n1, p1) && InCidr(common, n2, p2) {
      forall ip | InCidr(ip, n2, p2)
        ensures InCidr(ip, n1, p1)
      {
        InCidrIsPrefixMatch(common, n1, p1);
        InCidrIsPrefixMatch(common, n2, p2);
        InCidrIsPrefixMatch(ip, n2, p2);
        InCidrIsPrefixMatch(ip, n1, p1);
        AgreementChains(ip.Octets(), n2.Octets(), common.Octets(), n1.Octets(), p1, p2);
      }
    }
  }

  lemma AgreementChains(a: seq<Byte>, b: seq<Byte>, c: seq<Byte>, d: seq<Byte>, p1: nat, p2: nat)
    requires |a| == |b| == |c| == |d| && p1 <= p2 <= 8 * |a|
    requires FirstBitsAgree(a, b, p2) && FirstBitsAgree(c, b, p2) && FirstBitsAgree(c, d, p1)
    ensures FirstBitsAgree(a, d, p1)
  {
    hide AddressBit;
    forall i | 0 <= i < p1
      ensures AddressBit(a, i) == AddressBit(d, i)
    {
      assert AddressBit(a, i) == AddressBit(b, i) && AddressBit(c, i) == AddressBit(b, i) && AddressBit(c, i) == AddressBit(d, i);
    }
  }

  /** A block with a full prefix is one address; an address lies in every block written with it. */
  lemma FullPrefixIsOneAddress(ip: IpAddr, network: IpAddr, prefixLen: Byte)
    requires prefixLen <= Width(network.family)
    ensures prefixLen == Width(network.family) ==> (InCidr(ip, network, prefixLen) <==> ip.Key() == network.Key())
    ensures ip.Key() == network.Key() ==> InCidr(ip, network, prefixLen)
  {
    hide InCidr;
    InCidrIsPrefixMatch(ip, network, prefixLen);
    if ip.family == network.family {
      var a, b := ip.Octets(), network.Octets();
      WholeBytes(a, b, |a|);
      assert a[..|a|] == a && b[..|b|] == b;
    }
  }
}
