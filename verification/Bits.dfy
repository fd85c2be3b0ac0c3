/** Unsigned 32-bit arithmetic, written out on numbers: a uint32_t is an int in 0..2^32-1,
    products and shifts wrap, and the bitwise operators work digit by digit in base two. */
module Bits {
  type Word = w: int | 0 <= w < 0x1_0000_0000

  function Pow2(n: nat): (p: nat)
    ensures p > 0
  {
    if n == 0 then 1 else 2 * Pow2(n - 1)
  }

  /** Digit i of x, the lowest first. */
  function Bit(x: nat, i: nat): nat {
    if i == 0 then x % 2 else Bit(x / 2, i - 1)
  }

  function Xor(x: nat, y: nat): nat {
    if x == 0 && y == 0 then 0 else (x % 2 + y % 2) % 2 + 2 * Xor(x / 2, y / 2)
  }

  function Or(x: nat, y: nat): nat {
    if x == 0 && y == 0 then 0 else (x % 2 + y % 2 + 1) / 2 + 2 * Or(x / 2, y / 2)
  }

  function And(x: nat, y: nat): nat {
    if x == 0 || y == 0 then 0 else (x % 2) * (y % 2) + 2 * And(x / 2, y / 2)
  }

  /** Digit-wise operators stay within the digits of their arguments. */
  lemma {:induction false} XorBound(x: nat, y: nat, n: nat)
    requires x < Pow2(n) && y < Pow2(n)
    ensures Xor(x, y) < Pow2(n)
  {
    if n > 0 {
      XorBound(x / 2, y / 2, n - 1);
    }
  }

  lemma XorDigits(x: nat, y: nat)
    ensures Xor(x, y) % 2 == (x % 2 + y % 2) % 2
    ensures Xor(x, y) / 2 == Xor(x / 2, y / 2)
  {
  }

  lemma XorOfZero()
    ensures Xor(0, 0) == 0
  {
  }

  lemma {:induction false} XorSelfInverse(x: nat, y: nat)
    ensures Xor(Xor(x, y), y) == x
    decreases x + y
  {
    hide Xor;
    XorDigits(x, y);
    XorDigits(Xor(x, y), y);
    if x == 0 && y == 0 {
      XorOfZero();
    } else {
      XorSelfInverse(x / 2, y / 2);
    }
  }

  lemma {:induction false} XorCommutes(x: nat, y: nat)
    ensures Xor(x, y) == Xor(y, x)
    decreases x + y
  {
    if x != 0 || y != 0 {
      XorCommutes(x / 2, y / 2);
    }
  }

  lemma XorCancel(x: nat, x': nat, y: nat)
    requires Xor(x, y) == Xor(x', y)
    ensures x == x'
  {
    XorSelfInverse(x, y);
    XorSelfInverse(x', y);
  }

  /** x >> s */
  function Shr(x: nat, s: nat): (r: nat)
    ensures r <= x
  {
    if s == 0 then x else Shr(x / 2, s - 1)
  }

  lemma {:induction false} HalfOfShr(x: nat, s: nat)
    ensures Shr(x, s) / 2 == Shr(x / 2, s)
  {
    if s > 0 {
      HalfOfShr(x / 2, s - 1);
    }
  }

  /** A shift splits a number into what is kept and what is lost. */
  lemma {:induction false} ShrSplits(x: nat, s: nat) returns (low: nat)
    ensures x == Pow2(s) * Shr(x, s) + low && low < Pow2(s)
  {
    hide Shr;
    if s == 0 {
      low := 0;
      ShrNothing(x);
    } else {
      var half := ShrSplits(x / 2, s - 1);
      low := 2 * half + x % 2;
      ShrStep(x, s);
      TwiceProduct(Pow2(s - 1), Shr(x, s));
    }
  }

  lemma ShrNothing(x: nat)
    ensures Shr(x, 0) == x
  {
  }

  lemma TwiceProduct(p: nat, n: nat)
    ensures (2 * p) * n == 2 * (p * n)
  {
  }

  lemma OrDigits(x: nat, y: nat)
    ensures Or(x, y) % 2 == (x % 2 + y % 2 + 1) / 2
    ensures Or(x, y) / 2 == Or(x / 2, y / 2)
  {
    if x == 0 && y == 0 {
      assert Or(0, 0) == 0;
    } else {
      LowestDigit((x % 2 + y % 2 + 1) / 2, Or(x / 2, y / 2));
    }
  }

  lemma LowestDigit(d: nat, n: nat)
    requires d < 2
    ensures (d + 2 * n) % 2 == d && (d + 2 * n) / 2 == n
  {
  }

  lemma {:induction false} XorWithZero(x: nat)
    ensures Xor(x, 0) == x
  {
    hide Xor;
    XorDigits(x, 0);
    if x == 0 {
      XorOfZero();
    } else {
      XorWithZero(x / 2);
    }
  }

  lemma {:induction false} OrWithZero(x: nat)
    ensures Or(x, 0) == x
  {
    if x > 0 {
      OrDigits(x, 0);
      OrWithZero(x / 2);
    }
  }

  lemma HalfOfProduct(p: nat, hi: nat)
    ensures (2 * p) * hi / 2 == p * hi && (2 * p) * hi % 2 == 0
  {
    assert (2 * p) * hi == 2 * (p * hi);
  }

  /** Numbers without a common digit: exclusive or is their sum. */
  lemma {:induction false} XorOfDisjoint(hi: nat, lo: nat, s: nat)
    requires lo < Pow2(s)
    ensures Xor(Pow2(s) * hi, lo) == Pow2(s) * hi + lo
  {
    hide Xor;
    if s == 0 {
      XorWithZero(hi);
    } else {
      HalfOfProduct(Pow2(s - 1), hi);
      XorDigits(Pow2(s) * hi, lo);
      XorOfDisjoint(hi, lo / 2, s - 1);
    }
  }

  /** Numbers without a common digit: inclusive or is their sum. */
  lemma {:induction false} OrOfDisjoint(hi: nat, lo: nat, s: nat)
    requires lo < Pow2(s)
    ensures Or(Pow2(s) * hi, lo) == Pow2(s) * hi + lo
  {
    hide Or;
    if s == 0 {
      OrWithZero(hi);
    } else {
      HalfOfProduct(Pow2(s - 1), hi);
      OrDigits(Pow2(s) * hi, lo);
      OrOfDisjoint(hi, lo / 2, s - 1);
    }
  }

  lemma ShrStep(x: nat, s: nat)
    requires s > 0
    ensures Shr(x, s) == Shr(x / 2, s - 1)
  {
  }

  /** x ^ (x >> s) can be undone: the upper digits are those of x itself. */
  lemma {:induction false} XorShiftInjective(x: nat, y: nat, s: nat)
    requires s > 0
    requires Xor(x, Shr(x, s)) == Xor(y, Shr(y, s))
    ensures x == y
    decreases x + y
  {
    hide Xor, Shr;
    if x != 0 || y != 0 {
      XorDigits(x, Shr(x, s));
      XorDigits(y, Shr(y, s));
      HalfOfShr(x, s);
      HalfOfShr(y, s);
      XorShiftInjective(x / 2, y / 2, s);
      ShrStep(x, s);
      ShrStep(y, s);
      XorCancel(x, y, Shr(x, s));
    }
  }


  lemma Pow2Of32()
    ensures Pow2(32) == 0x1_0000_0000
    ensures Pow2(8) == 0x100 && Pow2(13) == 0x2000 && Pow2(15) == 0x8000 && Pow2(16) == 0x1_0000
    ensures Pow2(17) == 0x2_0000 && Pow2(19) == 0x8_0000
  {
    assert Pow2(8) == 0x100;
    assert Pow2(16) == 0x1_0000;
    assert Pow2(24) == 0x100_0000;
  }

  function Xor32(x: Word, y: Word): Word {
    Pow2Of32();
    XorBound(x, y, 32);
    Xor(x, y)
  }
}
