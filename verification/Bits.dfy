/** Natural numbers as strings of bits. */
module Bits {
  function Pow2(n: nat): (r: nat)
    ensures r >= 1
  {
    if n == 0 then 1 else 2 * Pow2(n - 1)
  }

  /** `w` shifted right by `n` bits. */
  function Shift(w: nat, n: nat): nat {
    if n == 0 then w else Shift(w / 2, n - 1)
  }

  predicate HasBit(w: nat, n: nat) { Shift(w, n) % 2 == 1 }

  /** Bitwise or. */
  function Or(a: nat, b: nat): nat
    decreases a + b
  {
    if a == 0 then b
    else if b == 0 then a
    else (if a % 2 == 1 || b % 2 == 1 then 1 else 0) + 2 * Or(a / 2, b / 2)
  }

  /** A bit is set in the or exactly if it is set in one of the two. */
  lemma {:induction false} OrBits(a: nat, b: nat, n: nat)
    ensures HasBit(Or(a, b), n) <==> HasBit(a, n) || HasBit(b, n)
  {
    if a == 0 {
      ZeroBits(n);
    } else if b == 0 {
      ZeroBits(n);
    } else {
      assert Or(a, b) / 2 == Or(a / 2, b / 2);
      if n > 0 {
        OrBits(a / 2, b / 2, n - 1);
      }
    }
  }

  lemma {:induction false} ZeroBits(n: nat)
    ensures !HasBit(0, n)
  {
    if n > 0 {
      ZeroBits(n - 1);
    }
  }

  lemma {:induction false} OrCommutes(a: nat, b: nat)
    ensures Or(a, b) == Or(b, a)
    decreases a + b
  {
    if a != 0 && b != 0 {
      OrCommutes(a / 2, b / 2);
    }
  }

  /** `a` shifted left by `n` bits. */
  function Up(a: nat, n: nat): nat {
    if n == 0 then a else 2 * Up(a, n - 1)
  }

  lemma {:induction false} UpTimes(a: nat, n: nat)
    ensures Up(a, n) == a * Pow2(n)
  {
    if n > 0 {
      UpTimes(a, n - 1);
      DoubleFactor(a, Pow2(n - 1));
    }
  }

  lemma DoubleFactor(a: nat, p: nat)
    ensures a * (2 * p) == 2 * (a * p)
  {
  }

  /** Below the lowest bit of a shifted number the or is the other number. */
  lemma {:induction false} OrSplit(n: nat, a: nat, b: nat, low: nat)
    requires low < Pow2(n)
    ensures Or(Up(a, n), Up(b, n) + low) == Up(Or(a, b), n) + low
  {
    if n > 0 {
      OrSplit(n - 1, a, b, low / 2);
      OrDouble(Up(a, n - 1), Up(b, n - 1) + low / 2, low % 2);
    }
  }

  lemma OrDouble(a: nat, b: nat, bit: nat)
    requires bit < 2
    ensures Or(2 * a, 2 * b + bit) == 2 * Or(a, b) + bit
  {
  }

  lemma {:induction false} UpZero(n: nat)
    ensures Up(0, n) == 0
  {
    if n > 0 {
      UpZero(n - 1);
    }
  }

  /** The or of numbers without a common bit is their sum. */
  lemma OrSum(n: nat, a: nat, low: nat)
    requires low < Pow2(n)
    ensures Or(Up(a, n), low) == Up(a, n) + low
  {
    UpZero(n);
    OrSplit(n, a, 0, low);
  }

  /** The powers of two that addresses and entries are made of. */
  lemma Powers()
    ensures Pow2(12) == 4096 && Pow2(21) == 0x20_0000 && Pow2(51) == 0x8_0000_0000_0000
  {
    assert Pow2(6) == 64;
    assert Pow2(12) == 64 * Pow2(6);
    assert Pow2(18) == 64 * Pow2(12);
    assert Pow2(21) == 8 * Pow2(18);
    assert Pow2(27) == 64 * Pow2(21);
    assert Pow2(33) == 64 * Pow2(27);
    assert Pow2(39) == 64 * Pow2(33);
    assert Pow2(45) == 64 * Pow2(39);
    assert Pow2(51) == 64 * Pow2(45);
  }

  lemma Shifted(a: nat)
    ensures Up(a, 12) == a * 4096 && Up(a, 21) == a * 0x20_0000 && Up(a, 51) == a * 0x8_0000_0000_0000
  {
    Powers();
    UpTimes(a, 12);
    UpTimes(a, 21);
    UpTimes(a, 51);
  }

  /** A number has no bits above its size. */
  lemma {:induction false} SmallBits(a: nat, n: nat, bit: nat)
    requires a < Pow2(n) && n <= bit
    ensures !HasBit(a, bit)
  {
    if bit > 0 {
      if n > 0 {
        SmallBits(a / 2, n - 1, bit - 1);
      } else {
        ZeroBits(bit);
      }
    }
  }

  /** Shifting left moves every bit up and leaves clear bits below. */
  lemma {:induction false} UpBits(a: nat, n: nat, bit: nat)
    ensures HasBit(Up(a, n), bit) <==> n <= bit && HasBit(a, bit - n)
  {
    if n > 0 && bit > 0 {
      assert Up(a, n) / 2 == Up(a, n - 1);
      UpBits(a, n - 1, bit - 1);
    }
  }
}
