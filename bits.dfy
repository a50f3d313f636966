// Bitwise operations on unsigned integers, written arithmetically: bit i
// of x is (x / 2^i) % 2, the and and or of two numbers are built bit by
// bit from the lowest, and shifts multiply or divide by powers of two.
// The lemmas state each operation bit by bit; two numbers below 2^n with
// the same n low bits are equal (BitsEqual), which turns bit-level facts
// into equations.
module Bits {
  import opened Common

  /** Bit i of x. */
  function Bit(x: nat, i: nat): nat
  {
    (x / Pow2(i)) % 2
  }

  /** The low n bits of the bitwise and, or and exclusive or of x and y,
      bit by bit from the lowest. */
  function AndBits(x: nat, y: nat, n: nat): nat
  {
    if n == 0 || x == 0 || y == 0 then 0
    else 2 * AndBits(x / 2, y / 2, n - 1) + (if x % 2 == 1 && y % 2 == 1 then 1 else 0)
  }

  function OrBits(x: nat, y: nat, n: nat): nat
  {
    if n == 0 || (x == 0 && y == 0) then 0
    else 2 * OrBits(x / 2, y / 2, n - 1) + (if x % 2 == 1 || y % 2 == 1 then 1 else 0)
  }

  function XorBits(x: nat, y: nat, n: nat): nat
  {
    if n == 0 || (x == 0 && y == 0) then 0
    else 2 * XorBits(x / 2, y / 2, n - 1) + (x % 2 + y % 2) % 2
  }

  /** `~x` on a guint64. */
  function Not64(x: uint64): uint64
  {
    UINT64_MAX - x
  }

  /** `x << s` and `x >> s` on a guint64, with the count taken modulo 64
      as gcc emits the shift on x86 (a count of 64 or more is undefined
      in C). */
  function ShiftLeft64(x: nat, s: nat): uint64
  {
    ToU64(x * Pow2(s % 64))
  }

  function ShiftRight64(x: uint64, s: nat): uint64
  {
    var d := Pow2(s % 64);
    DivAtMost(x, d);
    Quotient(x, d)
  }

  /** `a << b` on a gint64 and on an int: the count modulo 64 or 32 as
      gcc emits the shift on x86, the bits shifted out lost (a count out
      of range, or a signed overflow, is undefined in C). */
  function WrappingShiftLeft(a: int64, b: int64): int64
  {
    ToI64(a * Pow2(b % 64))
  }

  function IntShiftLeft(a: int32, b: int64): int32
  {
    ToI32(a * Pow2(b % 32))
  }

  lemma Pow2At64()
    ensures Pow2(64) == 0x1_0000_0000_0000_0000
  {
    Pow2Values();
  }

  lemma Pow2At63()
    ensures Pow2(63) == 0x8000_0000_0000_0000
  {
    Pow2Values();
  }

  // ---------------------------------------------------------------------
  // Division by powers of two

  // Ring identities, each proved on its own so that no proof below has to
  // search for them among other nonlinear facts.

  lemma MulAddLeft(a: int, b: int, c: int)
    ensures (a + b) * c == a * c + b * c
  {
  }

  lemma MulSwap(a: int, b: int, c: int)
    ensures a * b * c == a * (c * b)
  {
  }

  lemma MulTwice(q: int, d: int, p: int)
    ensures q * (d * (2 * p)) == p * q * 2 * d
  {
  }

  lemma MulNonNegative(a: nat, b: nat)
    ensures a * b >= 0
  {
  }

  lemma DivModSplit(x: nat, d: nat)
    requires d > 0
    ensures x == x / d * d + x % d && x / d >= 0
  {
  }

  /** x / d on naturals, with its sign made explicit. */
  function Quotient(x: nat, d: nat): (q: nat)
    requires d > 0
    ensures q == x / d
  {
    DivModSplit(x, d);
    x / d
  }

  lemma MulMonotone(a: nat, b: nat, c: nat)
    requires a <= b
    ensures a * c <= b * c
  {
  }

  lemma DivAtMost(x: nat, d: nat)
    requires d > 0
    ensures x / d <= x
  {
    MulMonotone(1, d, x / d);
    assert x == d * (x / d) + x % d;
  }

  /** A number below 2^n is its own remainder. */
  lemma SmallRemainder(x: nat, n: nat)
    requires x < Pow2(n)
    ensures x % Pow2(n) == x
  {
    DivModUnique(x, Pow2(n), 0, x);
  }

  /** Dividing by a then by b is dividing by a * b. */
  lemma DivDiv(x: nat, a: nat, b: nat)
    requires a > 0 && b > 0
    ensures x / a / b == x / (a * b)
  {
    var q, r := x / a, x % a;
    var q2, r2 := q / b, q % b;
    assert x == q * a + r;
    assert q == q2 * b + r2;
    MulAddLeft(q2 * b, r2, a);
    MulSwap(q2, b, a);
    assert x == q2 * (a * b) + (r2 * a + r);
    MulMonotone(r2, b - 1, a);
    MulAddLeft(b, -1, a);
    assert r2 * a + r < a * b;
    DivModUnique(x, a * b, q2, r2 * a + r);
  }

  /** Bit i + 1 of x is bit i of x / 2. */
  lemma BitNext(x: nat, i: nat)
    ensures Bit(x, i + 1) == Bit(x / 2, i)
  {
    DivDiv(x, 2, Pow2(i));
  }

  /** A number below 2^n has no bit at n or above. */
  lemma BitAbove(x: nat, n: nat, j: nat)
    requires x < Pow2(n) && n <= j
    ensures Bit(x, j) == 0
  {
    Pow2Monotone(n, j);
    DivModUnique(x, Pow2(j), 0, x);
  }

  /** Bit i of x / 2^s is bit i + s of x. */
  lemma BitOfQuotient(x: nat, s: nat, i: nat)
    ensures Bit(Quotient(x, Pow2(s)), i) == Bit(x, i + s)
  {
    DivDiv(x, Pow2(s), Pow2(i));
    Pow2Add(s, i);
  }

  /** x modulo 2^w keeps the w low bits of x. */
  lemma BitOfRemainder(x: nat, w: nat, i: nat)
    ensures Bit(x % Pow2(w), i) == if i < w then Bit(x, i) else 0
  {
    var q, r := x / Pow2(w), x % Pow2(w);
    if i >= w {
      BitAbove(r, w, i);
    } else {
      var d, p := Pow2(i), Pow2(w - i - 1);
      Pow2Add(i, w - i);
      assert Pow2(w) == d * (2 * p);
      DivModSplit(x, Pow2(w));
      DivModSplit(r, d);
      MulTwice(q, d, p);
      MulNonNegative(p, q);
      var a: nat := p * q * 2;
      assert x == a * d + r;
      DivAddMultiple(a, r, d);
      DivAddMultiple(p * q, r / d, 2);
    }
  }

  /** Bit i of x * 2^s is bit i - s of x, and 0 below s. */
  lemma BitOfProduct(x: nat, s: nat, i: nat)
    ensures Bit(x * Pow2(s), i) == if s <= i then Bit(x, i - s) else 0
  {
    MulNonNegative(x, Pow2(s));
    if s <= i {
      Pow2Add(s, i - s);
      DivDiv(x * Pow2(s), Pow2(s), Pow2(i - s));
      DivAddMultiple(x, 0, Pow2(s));
    } else {
      var d, p := Pow2(i), Pow2(s - i - 1);
      Pow2Add(i, s - i);
      assert Pow2(s) == d * (2 * p);
      MulTwice(x, d, p);
      MulNonNegative(p, x);
      var a: nat := p * x * 2;
      assert x * Pow2(s) == a * d + 0;
      DivAddMultiple(a, 0, d);
      DivAddMultiple(p * x, 0, 2);
    }
  }

  /** Bit i of x << s on a guint64. */
  lemma BitOfShiftLeft(x: nat, s: nat, i: nat)
    requires i < 64
    ensures Bit(ShiftLeft64(x, s), i) == if s % 64 <= i then Bit(x, i - s % 64) else 0
  {
    Pow2At64();
    BitOfRemainder(x * Pow2(s % 64), 64, i);
    BitOfProduct(x, s % 64, i);
  }

  /** Bit i of x >> s on a guint64. */
  lemma BitOfShiftRight(x: uint64, s: nat, i: nat)
    ensures Bit(ShiftRight64(x, s), i) == Bit(x, i + s % 64)
  {
    BitOfQuotient(x, s % 64, i);
  }

  // ---------------------------------------------------------------------
  // And, or, not

  lemma {:induction false} AndBitsBound(x: nat, y: nat, n: nat)
    ensures AndBits(x, y, n) < Pow2(n)
  {
    if n > 0 && x > 0 && y > 0 {
      AndBitsBound(x / 2, y / 2, n - 1);
    }
  }

  lemma {:induction false} OrBitsBound(x: nat, y: nat, n: nat)
    ensures OrBits(x, y, n) < Pow2(n)
  {
    if n > 0 && !(x == 0 && y == 0) {
      OrBitsBound(x / 2, y / 2, n - 1);
    }
  }

  /** Exclusive or with y twice, or with 0 and and with itself give x
      back. */
  lemma {:induction false} XorBitsTwice(x: nat, y: nat, n: nat)
    requires x < Pow2(n)
    ensures XorBits(XorBits(x, y, n), y, n) == x
  {
    if n > 0 && !(x == 0 && y == 0) {
      var z := XorBits(x, y, n);
      DivModUnique(z, 2, XorBits(x / 2, y / 2, n - 1), (x % 2 + y % 2) % 2);
      XorBitsTwice(x / 2, y / 2, n - 1);
      assert ((x % 2 + y % 2) % 2 + y % 2) % 2 == x % 2;
    }
  }

  lemma {:induction false} OrBitsZero(x: nat, n: nat)
    requires x < Pow2(n)
    ensures OrBits(x, 0, n) == x
  {
    if n > 0 && x != 0 {
      OrBitsZero(x / 2, n - 1);
    }
  }

  lemma {:induction false} AndBitsSelf(x: nat, n: nat)
    requires x < Pow2(n)
    ensures AndBits(x, x, n) == x
  {
    if n > 0 && x != 0 {
      AndBitsSelf(x / 2, n - 1);
    }
  }

  /** The exclusive or of n bits fits in n bits. */
  lemma {:induction false} XorBitsBound(x: nat, y: nat, n: nat)
    ensures XorBits(x, y, n) < Pow2(n)
  {
    if n > 0 && !(x == 0 && y == 0) {
      XorBitsBound(x / 2, y / 2, n - 1);
    }
  }

  /** Bit i of x & y is set iff it is set in both. */
  lemma {:induction false} BitOfAnd(x: nat, y: nat, n: nat, i: nat)
    ensures Bit(AndBits(x, y, n), i) == if i < n then Bit(x, i) * Bit(y, i) else 0
  {
    var r := AndBits(x, y, n);
    if n == 0 || x == 0 || y == 0 {
      assert r == 0;
    } else {
      var low: nat := if x % 2 == 1 && y % 2 == 1 then 1 else 0;
      var rest := AndBits(x / 2, y / 2, n - 1);
      assert r == rest * 2 + low;
      DivAddMultiple(rest, low, 2);
      if i > 0 {
        BitNext(r, i - 1);
        BitNext(x, i - 1);
        BitNext(y, i - 1);
        BitOfAnd(x / 2, y / 2, n - 1, i - 1);
      }
    }
  }

  /** Bit i of x | y is set iff it is set in either. */
  lemma {:induction false} BitOfOr(x: nat, y: nat, n: nat, i: nat)
    ensures Bit(OrBits(x, y, n), i) == if i < n && (Bit(x, i) == 1 || Bit(y, i) == 1) then 1 else 0
  {
    var r := OrBits(x, y, n);
    if n == 0 || (x == 0 && y == 0) {
      assert r == 0;
    } else {
      var low: nat := if x % 2 == 1 || y % 2 == 1 then 1 else 0;
      var rest := OrBits(x / 2, y / 2, n - 1);
      assert r == rest * 2 + low;
      DivAddMultiple(rest, low, 2);
      if i > 0 {
        BitNext(r, i - 1);
        BitNext(x, i - 1);
        BitNext(y, i - 1);
        BitOfOr(x / 2, y / 2, n - 1, i - 1);
      }
    }
  }

  /** 2^n - 1 - x has exactly the n low bits x lacks. */
  lemma {:induction false} BitOfComplement(x: nat, n: nat, i: nat)
    requires x < Pow2(n) && i < n
    ensures Bit(Pow2(n) - 1 - x, i) == 1 - Bit(x, i)
  {
    var y := Pow2(n) - 1 - x;
    var q, b := x / 2, x % 2;
    assert Pow2(n) == 2 * Pow2(n - 1);
    assert x == 2 * q + b;
    var c := Pow2(n - 1) - 1 - q;
    assert c >= 0;
    assert y == c * 2 + (1 - b);
    DivAddMultiple(c, 1 - b, 2);
    assert y / 2 == c && y % 2 == 1 - b;
    if i == 0 {
      assert Bit(y, 0) == y % 2 && Bit(x, 0) == b;
    } else {
      BitNext(y, i - 1);
      BitNext(x, i - 1);
      BitOfComplement(q, n - 1, i - 1);
      assert Bit(y, i) == Bit(c, i - 1);
    }
  }

  /** ~x on a guint64 flips each of the 64 bits. */
  lemma BitOfNot(x: uint64, i: nat)
    requires i < 64
    ensures Bit(Not64(x), i) == 1 - Bit(x, i)
  {
    Pow2At64();
    BitOfComplement(x, 64, i);
  }

  /** 2^w - 1 has exactly the w low bits set. */
  lemma BitOfLowMask(w: nat, i: nat)
    ensures Bit(Pow2(w) - 1, i) == if i < w then 1 else 0
  {
    if i < w {
      BitOfComplement(0, w, i);
    } else {
      BitAbove(Pow2(w) - 1, w, i);
    }
  }

  /** Two numbers below 2^n with the same n low bits are equal. */
  lemma {:induction false} BitsEqual(x: nat, y: nat, n: nat)
    requires x < Pow2(n) && y < Pow2(n)
    requires forall i :: 0 <= i < n ==> Bit(x, i) == Bit(y, i)
    ensures x == y
  {
    if n > 0 {
      assert Bit(x, 0) == Bit(y, 0);
      forall i | 0 <= i < n - 1
        ensures Bit(x / 2, i) == Bit(y / 2, i)
      {
        BitNext(x, i);
        BitNext(y, i);
        assert Bit(x, i + 1) == Bit(y, i + 1);
      }
      BitsEqual(x / 2, y / 2, n - 1);
    }
  }
}
