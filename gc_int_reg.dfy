// ArvGcIntRegNode (arvgcintregnode.c): the bounds and the increment of an
// IntReg feature, derived from the length in bytes of its register and
// the signedness given by its Sign child (unsigned when there is none).
//
// The length comes from the register node, whose lookup can fail; the
// bounds then fall back to a constant and the error is passed to the
// caller. Shifts are the gint64 shifts of the source, taken modulo 64 as
// gcc emits them on x86.
module GcIntReg {
  import opened Common
  import opened Bits

  /** ArvGcSignedness. */
  datatype Signedness = Signed | Unsigned

  /** What arv_gc_register_get_length gives: a length in bytes, or an
      error. */
  datatype LengthLookup = Found(length: int64) | Failed

  /** A bound, and whether an error was propagated to the caller. */
  datatype Bound = Bound(value: int64, error: bool)

  /** The values an n-byte integer of the given signedness can hold. */
  predicate Representable(x: int, s: Signedness, n: nat)
    requires n >= 1
  {
    var bits: nat := 8 * n;
    if s == Unsigned then 0 <= x < Pow2(bits) else -(Pow2(bits - 1) as int) <= x < Pow2(bits - 1)
  }

  /** arv_gc_int_reg_node_get_min. */
  function GetMin(sign: Option<Signedness>, length: LengthLookup): (r: Bound)
    ensures r.error <==> length.Failed?
    ensures OrDefault(sign, Unsigned) == Unsigned ==> r.value == 0
  {
    var s := OrDefault(sign, Unsigned);
    match length
    case Failed => Bound(if s == Unsigned then 0 else INT64_MIN, true)
    case Found(n) =>
      if n > 8 then Bound(if s == Unsigned then 0 else INT64_MIN, false)
      else Bound(if s == Unsigned then 0 else ToI64(-(WrappingShiftLeft(1, ToI64(8 * (n as int) - 1)) as int)), false)
  }

  /** arv_gc_int_reg_node_get_max. */
  function GetMax(sign: Option<Signedness>, length: LengthLookup): (r: Bound)
    ensures r.error <==> length.Failed?
    ensures length.Failed? ==> r.value == INT64_MAX
    ensures length.Found? && length.length >= 8 ==> r.value == INT64_MAX
  {
    var s := OrDefault(sign, Unsigned);
    match length
    case Failed => Bound(INT64_MAX, true)
    case Found(n) =>
      if n >= 8 then Bound(INT64_MAX, false)
      else if s == Unsigned then Bound(ToI64(WrappingShiftLeft(1, ToI64(8 * (n as int))) as int - 1), false)
      else Bound(ToI64(WrappingShiftLeft(1, ToI64(8 * (n as int) - 1)) as int - 1), false)
  }

  /** arv_gc_int_reg_node_get_inc: every integer between the bounds is a
      value of the feature. */
  function GetInc(): (r: int64)
    ensures r > 0 && forall x: int :: x % r == 0
  {
    1
  }

  /** 2^k for 0 <= k <= 62, as the shift 1 << k computes it. */
  lemma ShiftOfOne(k: int64)
    requires 0 <= k <= 62
    ensures WrappingShiftLeft(1, k) == Pow2(k) && Pow2(k) <= 0x4000_0000_0000_0000
  {
    Pow2Below63(k);
    assert k % 64 == k;
    assert 1 * Pow2(k) == Pow2(k);
    ToI64Identity(Pow2(k));
  }

  lemma Pow2Below63(k: nat)
    requires k <= 62
    ensures Pow2(k) <= 0x4000_0000_0000_0000
  {
    Pow2Monotone(k, 62);
    Pow2At63();
    assert Pow2(63) == 2 * Pow2(62);
  }

  /** 1 << 63 wraps to INT64_MIN. */
  lemma ShiftOfOneTo63()
    ensures WrappingShiftLeft(1, 63) == INT64_MIN
    ensures ToI64(-(INT64_MIN as int)) == INT64_MIN
  {
    Pow2At63();
    assert 63 % 64 == 63;
    assert 1 * Pow2(63) == Pow2(63);
  }

  /** A failed length lookup gives the fallback bounds: 0 or INT64_MIN
      below, INT64_MAX above. */
  lemma FallbackBounds(sign: Option<Signedness>)
    ensures GetMin(sign, Failed) == Bound(if OrDefault(sign, Unsigned) == Unsigned then 0 else INT64_MIN, true)
    ensures GetMax(sign, Failed) == Bound(INT64_MAX, true)
  {
  }

  /** The signed minimum is -2^(8L-1) for a length L of 1 to 8 bytes,
      and INT64_MIN beyond. */
  lemma SignedMin(n: int64)
    requires n >= 1
    ensures n <= 8 ==> GetMin(Some(Signed), Found(n)).value == -(Pow2(8 * n - 1) as int)
    ensures n > 8 ==> GetMin(Some(Signed), Found(n)).value == INT64_MIN
  {
    if n <= 7 {
      ShortSignedMin(n);
    } else if n == 8 {
      ShiftOfOneTo63();
      Pow2At63();
    }
  }

  lemma ShortSignedMin(n: int64)
    requires 1 <= n <= 7
    ensures GetMin(Some(Signed), Found(n)).value == -(Pow2(8 * n - 1) as int)
  {
    var k := ToI64(8 * (n as int) - 1);
    assert k == 8 * n - 1 by { ToI64Identity(8 * (n as int) - 1); }
    assert GetMin(Some(Signed), Found(n)).value == ToI64(-(WrappingShiftLeft(1, k) as int));
    NegatedShift(k);
  }

  /** -(1 << k) is -2^k for 0 <= k <= 62. */
  lemma NegatedShift(k: int64)
    requires 0 <= k <= 62
    ensures ToI64(-(WrappingShiftLeft(1, k) as int)) == -(Pow2(k) as int)
  {
    ShiftOfOne(k);
    Negation(WrappingShiftLeft(1, k));
  }

  /** Below 8 bytes the maximum is 2^(8L) - 1 unsigned and 2^(8L-1) - 1
      signed. */
  lemma ShortMax(n: int64)
    requires 1 <= n <= 7
    ensures GetMax(Some(Unsigned), Found(n)).value == Pow2(8 * n) - 1
    ensures GetMax(None, Found(n)).value == Pow2(8 * n) - 1
    ensures GetMax(Some(Signed), Found(n)).value == Pow2(8 * n - 1) - 1
  {
    UnsignedShortMax(Some(Unsigned), n);
    UnsignedShortMax(None, n);
    SignedShortMax(n);
  }

  lemma UnsignedShortMax(sign: Option<Signedness>, n: int64)
    requires 1 <= n <= 7 && OrDefault(sign, Unsigned) == Unsigned
    ensures GetMax(sign, Found(n)).value == Pow2(8 * n) - 1
  {
    var k := ToI64(8 * (n as int));
    assert k == 8 * n by { ToI64Identity(8 * (n as int)); }
    assert GetMax(sign, Found(n)).value == ToI64(WrappingShiftLeft(1, k) as int - 1);
    ShiftedMax(k);
  }

  lemma SignedShortMax(n: int64)
    requires 1 <= n <= 7
    ensures GetMax(Some(Signed), Found(n)).value == Pow2(8 * n - 1) - 1
  {
    var k := ToI64(8 * (n as int) - 1);
    assert k == 8 * n - 1 by { ToI64Identity(8 * (n as int) - 1); }
    assert GetMax(Some(Signed), Found(n)).value == ToI64(WrappingShiftLeft(1, k) as int - 1);
    ShiftedMax(k);
  }

  /** (1 << k) - 1 is 2^k - 1 for 0 <= k <= 62. */
  lemma ShiftedMax(k: int64)
    requires 0 <= k <= 62
    ensures ToI64(WrappingShiftLeft(1, k) as int - 1) == Pow2(k) - 1
  {
    ShiftOfOne(k);
    Decrement(WrappingShiftLeft(1, k));
  }

  /** A positive gint64 minus one does not wrap. */
  lemma Decrement(w: int64)
    requires w >= 1
    ensures ToI64(w as int - 1) == w - 1
  {
    ToI64Identity(w as int - 1);
  }

  /** The negation of a gint64 other than INT64_MIN does not wrap. */
  lemma Negation(w: int64)
    requires w > INT64_MIN
    ensures ToI64(-(w as int)) == -(w as int)
  {
    ToI64Identity(-(w as int));
  }

  /** For 1 to 7 bytes the bounds are exactly the range of an integer of
      that size. */
  lemma BoundsAreRange(sign: Option<Signedness>, n: int64, x: int)
    requires 1 <= n <= 7
    ensures GetMin(sign, Found(n)).value <= x <= GetMax(sign, Found(n)).value
            <==> Representable(x, OrDefault(sign, Unsigned), n)
  {
    ShortMax(n);
    SignedMin(n);
  }

  /** From 8 bytes on, a signed feature spans the whole gint64 range and
      an unsigned one its non-negative half. */
  lemma WideBounds(sign: Option<Signedness>, n: int64)
    requires n >= 8
    ensures GetMax(sign, Found(n)).value == INT64_MAX
    ensures GetMin(sign, Found(n)).value == if OrDefault(sign, Unsigned) == Unsigned then 0 else INT64_MIN
  {
    if n == 8 && OrDefault(sign, Unsigned) == Signed {
      SignedMin(n);
      Pow2Values();
    }
  }
}
