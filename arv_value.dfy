// ArvValue (arvmisc.c): a tagged value holding either a gint64 or a double.
//
// Doubles are modelled as reals: the IEEE rounding of a double computation
// is outside this model. The one rounding that matters here is the
// conversion of a 64-bit integer to double, which is written out exactly
// (round to nearest, ties to even, 53 significant bits), and the x86
// conversion of a double back to gint64 (truncation; the "integer
// indefinite" value INT64_MIN when the result does not fit).
module ArvValue {
  import opened Common

  datatype Value = Int64Value(i: int64) | DoubleValue(d: real)

  const TWO_53: nat := 0x20_0000_0000_0000

  // ---------------------------------------------------------------------
  // Integer to double

  /** The spacing of the doubles around n: 1 below 2^53, doubling with
      every binade above. */
  function Ulp(n: nat): (u: nat)
    ensures u >= 1
    decreases n
  {
    if n < TWO_53 then 1 else 2 * Ulp(n / 2)
  }

  /** n rounded to a multiple of u, to nearest, ties to the even multiple. */
  function RoundToMultiple(n: nat, u: nat): nat
    requires u >= 1
  {
    var q := n / u;
    var rem := n % u;
    if 2 * rem < u then q * u
    else if 2 * rem > u then (q + 1) * u
    else if q % 2 == 0 then q * u
    else (q + 1) * u
  }

  /** The value of `(double) n`, itself an integer. */
  function IntToDouble(n: int): int
  {
    if n >= 0 then RoundToMultiple(n, Ulp(n)) else -(RoundToMultiple(-n, Ulp(-n)) as int)
  }

  /** `(gint64) x` on x86: truncation toward zero, INT64_MIN when out of range. */
  function DoubleToInt64(x: real): (r: int64)
    ensures 0.0 <= x < 9223372036854775808.0 ==> r as real <= x < r as real + 1.0
    ensures -9223372036854775808.0 <= x < 0.0 ==> r as real - 1.0 < x <= r as real
    ensures x >= 9223372036854775808.0 ==> r == INT64_MIN
  {
    var t := if x >= 0.0 then x.Floor else -((-x).Floor);
    if INT64_MIN <= t <= INT64_MAX then t else INT64_MIN
  }

  // ---------------------------------------------------------------------
  // Getters and setters

  /** arv_value_set_int64: the value becomes an int64 one. */
  function SetInt64(v: Value, x: int64): (r: Value)
    ensures HoldsInt64(r) && GetInt64(r) == x
  {
    Int64Value(x)
  }

  /** arv_value_set_double: the value becomes a double one. */
  function SetDouble(v: Value, x: real): (r: Value)
    ensures HoldsDouble(r) && GetDouble(r) == x
  {
    DoubleValue(x)
  }

  /** arv_value_get_int64: a double is converted by truncation. */
  function GetInt64(v: Value): int64
  {
    match v
    case Int64Value(i) => i
    case DoubleValue(d) => DoubleToInt64(d)
  }

  /** arv_value_get_double: an int64 is converted to the nearest double. */
  function GetDouble(v: Value): real
  {
    match v
    case Int64Value(i) => IntToDouble(i) as real
    case DoubleValue(d) => d
  }

  predicate HoldsInt64(v: Value) { v.Int64Value? }
  predicate HoldsDouble(v: Value) { v.DoubleValue? }

  /** arv_value_new_double. */
  function NewDouble(x: real): (r: Value)
    ensures HoldsDouble(r) && GetDouble(r) == x
  {
    DoubleValue(x)
  }

  /** arv_value_new_int64 as written: its parameter is declared `double`,
      so the gint64 argument goes through a double on its way in. */
  function NewInt64AsWritten(x: int64): (r: Value)
    ensures HoldsInt64(r)
  {
    Int64Value(DoubleToInt64(IntToDouble(x) as real))
  }

  /** arv_value_new_int64 as intended: the value holds the argument. */
  function NewInt64(x: int64): (r: Value)
    ensures HoldsInt64(r) && GetInt64(r) == x
  {
    Int64Value(x)
  }

  // ---------------------------------------------------------------------
  // Properties

  /** The rounded value is a multiple of u within half a spacing of n. */
  lemma RoundIsNearest(n: nat, u: nat)
    requires u >= 1
    ensures var r := RoundToMultiple(n, u);
      r % u == 0 && r * 2 <= n * 2 + u && n * 2 <= r * 2 + u
  {
    var q, rem := n / u, n % u;
    assert n == q * u + rem;
    assert (q + 1) * u == q * u + u;
    DivModUnique(q * u, u, q, 0);
    DivModUnique((q + 1) * u, u, q + 1, 0);
  }

  /** Below 2^53 every integer is a double: the spacing is 1. */
  lemma UlpBelow(n: nat)
    requires n < TWO_53
    ensures Ulp(n) == 1
  {
  }

  /** The spacing never exceeds the number (for n >= 1). */
  lemma {:induction false} UlpAtMost(n: nat)
    requires n >= 1
    ensures Ulp(n) <= n
    decreases n
  {
    if n >= TWO_53 {
      UlpAtMost(n / 2);
    }
  }

  /** Integers of magnitude at most 2^53 convert to double exactly. */
  lemma IntToDoubleExact(n: int)
    requires -(TWO_53 as int) <= n <= TWO_53
    ensures IntToDouble(n) == n
  {
    var m := if n >= 0 then n else -n;
    if m == TWO_53 {
      assert Ulp(m / 2) == 1;
    }
  }

  /** Only 0 converts to the double 0: the division-by-zero test on an
      int64 operand is a test for 0. */
  lemma IntToDoubleZero(n: int)
    ensures IntToDouble(n) == 0 <==> n == 0
  {
    var m := if n >= 0 then n else -n;
    if m >= 1 {
      UlpAtMost(m);
      var u := Ulp(m);
      MulAtLeast(m / u, u);
    }
  }

  /** The setters round-trip through the getters, and an int64 that fits
      in 53 bits reads back unchanged as a double. */
  lemma SetGetRoundTrip(v: Value, x: int64, y: real)
    ensures GetInt64(SetInt64(v, x)) == x && HoldsInt64(SetInt64(v, x)) && !HoldsDouble(SetInt64(v, x))
    ensures GetDouble(SetDouble(v, y)) == y && HoldsDouble(SetDouble(v, y)) && !HoldsInt64(SetDouble(v, y))
    ensures -(TWO_53 as int) <= x <= TWO_53 ==> GetDouble(SetInt64(v, x)) == x as real
  {
    if -(TWO_53 as int) <= x <= TWO_53 {
      IntToDoubleExact(x);
    }
  }

  /** A double reads back as int64 truncated toward zero. */
  lemma GetInt64OfDouble(y: real)
    requires 0.0 <= y < 9223372036854775807.0
    ensures GetInt64(DoubleValue(y)) == y.Floor
  {
  }

  /** arv_value_new_int64 as written agrees with the intended one on
      integers of at most 53 bits. */
  lemma NewInt64AgreesBelow53Bits(x: int64)
    requires -(TWO_53 as int) <= x <= TWO_53
    ensures NewInt64AsWritten(x) == NewInt64(x)
  {
    IntToDoubleExact(x);
  }

  /** ... and loses the exact value above: 2^53 + 1 becomes 2^53, and
      INT64_MAX becomes 2^63, which does not fit and reads back as
      INT64_MIN. */
  lemma NewInt64AsWrittenLosesPrecision()
    ensures GetInt64(NewInt64AsWritten(9007199254740993)) == 9007199254740992
    ensures GetInt64(NewInt64AsWritten(INT64_MAX)) == INT64_MIN
  {
    assert Ulp(9007199254740993) == 2 by {
      assert Ulp(4503599627370496) == 1;
    }
    assert Ulp(INT64_MAX) == 1024 by {
      assert Ulp(9007199254740991) == 1;
      assert Ulp(18014398509481983) == 2;
      assert Ulp(36028797018963967) == 4;
      assert Ulp(72057594037927935) == 8;
      assert Ulp(144115188075855871) == 16;
      assert Ulp(288230376151711743) == 32;
      assert Ulp(576460752303423487) == 64;
      assert Ulp(1152921504606846975) == 128;
      assert Ulp(2305843009213693951) == 256;
      assert Ulp(4611686018427387903) == 512;
    }
    assert IntToDouble(INT64_MAX) == 9223372036854775808;
  }
}
