// Vocabulary shared by every module of the model: optional values, the C
// integer widths Aravis uses, and readers and writers for multi-byte fields
// stored in network (big-endian) or little-endian byte order.
module Common {

  datatype Option<T> = None | Some(value: T)

  /** A property child's value, or the default when the child is absent
      (arv_gc_property_node_get_sign, _get_lsb, _get_msb, _get_endianness). */
  function OrDefault<T>(o: Option<T>, default: T): (r: T)
    ensures o.Some? ==> r == o.value
    ensures o.None? ==> r == default
  {
    if o.Some? then o.value else default
  }

  type byte = x: int | 0 <= x < 0x100
  type uint16 = x: int | 0 <= x < 0x1_0000
  type uint32 = x: int | 0 <= x < 0x1_0000_0000
  type uint64 = x: int | 0 <= x < 0x1_0000_0000_0000_0000
  type int32 = x: int | -0x8000_0000 <= x < 0x8000_0000
  type int64 = x: int | -0x8000_0000_0000_0000 <= x < 0x8000_0000_0000_0000

  const INT64_MIN: int64 := -0x8000_0000_0000_0000
  const INT64_MAX: int64 := 0x7fff_ffff_ffff_ffff
  const UINT64_MAX: uint64 := 0xffff_ffff_ffff_ffff

  /** Conversion of any integer to a C unsigned type: arithmetic modulo 2^n. */
  function ToU16(x: int): uint16 { x % 0x1_0000 }
  function ToU32(x: int): uint32 { x % 0x1_0000_0000 }
  function ToU64(x: int): uint64
  {
    if 0 <= x < 0x1_0000_0000_0000_0000 then x else x % 0x1_0000_0000_0000_0000
  }

  /** Conversion to a two's complement signed type (what gcc does on overflow). */
  function ToI32(x: int): int32
  {
    var u := x % 0x1_0000_0000;
    if u < 0x8000_0000 then u else u - 0x1_0000_0000
  }
  function ToI64(x: int): int64
  {
    if INT64_MIN <= x <= INT64_MAX then x
    else
      var u := ToU64(x);
      if u < 0x8000_0000_0000_0000 then u else u - 0x1_0000_0000_0000_0000
  }

  lemma ToU64Identity(x: int)
    requires 0 <= x < 0x1_0000_0000_0000_0000
    ensures ToU64(x) == x
  {
  }

  lemma ToU64Mod(x: int)
    ensures ToU64(x) == x % 0x1_0000_0000_0000_0000
  {
    if 0 <= x < 0x1_0000_0000_0000_0000 {
      DivModUnique(x, 0x1_0000_0000_0000_0000, 0, x);
    }
  }

  lemma ToI64Identity(x: int)
    requires INT64_MIN <= x <= INT64_MAX
    ensures ToI64(x) == x
  {
  }

  /** A gint64 stored in a guint64 and back is unchanged, and so is a
      guint64 stored in a gint64 and back. */
  lemma SignedRoundTrip(a: int64)
    ensures ToI64(ToU64(a)) == a
  {
    if a < 0 {
      DivModUnique(a, 0x1_0000_0000_0000_0000, -1, a + 0x1_0000_0000_0000_0000);
    }
  }

  lemma UnsignedRoundTrip(u: uint64)
    ensures ToU64(ToI64(u)) == u
  {
    if u >= 0x8000_0000_0000_0000 {
      DivModUnique(u - 0x1_0000_0000_0000_0000, 0x1_0000_0000_0000_0000, -1, u);
    }
  }

  function Pow2(n: nat): (r: nat)
    ensures r >= 1
  {
    if n == 0 then 1 else 2 * Pow2(n - 1)
  }

  lemma {:induction false} Pow2Add(a: nat, b: nat)
    ensures Pow2(a + b) == Pow2(a) * Pow2(b)
  {
    if a > 0 {
      Pow2Add(a - 1, b);
    }
  }

  lemma {:induction false} Pow2Monotone(a: nat, b: nat)
    requires a <= b
    ensures Pow2(a) <= Pow2(b)
  {
    if a < b {
      Pow2Monotone(a, b - 1);
    }
  }

  /** One byte more multiplies the range by 256. */
  lemma Pow2NextByte(k: nat)
    ensures Pow2(8 * (k + 1)) == 0x100 * Pow2(8 * k)
  {
    Pow2Add(8, 8 * k);
    assert 8 * (k + 1) == 8 + 8 * k;
    assert Pow2(8) == 0x100;
  }

  lemma Pow2Values()
    ensures Pow2(7) == 0x80 && Pow2(8) == 0x100 && Pow2(14) == 0x4000 && Pow2(15) == 0x8000
    ensures Pow2(16) == 0x1_0000 && Pow2(24) == 0x100_0000 && Pow2(32) == 0x1_0000_0000
    ensures Pow2(63) == 0x8000_0000_0000_0000 && Pow2(64) == 0x1_0000_0000_0000_0000
  {
    assert Pow2(7) == 0x80;
    assert Pow2(8) == 0x100;
    Pow2Add(7, 7);
    Pow2Add(7, 8);
    Pow2Add(8, 8);
    Pow2Add(16, 8);
    Pow2Add(16, 16);
    Pow2Add(32, 31);
    Pow2Add(31, 32);
    Pow2Add(32, 32);
    Pow2Add(16, 15);
  }

  /** Bit n of a natural number, as the C test `(x & (1 << n)) != 0`. */
  predicate BitSet(x: nat, n: nat)
  {
    (x / Pow2(n)) % 2 == 1
  }

  /** Bit 7 of a byte is its upper half. */
  lemma BitSet7(x: byte)
    ensures BitSet(x, 7) <==> x >= 0x80
  {
    Pow2Values();
  }

  /** Bit 15 of a 16-bit value is its upper half. */
  lemma BitSet15(x: uint16)
    ensures BitSet(x, 15) <==> x >= 0x8000
  {
    Pow2Values();
  }

  lemma BitSet14(x: uint16)
    ensures BitSet(x, 14) <==> x % 0x8000 >= 0x4000
  {
    Pow2Values();
  }

  /** Euclidean division of a * d + b by d. */
  lemma DivAddMultiple(a: nat, b: nat, d: nat)
    requires d > 0
    ensures (a * d + b) / d == a + b / d
    ensures (a * d + b) % d == b % d
  {
    var q, r := b / d, b % d;
    assert b == q * d + r;
    assert a * d + b == (a + q) * d + r;
    DivModUnique(a * d + b, d, a + q, r);
  }

  /** Quotient and remainder are the only pair with x == q * d + r, 0 <= r < d. */
  lemma DivModUnique(x: int, d: int, q: int, r: int)
    requires d > 0 && 0 <= r < d && x == q * d + r
    ensures x / d == q && x % d == r
  {
    var q', r' := x / d, x % d;
    assert x == q' * d + r';
    var k := q - q';
    assert k * d == r' - r by {
      assert q * d - q' * d == (q - q') * d;
    }
    if k >= 1 {
      MulAtLeast(k, d);
    } else if k <= -1 {
      MulAtLeast(-k, d);
    }
  }

  /** Reducing a 16-bit field modulo m * 256 reduces its high
      byte modulo m. */
  lemma HighByteRemainder(hi: byte, lo: byte, m: nat)
    requires m > 0
    ensures ((hi as int) * 0x100 + lo) % (m * 0x100) == (hi % m) * 0x100 + lo
  {
    var q, r := hi / m, hi % m;
    assert hi == q * m + r;
    assert (hi as int) * 0x100 + lo == q * (m * 0x100) + (r * 0x100 + lo);
    DivModUnique((hi as int) * 0x100 + lo, m * 0x100, q, r * 0x100 + lo);
  }

  lemma MulAtLeast(k: int, d: int)
    requires k >= 1 && d > 0
    ensures k * d >= d
  {
    assert k * d == (k - 1) * d + d;
    assert (k - 1) * d >= 0;
  }

  // Big-endian readers: g_ntohs, g_ntohl and GUINT64_FROM_BE applied to a
  // field stored at byte offset `at`.
  function Be16(s: seq<byte>, at: nat): uint16
    requires at + 2 <= |s|
  {
    (s[at] as int) * 0x100 + s[at + 1]
  }

  function Be32(s: seq<byte>, at: nat): uint32
    requires at + 4 <= |s|
  {
    Be16(s, at) * 0x1_0000 + Be16(s, at + 2)
  }

  function Be64(s: seq<byte>, at: nat): uint64
    requires at + 8 <= |s|
  {
    Be32(s, at) * 0x1_0000_0000 + Be32(s, at + 4)
  }

  // Little-endian readers: GUINT16_FROM_LE, GUINT32_FROM_LE, GUINT64_FROM_LE.
  function Le16(s: seq<byte>, at: nat): uint16
    requires at + 2 <= |s|
  {
    s[at] + (s[at + 1] as int) * 0x100
  }

  function Le32(s: seq<byte>, at: nat): uint32
    requires at + 4 <= |s|
  {
    Le16(s, at) + Le16(s, at + 2) * 0x1_0000
  }

  function Le64(s: seq<byte>, at: nat): uint64
    requires at + 8 <= |s|
  {
    Le32(s, at) + Le32(s, at + 4) * 0x1_0000_0000
  }

  // Writers: the byte images g_htons, g_htonl, GUINT16_TO_LE, … store.
  function EncodeBe16(v: uint16): (r: seq<byte>)
    ensures |r| == 2
  {
    [v / 0x100, v % 0x100]
  }

  function EncodeBe32(v: uint32): (r: seq<byte>)
    ensures |r| == 4
  {
    EncodeBe16(v / 0x1_0000) + EncodeBe16(v % 0x1_0000)
  }

  function EncodeBe64(v: uint64): (r: seq<byte>)
    ensures |r| == 8
  {
    EncodeBe32(v / 0x1_0000_0000) + EncodeBe32(v % 0x1_0000_0000)
  }

  function EncodeLe16(v: uint16): (r: seq<byte>)
    ensures |r| == 2
  {
    [v % 0x100, v / 0x100]
  }

  function EncodeLe32(v: uint32): (r: seq<byte>)
    ensures |r| == 4
  {
    EncodeLe16(v % 0x1_0000) + EncodeLe16(v / 0x1_0000)
  }

  function EncodeLe64(v: uint64): (r: seq<byte>)
    ensures |r| == 8
  {
    EncodeLe32(v % 0x1_0000_0000) + EncodeLe32(v / 0x1_0000_0000)
  }

  // A reader applied where a writer stored a value gives the value back.
  lemma Be16OfEncode(s: seq<byte>, at: nat, v: uint16)
    requires at + 2 <= |s| && s[at..at + 2] == EncodeBe16(v)
    ensures Be16(s, at) == v
  {
    assert s[at] == s[at..at + 2][0] && s[at + 1] == s[at..at + 2][1];
  }

  lemma Be32OfEncode(s: seq<byte>, at: nat, v: uint32)
    requires at + 4 <= |s| && s[at..at + 4] == EncodeBe32(v)
    ensures Be32(s, at) == v
  {
    assert s[at..at + 2] == s[at..at + 4][..2];
    assert s[at + 2..at + 4] == s[at..at + 4][2..];
    Be16OfEncode(s, at, v / 0x1_0000);
    Be16OfEncode(s, at + 2, v % 0x1_0000);
  }

  lemma Be64OfEncode(s: seq<byte>, at: nat, v: uint64)
    requires at + 8 <= |s| && s[at..at + 8] == EncodeBe64(v)
    ensures Be64(s, at) == v
  {
    assert s[at..at + 4] == s[at..at + 8][..4];
    assert s[at + 4..at + 8] == s[at..at + 8][4..];
    Be32OfEncode(s, at, v / 0x1_0000_0000);
    Be32OfEncode(s, at + 4, v % 0x1_0000_0000);
  }

  lemma Le16OfEncode(s: seq<byte>, at: nat, v: uint16)
    requires at + 2 <= |s| && s[at..at + 2] == EncodeLe16(v)
    ensures Le16(s, at) == v
  {
    assert s[at] == s[at..at + 2][0] && s[at + 1] == s[at..at + 2][1];
  }

  lemma Le32OfEncode(s: seq<byte>, at: nat, v: uint32)
    requires at + 4 <= |s| && s[at..at + 4] == EncodeLe32(v)
    ensures Le32(s, at) == v
  {
    assert s[at..at + 2] == s[at..at + 4][..2];
    assert s[at + 2..at + 4] == s[at..at + 4][2..];
    Le16OfEncode(s, at, v % 0x1_0000);
    Le16OfEncode(s, at + 2, v / 0x1_0000);
  }

  lemma Le64OfEncode(s: seq<byte>, at: nat, v: uint64)
    requires at + 8 <= |s| && s[at..at + 8] == EncodeLe64(v)
    ensures Le64(s, at) == v
  {
    assert s[at..at + 4] == s[at..at + 8][..4];
    assert s[at + 4..at + 8] == s[at..at + 8][4..];
    Le32OfEncode(s, at, v % 0x1_0000_0000);
    Le32OfEncode(s, at + 4, v / 0x1_0000_0000);
  }

  /** A sequence of n zero bytes (what memset (…, 0, n) writes). */
  function Zeros(n: nat): (r: seq<byte>)
    ensures |r| == n && forall i :: 0 <= i < n ==> r[i] == 0
  {
    seq(n, _ => 0)
  }

  function Min(a: int, b: int): int { if a <= b then a else b }

  /** The elements of s, last first. */
  function Reversed<T>(s: seq<T>): (r: seq<T>)
    ensures |r| == |s| && forall i :: 0 <= i < |s| ==> r[i] == s[|s| - 1 - i]
  {
    if |s| == 0 then [] else [s[|s| - 1]] + Reversed(s[..|s| - 1])
  }

  lemma ReversedSnoc<T>(s: seq<T>, x: T)
    ensures Reversed(s + [x]) == [x] + Reversed(s)
  {
    assert (s + [x])[..|s|] == s;
  }

  lemma {:induction false} ReversedCons<T>(x: T, s: seq<T>)
    ensures Reversed([x] + s) == Reversed(s) + [x]
    decreases |s|
  {
    if |s| > 0 {
      var t := s[..|s| - 1];
      assert ([x] + s)[..|s|] == [x] + t;
      ReversedCons(x, t);
    }
  }

  lemma ReversedReversed<T>(s: seq<T>)
    ensures Reversed(Reversed(s)) == s
  {
    assert forall i :: 0 <= i < |s| ==> Reversed(Reversed(s))[i] == s[i];
  }
}
