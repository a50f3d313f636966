// arv_copy_memory_with_endianess (arvmisc.c): copies an integer of
// from_size bytes stored in one byte order into to_size bytes stored in
// another, truncating to the low-order bytes or zero-extending.
//
// Copied states what each of the four branches writes; CopiedValue proves
// that in every branch the destination holds the source's value modulo
// 2^(8*to_size), read in the destination's byte order.
module Endianness {
  import opened Common

  /** G_LITTLE_ENDIAN and G_BIG_ENDIAN; any other value aborts in C. */
  datatype ByteOrder = LittleEndian | BigEndian

  /** The integer a little-endian byte string denotes. */
  function LeValue(s: seq<byte>): nat
  {
    if |s| == 0 then 0 else s[0] + 0x100 * LeValue(s[1..])
  }

  /** The integer a byte string in the given order denotes. */
  function Value(s: seq<byte>, order: ByteOrder): nat
  {
    match order
    case LittleEndian => LeValue(s)
    case BigEndian => LeValue(Reversed(s))
  }

  /** What the destination holds after the copy. */
  function Copied(from: seq<byte>, toSize: nat, toOrder: ByteOrder, fromOrder: ByteOrder): (r: seq<byte>)
    ensures |r| == toSize
  {
    var n := Min(toSize, |from|);
    match (toOrder, fromOrder)
    case (LittleEndian, BigEndian) => Reversed(from[|from| - n..]) + Zeros(toSize - n)
    case (BigEndian, LittleEndian) => Zeros(toSize - n) + Reversed(from[..n])
    case (LittleEndian, LittleEndian) => from[..n] + Zeros(toSize - n)
    case (BigEndian, BigEndian) => Zeros(toSize - n) + from[|from| - n..]
  }

  // ---------------------------------------------------------------------
  // Byte-string arithmetic

  lemma {:induction false} LeValueBound(s: seq<byte>)
    ensures LeValue(s) < Pow2(8 * |s|)
  {
    if |s| > 0 {
      LeValueBound(s[1..]);
      Pow2NextByte(|s| - 1);
    }
  }

  lemma {:induction false} LeValueZeros(s: seq<byte>, m: nat)
    ensures LeValue(s + Zeros(m)) == LeValue(s)
    decreases |s| + m
  {
    if |s| > 0 {
      assert (s + Zeros(m))[1..] == s[1..] + Zeros(m);
      LeValueZeros(s[1..], m);
    } else if m > 0 {
      assert (s + Zeros(m))[1..] == Zeros(m - 1);
      LeValueZeros([], m - 1);
      assert [] + Zeros(m - 1) == Zeros(m - 1);
    }
  }

  /** (b + 256 t) mod 256 p == b + 256 (t mod p) for a byte b. */
  lemma ByteMod(b: byte, t: nat, p: nat)
    requires p > 0
    ensures (b + 0x100 * t) % (0x100 * p) == b + 0x100 * (t % p)
  {
    var q, r := t / p, t % p;
    assert t == q * p + r;
    assert 0x100 * t == q * (0x100 * p) + 0x100 * r;
    assert b + 0x100 * r < 0x100 * p;
    DivModUnique(b + 0x100 * t, 0x100 * p, q, b + 0x100 * r);
  }

  /** The first k bytes of a little-endian string are its value mod 2^(8k). */
  lemma {:induction false} LeValuePrefix(s: seq<byte>, k: nat)
    requires k <= |s|
    ensures LeValue(s[..k]) == LeValue(s) % Pow2(8 * k)
  {
    if k == 0 {
      assert Pow2(0) == 1 by { Pow2Values(); }
    } else {
      var p := Pow2(8 * (k - 1));
      var t := LeValue(s[1..]);
      LeValuePrefix(s[1..], k - 1);
      assert s[..k][1..] == s[1..][..k - 1];
      assert LeValue(s[..k]) == s[0] + 0x100 * (t % p);
      Pow2NextByte(k - 1);
      ByteMod(s[0], t, p);
    }
  }

  lemma {:induction false} ReversedConcat<T>(a: seq<T>, b: seq<T>)
    ensures Reversed(a + b) == Reversed(b) + Reversed(a)
  {
    assert forall i :: 0 <= i < |a| + |b| ==> Reversed(a + b)[i] == (Reversed(b) + Reversed(a))[i];
  }

  lemma ReversedZeros(m: nat)
    ensures Reversed(Zeros(m)) == Zeros(m)
  {
    assert forall i :: 0 <= i < m ==> Reversed(Zeros(m))[i] == Zeros(m)[i];
  }

  /** The n low-order bytes of a string in either order, as a value. */
  lemma LowBytes(s: seq<byte>, n: nat, order: ByteOrder)
    requires n <= |s|
    ensures order == LittleEndian ==> LeValue(s[..n]) == Value(s, order) % Pow2(8 * n)
    ensures order == BigEndian ==> LeValue(Reversed(s[|s| - n..])) == Value(s, order) % Pow2(8 * n)
  {
    if order == LittleEndian {
      LeValuePrefix(s, n);
    } else {
      assert Reversed(s[|s| - n..]) == Reversed(s)[..n];
      LeValuePrefix(Reversed(s), n);
    }
  }

  /** What a zero-extended string of the low bytes denotes. */
  lemma ZeroExtended(from: seq<byte>, toSize: nat, fromOrder: ByteOrder, low: seq<byte>)
    requires |low| == Min(toSize, |from|)
    requires LeValue(low) == Value(from, fromOrder) % Pow2(8 * |low|)
    ensures LeValue(low + Zeros(toSize - |low|)) == Value(from, fromOrder) % Pow2(8 * toSize)
  {
    var n := |low|;
    LeValueZeros(low, toSize - n);
    if n < toSize {
      var v := Value(from, fromOrder);
      assert v < Pow2(8 * n) by {
        if fromOrder == LittleEndian { LeValueBound(from); } else { LeValueBound(Reversed(from)); }
      }
      DivModUnique(v, Pow2(8 * n), 0, v);
      Pow2Monotone(8 * n, 8 * toSize);
      DivModUnique(v, Pow2(8 * toSize), 0, v);
    }
  }

  /** Every branch keeps the low-order to_size bytes of the value and
      zero-extends a shorter source. */
  lemma CopiedValue(from: seq<byte>, toSize: nat, toOrder: ByteOrder, fromOrder: ByteOrder)
    ensures Value(Copied(from, toSize, toOrder, fromOrder), toOrder)
            == Value(from, fromOrder) % Pow2(8 * toSize)
  {
    var n := Min(toSize, |from|);
    var low := if fromOrder == LittleEndian then from[..n] else Reversed(from[|from| - n..]);
    LowBytes(from, n, fromOrder);
    ZeroExtended(from, toSize, fromOrder, low);
    var r := Copied(from, toSize, toOrder, fromOrder);
    if toOrder == BigEndian {
      var mid := if fromOrder == LittleEndian then Reversed(from[..n]) else from[|from| - n..];
      assert r == Zeros(toSize - n) + mid;
      ReversedConcat(Zeros(toSize - n), mid);
      ReversedZeros(toSize - n);
      ReversedReversed(from[..n]);
      assert Reversed(mid) == low;
    }
  }

  /** Between equal sizes, a same-order copy is the identity and a
      cross-order copy reverses the bytes. */
  lemma CopiedSameSize(from: seq<byte>, toOrder: ByteOrder, fromOrder: ByteOrder)
    ensures toOrder == fromOrder ==> Copied(from, |from|, toOrder, fromOrder) == from
    ensures toOrder != fromOrder ==> Copied(from, |from|, toOrder, fromOrder) == Reversed(from)
  {
    assert from[|from| - |from|..] == from[..|from|] == from;
    assert Zeros(0) == [];
  }

  // ---------------------------------------------------------------------
  // The copy on buffers

  /** s with the bytes from at on overwritten by piece. */
  function Spliced(s: seq<byte>, at: nat, piece: seq<byte>): (r: seq<byte>)
    requires at + |piece| <= |s|
    ensures |r| == |s|
  {
    s[..at] + piece + s[at + |piece|..]
  }

  /** A buffer that kept s around at .. at + |piece| and holds piece there
      is s spliced with piece. */
  lemma SplicedAt(s: seq<byte>, t: seq<byte>, at: nat, piece: seq<byte>)
    requires at + |piece| <= |s| == |t|
    requires t[..at] == s[..at] && t[at + |piece|..] == s[at + |piece|..]
    requires t[at..at + |piece|] == piece
    ensures t == Spliced(s, at, piece)
  {
    assert t == t[..at] + t[at..at + |piece|] + t[at + |piece|..];
  }

  /** Two splices side by side from the start of the buffer, in either
      order, leave their pieces followed by the rest of the buffer. */
  lemma SplicedTwice(s: seq<byte>, a: seq<byte>, b: seq<byte>)
    requires |a| + |b| <= |s|
    ensures Spliced(Spliced(s, 0, a), |a|, b) == a + b + s[|a| + |b|..]
    ensures Spliced(Spliced(s, |a|, b), 0, a) == a + b + s[|a| + |b|..]
  {
    var s1 := Spliced(s, 0, a);
    assert s1[..|a|] == a;
    assert s1[|a| + |b|..] == s[|a| + |b|..];
    var s2 := Spliced(s, |a|, b);
    assert s2[|a|..|a| + |b|] == b;
    assert s2[|a| + |b|..] == s[|a| + |b|..];
  }

  /** memset (to + at, 0, n). */
  method ZeroFill(to: array<byte>, at: nat, n: nat)
    requires at + n <= to.Length
    modifies to
    ensures to[..] == Spliced(old(to[..]), at, Zeros(n))
  {
    var i := 0;
    while i < n
      invariant 0 <= i <= n
      invariant forall k :: 0 <= k < at || at + n <= k < to.Length ==> to[k] == old(to[k])
      invariant forall k :: at <= k < at + i ==> to[k] == 0
    {
      to[at + i] := 0;
      i := i + 1;
    }
    assert to[at..at + n] == Zeros(n);
    assert to[..at] == old(to[..at]) && to[at + n..] == old(to[at + n..]);
    SplicedAt(old(to[..]), to[..], at, Zeros(n));
  }

  /** memcpy (to + at, from + fromAt, n). */
  method CopyForward(to: array<byte>, at: nat, from: array<byte>, fromAt: nat, n: nat)
    requires to != from && at + n <= to.Length && fromAt + n <= from.Length
    modifies to
    ensures to[..] == Spliced(old(to[..]), at, old(from[fromAt..fromAt + n]))
  {
    var i := 0;
    while i < n
      invariant 0 <= i <= n
      invariant forall k :: 0 <= k < at || at + n <= k < to.Length ==> to[k] == old(to[k])
      invariant forall k :: at <= k < at + i ==> to[k] == from[fromAt + (k - at)]
    {
      to[at + i] := from[fromAt + i];
      i := i + 1;
    }
    assert to[at..at + n] == from[fromAt..fromAt + n];
    assert to[..at] == old(to[..at]) && to[at + n..] == old(to[at + n..]);
    SplicedAt(old(to[..]), to[..], at, from[fromAt..fromAt + n]);
  }

  /** The byte-swapping loops: n bytes of from, last first, into to + at.
      The little-from-big loop walks to upwards and from downwards; the
      big-from-little loop walks them the other way, writing the same
      bytes to the same places. */
  method CopyReversed(to: array<byte>, at: nat, from: array<byte>, fromAt: nat, n: nat)
    requires to != from && at + n <= to.Length && fromAt + n <= from.Length
    modifies to
    ensures to[..] == Spliced(old(to[..]), at, Reversed(old(from[fromAt..fromAt + n])))
  {
    var i := 0;
    while i < n
      invariant 0 <= i <= n
      invariant forall k :: 0 <= k < at || at + n <= k < to.Length ==> to[k] == old(to[k])
      invariant forall k :: at <= k < at + i ==> to[k] == from[fromAt + n - 1 - (k - at)]
    {
      to[at + i] := from[fromAt + n - 1 - i];
      i := i + 1;
    }
    assert to[at..at + n] == Reversed(from[fromAt..fromAt + n]);
    assert to[..at] == old(to[..at]) && to[at + n..] == old(to[at + n..]);
    SplicedAt(old(to[..]), to[..], at, Reversed(from[fromAt..fromAt + n]));
  }

  /** The bytes a branch writes: the low-order n bytes of from, in the
      destination's order. */
  function Placed(from: seq<byte>, n: nat, toOrder: ByteOrder, fromOrder: ByteOrder): (r: seq<byte>)
    requires n <= |from|
    ensures |r| == n
  {
    var low := if fromOrder == LittleEndian then from[..n] else from[|from| - n..];
    if toOrder == fromOrder then low else Reversed(low)
  }

  /** Copied is the placed bytes and the zero padding, in the
      destination's order. */
  lemma CopiedIsPlaced(from: seq<byte>, toSize: nat, toOrder: ByteOrder, fromOrder: ByteOrder)
    ensures var n := Min(toSize, |from|);
      Copied(from, toSize, toOrder, fromOrder)
      == if toOrder == LittleEndian then Placed(from, n, toOrder, fromOrder) + Zeros(toSize - n)
         else Zeros(toSize - n) + Placed(from, n, toOrder, fromOrder)
  {
  }

  /** The memcpy or the byte-swapping loop of a branch, writing n bytes
      at to + at. */
  method CopyLowBytes(to: array<byte>, at: nat, from: array<byte>, n: nat,
                      toOrder: ByteOrder, fromOrder: ByteOrder)
    requires to != from && at + n <= to.Length && n <= from.Length
    modifies to
    ensures to[..] == Spliced(old(to[..]), at, Placed(old(from[..]), n, toOrder, fromOrder))
  {
    ghost var src := from[..];
    var fromSize := from.Length;
    var fromAt := if fromOrder == LittleEndian then 0 else fromSize - n;
    assert from[fromAt..fromAt + n] == if fromOrder == LittleEndian then src[..n] else src[fromSize - n..];
    if toOrder == fromOrder {
      CopyForward(to, at, from, fromAt, n);
    } else {
      CopyReversed(to, at, from, fromAt, n);
    }
  }

  /** The little-endian destination branches: the low bytes first, then
      zeros. */
  method CopyToLittle(to: array<byte>, from: array<byte>, fromOrder: ByteOrder)
    requires to != from
    modifies to
    ensures to[..] == Copied(from[..], to.Length, LittleEndian, fromOrder)
  {
    ghost var src, t0 := from[..], to[..];
    var toSize, fromSize := to.Length, from.Length;
    var n := Min(toSize, fromSize);
    CopyLowBytes(to, 0, from, n, LittleEndian, fromOrder);
    ZeroFill(to, n, toSize - n);
    SplicedTwice(t0, Placed(src, n, LittleEndian, fromOrder), Zeros(toSize - n));
    assert t0[toSize..] == [];
    CopiedIsPlaced(src, toSize, LittleEndian, fromOrder);
    assert from[..] == src;
  }

  /** The big-endian destination branches: zeros, then the low bytes. */
  method CopyToBig(to: array<byte>, from: array<byte>, fromOrder: ByteOrder)
    requires to != from
    modifies to
    ensures to[..] == Copied(from[..], to.Length, BigEndian, fromOrder)
  {
    ghost var src, t0 := from[..], to[..];
    var toSize, fromSize := to.Length, from.Length;
    var n := Min(toSize, fromSize);
    CopyLowBytes(to, toSize - n, from, n, BigEndian, fromOrder);
    ZeroFill(to, 0, toSize - n);
    SplicedTwice(t0, Zeros(toSize - n), Placed(src, n, BigEndian, fromOrder));
    assert t0[toSize..] == [];
    CopiedIsPlaced(src, toSize, BigEndian, fromOrder);
    assert from[..] == src;
  }

  /** arv_copy_memory_with_endianess: NULL buffers leave the destination
      alone; otherwise it holds Copied of the source. */
  method CopyMemoryWithEndianness(to: array?<byte>, toOrder: ByteOrder,
                                  from: array?<byte>, fromOrder: ByteOrder)
    requires to == null || to != from
    modifies to
    ensures to != null && from != null ==> to[..] == Copied(from[..], to.Length, toOrder, fromOrder)
    ensures to != null && from == null ==> to[..] == old(to[..])
  {
    if to == null || from == null {
      return;
    }
    if toOrder == LittleEndian {
      CopyToLittle(to, from, fromOrder);
    } else {
      CopyToBig(to, from, fromOrder);
    }
  }
}
