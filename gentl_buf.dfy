// The GenTL info-buffer helpers (src/gentl/private-buf.c): the size of a
// value of an INFO_DATATYPE, and the copy of that value into a buffer the
// caller passes with its size, as GenTL's Get*Info functions return them.
//
// Memory is modelled by values: the source is the sequence of bytes at
// src, the destination an array of bytes, and the size_t and
// INFO_DATATYPE out-parameters small cells that may be absent (NULL).
// The platform is a 64-bit one: pointers, size_t and ptrdiff_t take 8
// bytes. The warnings and traces the code logs are left out.
module GentlBuf {
  import opened Common

  /** INFO_DATATYPE (GenTL_v1_6.h); Custom holds any other code, such as
      those from INFO_DATATYPE_CUSTOM_ID on (see OfCode and WellSpelt). */
  datatype InfoDatatype =
    | Unknown | String | StringList | Int16 | UInt16 | Int32 | UInt32 | Int64 | UInt64
    | Float64 | Ptr | Bool8 | SizeT | Buffer | PtrDiff | Custom(code: int32)

  /** The INFO_DATATYPE of an int32 code: the named constants 0 to 14 of
      the enumeration, and Custom for every other code. A named code is
      thus never spelt as Custom. */
  function OfCode(c: int32): (t: InfoDatatype)
    ensures t.Custom? <==> !(0 <= c <= 14)
    ensures t.Custom? ==> t.code == c
  {
    if c == 0 then Unknown else if c == 1 then String else if c == 2 then StringList
    else if c == 3 then Int16 else if c == 4 then UInt16 else if c == 5 then Int32
    else if c == 6 then UInt32 else if c == 7 then Int64 else if c == 8 then UInt64
    else if c == 9 then Float64 else if c == 10 then Ptr else if c == 11 then Bool8
    else if c == 12 then SizeT else if c == 13 then Buffer else if c == 14 then PtrDiff
    else Custom(c)
  }

  /** The code of an INFO_DATATYPE. */
  function Code(t: InfoDatatype): int32
  {
    match t
    case Unknown => 0 case String => 1 case StringList => 2 case Int16 => 3
    case UInt16 => 4 case Int32 => 5 case UInt32 => 6 case Int64 => 7
    case UInt64 => 8 case Float64 => 9 case Ptr => 10 case Bool8 => 11
    case SizeT => 12 case Buffer => 13 case PtrDiff => 14 case Custom(c) => c
  }

  /** The datatypes OfCode builds: Custom only for the codes outside the
      named range. */
  predicate WellSpelt(t: InfoDatatype)
  {
    t.Custom? ==> !(0 <= t.code <= 14)
  }

  /** Every code reads back as itself, and every well-spelt datatype. */
  lemma CodeRoundTrip(c: int32)
    ensures WellSpelt(OfCode(c)) && Code(OfCode(c)) == c
  {
  }

  lemma OfCodeRoundTrip(t: InfoDatatype)
    requires WellSpelt(t)
    ensures OfCode(Code(t)) == t
  {
  }

  /** The GC_ERROR codes these functions return. */
  datatype GcError = Success | NotImplemented | InvalidParameter | BufferTooSmall

  function ErrorCode(e: GcError): (c: int32)
    ensures c == 0 <==> e == Success
  {
    match e
    case Success => 0
    case NotImplemented => -1003
    case InvalidParameter => -1009
    case BufferTooSmall => -1016
  }

  /** sizeof (void *), sizeof (size_t) and sizeof (ptrdiff_t). */
  const POINTER_SIZE: nat := 8

  // ---------------------------------------------------------------------
  // C strings and string lists in memory

  predicate HasNul(s: seq<byte>, i: nat)
  {
    exists k :: i <= k < |s| && s[k] == 0
  }

  /** strlen (s + i). */
  function StrLen(s: seq<byte>, i: nat): (n: nat)
    requires HasNul(s, i)
    ensures i + n < |s| && s[i + n] == 0
    ensures forall k | i <= k < i + n :: s[k] != 0
    decreases |s| - i
  {
    if s[i] == 0 then 0 else 1 + StrLen(s, i + 1)
  }

  /** A STRINGLIST at i: NUL-terminated strings up to an empty one. */
  predicate IsStringList(s: seq<byte>, i: nat)
    decreases |s| - i
  {
    HasNul(s, i) && (s[i] == 0 || IsStringList(s, i + StrLen(s, i) + 1))
  }

  /** Where the empty string that ends the list at i starts. */
  function StringListEnd(s: seq<byte>, i: nat): (e: nat)
    requires IsStringList(s, i)
    ensures i <= e < |s| && s[e] == 0
    decreases |s| - i
  {
    if s[i] == 0 then i else StringListEnd(s, i + StrLen(s, i) + 1)
  }

  /** The bytes of a list of strings laid out as a STRINGLIST: each string
      followed by a NUL, and one more NUL at the end. */
  function Encode(list: seq<seq<byte>>): (s: seq<byte>)
    ensures |s| >= 1
  {
    if |list| == 0 then [0] else list[0] + [0] + Encode(list[1..])
  }

  /** Strings a STRINGLIST can hold: not empty, and without a NUL. */
  predicate ValidStrings(list: seq<seq<byte>>)
  {
    forall i | 0 <= i < |list| :: |list[i]| > 0 && 0 !in list[i]
  }

  // ---------------------------------------------------------------------
  // gentl_buf_size

  /** The bytes a value of the type may be read from: a NUL-terminated
      string, a string list, or as many bytes as the type takes. */
  predicate Readable(t: InfoDatatype, src: seq<byte>)
  {
    match t
    case String => HasNul(src, 0)
    case StringList => IsStringList(src, 0)
    case _ => |src| >= FixedSize(t)
  }

  /** The size of the types whose size does not depend on the value. */
  function FixedSize(t: InfoDatatype): nat
  {
    match t
    case Int16 | UInt16 => 2
    case Int32 | UInt32 => 4
    case Int64 | UInt64 | Float64 => 8
    case Ptr | SizeT | PtrDiff => POINTER_SIZE
    case Bool8 => 1
    case _ => 0
  }

  /** gentl_buf_size, as written: a string takes strlen + 1 bytes, a
      string list the bytes up to its final empty string, UNKNOWN, BUFFER
      and the other codes none. */
  function BufSizeOf(t: InfoDatatype, src: seq<byte>): nat
    requires Readable(t, src)
  {
    match t
    case String => StrLen(src, 0) + 1
    case StringList => StringListEnd(src, 0)
    case _ => FixedSize(t)
  }

  /** The string list loop of gentl_buf_size: from string to string until
      an empty one. */
  method StringListSize(src: seq<byte>) returns (n: nat)
    requires IsStringList(src, 0)
    ensures n == StringListEnd(src, 0)
  {
    var p := 0;
    while src[p] != 0
      invariant IsStringList(src, p) && StringListEnd(src, p) == StringListEnd(src, 0)
      decreases |src| - p
    {
      p := p + StrLen(src, p) + 1;
    }
    n := p;
  }

  /** gentl_buf_size. */
  method BufSize(t: InfoDatatype, src: seq<byte>) returns (n: nat)
    requires Readable(t, src)
    ensures n == BufSizeOf(t, src)
  {
    match t {
      case String => n := StrLen(src, 0) + 1;
      case StringList => n := StringListSize(src);
      case _ => n := FixedSize(t);
    }
  }

  // ---------------------------------------------------------------------
  // gentl_to_buf

  /** A size_t and an INFO_DATATYPE the caller passes by address. */
  class SizeCell {
    var value: nat
    constructor (v: nat)
      ensures value == v
    {
      value := v;
    }
  }

  class TypeCell {
    var value: InfoDatatype
    constructor (t: InfoDatatype)
      ensures value == t
    {
      value := t;
    }
  }

  /** What gentl_to_buf returns once the buffer is large enough: UNKNOWN
      is refused, STRINGLIST, BUFFER and the other codes are not
      implemented. */
  function CopyResult(t: InfoDatatype): (e: GcError)
    ensures e == InvalidParameter <==> t == Unknown
    ensures e == NotImplemented <==> t == StringList || t == Buffer || t.Custom?
  {
    match t
    case Unknown => InvalidParameter
    case StringList | Buffer | Custom(_) => NotImplemented
    case _ => Success
  }

  /** The types gentl_to_buf copies into the buffer, as written: PTR is
      not one of them, its case assigns the local dst only. */
  predicate CopiesAsWritten(t: InfoDatatype)
  {
    CopyResult(t) == Success && t != Ptr
  }

  predicate CopiesCorrected(t: InfoDatatype)
  {
    CopyResult(t) == Success
  }

  /** The buffer after the copy: the first n bytes of the source, then what
      the buffer held. */
  function Filled(d: seq<byte>, src: seq<byte>, n: nat): (r: seq<byte>)
    requires n <= |src| && n <= |d|
    ensures |r| == |d| && r[..n] == src[..n] && r[n..] == d[n..]
  {
    src[..n] + d[n..]
  }

  /** gentl_to_buf. The destination is the caller's buffer of *sz bytes. */
  method ToBuf(t: InfoDatatype, dst: array?<byte>, src: seq<byte>, sz: SizeCell?, piType: TypeCell?)
    returns (err: GcError)
    requires Readable(t, src)
    requires dst != null && sz != null ==> dst.Length >= sz.value
    modifies dst, sz, piType
    ensures sz == null ==> err == InvalidParameter && (piType != null ==> unchanged(piType))
    ensures dst != null && (sz == null || err != Success || !CopiesAsWritten(t)) ==> unchanged(dst)
    ensures sz != null && piType != null ==> piType.value == t
    ensures sz != null && dst == null ==> err == Success && sz.value == BufSizeOf(t, src)
    ensures sz != null && dst != null && BufSizeOf(t, src) > old(sz.value) ==>
              err == BufferTooSmall && sz.value == old(sz.value)
    ensures sz != null && dst != null && BufSizeOf(t, src) <= old(sz.value) ==>
              err == CopyResult(t) && sz.value == BufSizeOf(t, src)
    ensures sz != null && dst != null && BufSizeOf(t, src) <= old(sz.value) && CopiesAsWritten(t) ==>
              dst[..] == Filled(old(dst[..]), src, BufSizeOf(t, src))
  {
    if sz == null {
      return InvalidParameter;
    }
    if piType != null {
      piType.value := t;
    }
    var szSrc := BufSize(t, src);
    if dst == null {
      sz.value := szSrc;
      return Success;
    }
    if szSrc > sz.value {
      return BufferTooSmall;
    }
    sz.value := szSrc;
    err := CopyResult(t);
    if CopiesAsWritten(t) {
      CopyInto(dst, src, szSrc);
    }
  }

  /** gentl_to_buf with the PTR case corrected to store the pointer
      through dst as the other fixed types are stored: every type reported
      as copied is copied, and a PTR value's 8 bytes reach the buffer. */
  method ToBufCorrected(t: InfoDatatype, dst: array?<byte>, src: seq<byte>, sz: SizeCell?, piType: TypeCell?)
    returns (err: GcError)
    requires Readable(t, src)
    requires dst != null && sz != null ==> dst.Length >= sz.value
    modifies dst, sz, piType
    ensures sz == null ==> err == InvalidParameter && (piType != null ==> unchanged(piType))
    ensures dst != null && (sz == null || err != Success) ==> unchanged(dst)
    ensures sz != null && piType != null ==> piType.value == t
    ensures sz != null && dst == null ==> err == Success && sz.value == BufSizeOf(t, src)
    ensures sz != null && dst != null && BufSizeOf(t, src) > old(sz.value) ==>
              err == BufferTooSmall && sz.value == old(sz.value)
    ensures sz != null && dst != null && BufSizeOf(t, src) <= old(sz.value) ==>
              err == CopyResult(t) && sz.value == BufSizeOf(t, src)
    ensures sz != null && dst != null && err == Success ==>
              dst[..] == Filled(old(dst[..]), src, BufSizeOf(t, src))
    ensures t == Ptr && sz != null && dst != null && err == Success ==>
              sz.value == POINTER_SIZE && dst[..POINTER_SIZE] == src[..POINTER_SIZE]
  {
    if sz == null {
      return InvalidParameter;
    }
    if piType != null {
      piType.value := t;
    }
    var szSrc := BufSize(t, src);
    if dst == null {
      sz.value := szSrc;
      return Success;
    }
    if szSrc > sz.value {
      return BufferTooSmall;
    }
    sz.value := szSrc;
    err := CopyResult(t);
    if CopiesCorrected(t) {
      CopyInto(dst, src, szSrc);
    }
  }

  /** strcpy, or the assignment through a typed pointer: n bytes of the
      source at the start of the buffer. */
  method CopyInto(dst: array<byte>, src: seq<byte>, n: nat)
    requires n <= |src| && n <= dst.Length
    modifies dst
    ensures dst[..] == Filled(old(dst[..]), src, n)
  {
    ghost var before := dst[..];
    var i := 0;
    while i < n
      invariant 0 <= i <= n
      invariant forall k | 0 <= k < i :: dst[k] == src[k]
      invariant forall k | i <= k < dst.Length :: dst[k] == before[k]
    {
      dst[i] := src[i];
      i := i + 1;
    }
    assert dst[..] == Filled(before, src, n);
  }

  // ---------------------------------------------------------------------
  // Properties

  /** The sizes of the fixed types: 2, 4 and 8 bytes for the integers and
      doubles, 1 for BOOL8, 8 for pointers and sizes, none for UNKNOWN,
      BUFFER and the other codes. */
  lemma FixedSizes(src: seq<byte>)
    requires |src| >= 8
    ensures BufSizeOf(Int16, src) == 2 && BufSizeOf(UInt16, src) == 2
    ensures BufSizeOf(Int32, src) == 4 && BufSizeOf(UInt32, src) == 4
    ensures BufSizeOf(Int64, src) == 8 && BufSizeOf(UInt64, src) == 8 && BufSizeOf(Float64, src) == 8
    ensures BufSizeOf(Bool8, src) == 1
    ensures BufSizeOf(Ptr, src) == 8 && BufSizeOf(SizeT, src) == 8 && BufSizeOf(PtrDiff, src) == 8
    ensures BufSizeOf(Unknown, src) == 0 && BufSizeOf(Buffer, src) == 0
    ensures forall c: int32 :: BufSizeOf(Custom(c), src) == 0
  {
  }

  /** strlen of a string laid out at position |p|. */
  lemma {:induction false} StrLenOf(p: seq<byte>, str: seq<byte>, rest: seq<byte>)
    requires 0 !in str
    ensures HasNul(p + str + [0] + rest, |p|)
    ensures StrLen(p + str + [0] + rest, |p|) == |str|
    decreases |str|
  {
    var s := p + str + [0] + rest;
    assert s[|p| + |str|] == 0;
    if |str| > 0 {
      assert s[|p|] == str[0];
      var p' := p + [str[0]];
      assert s == p' + str[1..] + [0] + rest;
      StrLenOf(p', str[1..], rest);
    }
  }

  /** A string takes its length and its NUL. */
  lemma StringSize(str: seq<byte>, rest: seq<byte>)
    requires 0 !in str
    ensures Readable(String, str + [0] + rest)
    ensures BufSizeOf(String, str + [0] + rest) == |str| + 1
  {
    StrLenOf([], str, rest);
    assert [] + str + [0] + rest == str + [0] + rest;
  }

  /** The list encoding is read back as a string list, whose final empty
      string is its last byte. */
  lemma EncodedStringList(p: seq<byte>, list: seq<seq<byte>>, rest: seq<byte>)
    requires ValidStrings(list)
    ensures IsStringList(p + Encode(list) + rest, |p|)
    ensures StringListEnd(p + Encode(list) + rest, |p|) == |p| + |Encode(list)| - 1
  {
    var s := p + Encode(list) + rest;
    assert s[|p|..|p| + |Encode(list)|] == Encode(list);
    EncodedAt(s, |p|, list);
  }

  /** The same, for the encoding found at position i of s. */
  lemma {:induction false} EncodedAt(s: seq<byte>, i: nat, list: seq<seq<byte>>)
    requires ValidStrings(list)
    requires i + |Encode(list)| <= |s| && s[i..i + |Encode(list)|] == Encode(list)
    ensures IsStringList(s, i)
    ensures StringListEnd(s, i) == i + |Encode(list)| - 1
    decreases |list|
  {
    var enc := Encode(list);
    if |list| == 0 {
      assert s[i] == enc[0];
    } else {
      var str, tail := list[0], list[1..];
      var n := |str|;
      assert enc == str + [0] + Encode(tail);
      assert ValidStrings(tail) by {
        forall j | 0 <= j < |tail|
          ensures |tail[j]| > 0 && 0 !in tail[j]
        {
          assert tail[j] == list[j + 1];
        }
      }
      forall k | i <= k < i + n
        ensures s[k] != 0
      {
        assert s[k] == enc[k - i] == str[k - i];
      }
      assert s[i + n] == enc[n] == 0;
      assert s[i + n + 1..i + |enc|] == Encode(tail) by {
        assert s[i + n + 1..i + |enc|] == enc[n + 1..];
      }
      EncodedAt(s, i + n + 1, tail);
      SkipString(s, i, n);
    }
  }

  /** A string list at i that starts with a string of n bytes continues
      after it, and ends where the rest of the list ends. */
  lemma SkipString(s: seq<byte>, i: nat, n: nat)
    requires 0 < n && i + n < |s| && s[i + n] == 0
    requires forall k | i <= k < i + n :: s[k] != 0
    requires IsStringList(s, i + n + 1)
    ensures IsStringList(s, i)
    ensures StringListEnd(s, i) == StringListEnd(s, i + n + 1)
  {
    assert HasNul(s, i);
    assert StrLen(s, i) == n;
  }

  /** As written, the size of a string list leaves out its final NUL: the
      list of the strings l is one byte longer than the size reported. */
  lemma StringListSizeAsWritten(list: seq<seq<byte>>, rest: seq<byte>)
    requires ValidStrings(list)
    ensures Readable(StringList, Encode(list) + rest)
    ensures BufSizeOf(StringList, Encode(list) + rest) == |Encode(list)| - 1
  {
    EncodedStringList([], list, rest);
    assert [] + Encode(list) + rest == Encode(list) + rest;
  }

  /** The size of a string list counting its final NUL, as the GenTL
      header defines the type. */
  function StringListSizeCorrected(src: seq<byte>): (n: nat)
    requires IsStringList(src, 0)
    ensures 1 <= n <= |src| && src[n - 1] == 0
  {
    StringListEnd(src, 0) + 1
  }

  /** The corrected size is exactly the bytes of the encoded list. */
  lemma StringListSizeCorrectedExact(list: seq<seq<byte>>, rest: seq<byte>)
    requires ValidStrings(list)
    ensures IsStringList(Encode(list) + rest, 0)
    ensures StringListSizeCorrected(Encode(list) + rest) == |Encode(list)|
  {
    StringListSizeAsWritten(list, rest);
  }

  /** The two strings "a" and "b": 5 bytes, 4 of them reported. */
  lemma StringListExample()
    ensures Readable(StringList, [97, 0, 98, 0, 0])
    ensures BufSizeOf(StringList, [97, 0, 98, 0, 0]) == 4
    ensures StringListSizeCorrected([97, 0, 98, 0, 0]) == 5
  {
    var list: seq<seq<byte>> := [[97], [98]];
    assert Encode(list) == [97, 0, 98, 0, 0] by {
      assert Encode(list[1..][1..]) == [0];
      assert Encode(list[1..]) == [98, 0, 0];
    }
    StringListSizeAsWritten(list, []);
    StringListSizeCorrectedExact(list, []);
    assert Encode(list) + [] == Encode(list);
  }

  /** As written, a PTR value is reported as 8 bytes copied with success
      while the buffer is left as it was. */
  lemma PtrAsWritten(src: seq<byte>)
    requires |src| >= POINTER_SIZE
    ensures CopyResult(Ptr) == Success && BufSizeOf(Ptr, src) == 8 && !CopiesAsWritten(Ptr)
  {
  }


  /** The only type the written code reports as copied without copying it
      is PTR. */
  lemma AsWrittenMissesOnlyPtr(t: InfoDatatype)
    ensures CopiesCorrected(t) && !CopiesAsWritten(t) <==> t == Ptr
  {
  }
}
