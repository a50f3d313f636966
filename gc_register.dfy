// ArvGcRegister (arvgcregister.c): a GenICam register node. It keeps a
// cache of the register's bytes, the list of address contributions, and
// the byte order and bit range of an integer stored in the register.
//
// The pure part is the masked access of MaskedIntReg-type registers: the
// mask ((1 << (msb - lsb + 1)) - 1) << lsb, the read (v & mask) >> lsb and
// the write ((v << lsb) & mask) | (cur & ~mask). MaskedGetField proves the
// read extracts a bit field, BitOfMaskedSet that the write changes only
// the bits inside the mask, and MaskedRoundTrip and MaskedSetOfGet that
// reading back what was written (and writing back what was read) are
// faithful.
//
// The class keeps the cache as a byte array: get and set copy between it
// and the caller's buffer, cut or zero-padded to the other's size; the
// integer accessors go through an 8-byte image of a gint64 copied with
// arv_copy_memory_with_endianess. The host is little-endian.
module GcRegister {
  import opened Common
  import opened Bits
  import opened Endianness

  /** ARV_GC_REGISTER_TYPE_*: which constructor made the node. */
  datatype RegisterType = Register | Integer | MaskedInteger | Float | String

  /** A GValue holding an address or a length: an int64 constant, or the
      name of the node (pAddress, pLength) whose value it is. */
  datatype Entry = Constant(value: int64) | Reference(name: string)

  /** The child elements add_element understands; atoi, strtoull and the
      string comparisons are done by the caller. A NULL content is None;
      SingleBit is the Bit element. */
  datatype Element =
    | Address(address: uint64)
    | AddressNode(node: string)
    | Length(length: uint64)
    | LengthNode(node: string)
    | Endianess(content: Option<string>)
    | Lsb(lsbContent: Option<int32>)
    | Msb(msbContent: Option<int32>)
    | SingleBit(bitContent: Option<int32>)
    | Other

  // ---------------------------------------------------------------------
  // The mask (little-endian host)

  /** msb - lsb on guint: wraps around when lsb > msb. */
  function Span(lsb: uint32, msb: uint32): uint32
  {
    ToU32(msb - lsb)
  }

  /** How many bits the mask keeps above lsb: msb - lsb + 1, or all 64
      when the span is 63 or more. */
  function FieldWidth(lsb: uint32, msb: uint32): nat
  {
    if Span(lsb, msb) < 63 then Span(lsb, msb) + 1 else 64
  }

  /** How many low bits of a value a masked write can store: the field,
      cut at bit 63 of the register. */
  function SettableWidth(lsb: uint32, msb: uint32): nat
  {
    Min(FieldWidth(lsb, msb), 64 - lsb % 64)
  }

  function Mask(lsb: uint32, msb: uint32): uint64
  {
    if Span(lsb, msb) < 63 then ShiftLeft64(Pow2(Span(lsb, msb) + 1) - 1, lsb) else UINT64_MAX
  }

  /** Bit i is inside the mask. */
  predicate InMask(lsb: uint32, msb: uint32, i: nat)
  {
    if Span(lsb, msb) < 63 then lsb % 64 <= i < lsb % 64 + Span(lsb, msb) + 1 else true
  }

  /** The masked read: (v & mask) >> lsb. */
  function MaskedGet(v: uint64, lsb: uint32, msb: uint32): uint64
  {
    AndBitsBound(v, Mask(lsb, msb), 64);
    Pow2At64();
    ShiftRight64(AndBits(v, Mask(lsb, msb), 64), lsb)
  }

  /** The masked write: ((v << lsb) & mask) | (cur & ~mask). */
  function MaskedSet(cur: uint64, v: uint64, lsb: uint32, msb: uint32): uint64
  {
    var mask := Mask(lsb, msb);
    OrBitsBound(AndBits(ShiftLeft64(v, lsb), mask, 64), AndBits(cur, Not64(mask), 64), 64);
    Pow2At64();
    OrBits(AndBits(ShiftLeft64(v, lsb), mask, 64), AndBits(cur, Not64(mask), 64), 64)
  }

  /** The mask has exactly the bits InMask names. */
  lemma BitOfMask(lsb: uint32, msb: uint32, i: nat)
    requires i < 64
    ensures Bit(Mask(lsb, msb), i) == if InMask(lsb, msb, i) then 1 else 0
  {
    var d := Span(lsb, msb);
    if d < 63 {
      BitOfShiftLeft(Pow2(d + 1) - 1, lsb, i);
      if lsb % 64 <= i {
        BitOfLowMask(d + 1, i - lsb % 64);
      }
    } else {
      Pow2At64();
      BitOfLowMask(64, i);
    }
  }

  /** Bit i of the masked read is bit i + lsb of the register inside the
      field, and 0 above it. */
  lemma BitOfMaskedGet(v: uint64, lsb: uint32, msb: uint32, i: nat)
    requires i < 64
    ensures Bit(MaskedGet(v, lsb, msb), i)
            == if i < FieldWidth(lsb, msb) then Bit(v, i + lsb % 64) else 0
  {
    var l := lsb % 64;
    var a := AndBits(v, Mask(lsb, msb), 64);
    AndBitsBound(v, Mask(lsb, msb), 64);
    Pow2At64();
    BitOfShiftRight(a, lsb, i);
    BitOfAnd(v, Mask(lsb, msb), 64, i + l);
    if i + l < 64 {
      BitOfMask(lsb, msb, i + l);
    } else {
      BitAbove(v, 64, i + l);
    }
  }

  /** The masked read is the bit field of FieldWidth bits at lsb. */
  lemma MaskedGetField(v: uint64, lsb: uint32, msb: uint32)
    ensures MaskedGet(v, lsb, msb) == (v / Pow2(lsb % 64)) % Pow2(FieldWidth(lsb, msb))
  {
    var l, w := lsb % 64, FieldWidth(lsb, msb);
    var field := (v / Pow2(l)) % Pow2(w);
    forall i | 0 <= i < 64
      ensures Bit(MaskedGet(v, lsb, msb), i) == Bit(field, i)
    {
      BitOfMaskedGet(v, lsb, msb, i);
      BitOfRemainder(v / Pow2(l), w, i);
      BitOfQuotient(v, l, i);
    }
    Pow2At64();
    Pow2Monotone(w, 64);
    BitsEqual(MaskedGet(v, lsb, msb), field, 64);
  }

  /** Inside the mask the write stores v shifted to lsb; outside it keeps
      the current bits. */
  lemma BitOfMaskedSet(cur: uint64, v: uint64, lsb: uint32, msb: uint32, i: nat)
    requires i < 64
    ensures Bit(MaskedSet(cur, v, lsb, msb), i)
            == if !InMask(lsb, msb, i) then Bit(cur, i)
               else if lsb % 64 <= i then Bit(v, i - lsb % 64) else 0
  {
    var mask := Mask(lsb, msb);
    var high, low := AndBits(ShiftLeft64(v, lsb), mask, 64), AndBits(cur, Not64(mask), 64);
    BitOfOr(high, low, 64, i);
    BitOfAnd(ShiftLeft64(v, lsb), mask, 64, i);
    BitOfAnd(cur, Not64(mask), 64, i);
    BitOfNot(mask, i);
    BitOfMask(lsb, msb, i);
    BitOfShiftLeft(v, lsb, i);
  }

  /** Reading back a masked write gives the value's SettableWidth low
      bits. */
  lemma MaskedRoundTrip(cur: uint64, v: uint64, lsb: uint32, msb: uint32)
    ensures MaskedGet(MaskedSet(cur, v, lsb, msb), lsb, msb) == v % Pow2(SettableWidth(lsb, msb))
  {
    var s := MaskedSet(cur, v, lsb, msb);
    var l, w := lsb % 64, SettableWidth(lsb, msb);
    forall i | 0 <= i < 64
      ensures Bit(MaskedGet(s, lsb, msb), i) == Bit(v % Pow2(w), i)
    {
      BitOfMaskedGet(s, lsb, msb, i);
      BitOfRemainder(v, w, i);
      if i + l < 64 {
        BitOfMaskedSet(cur, v, lsb, msb, i + l);
      } else {
        Pow2At64();
        BitAbove(s, 64, i + l);
      }
    }
    Pow2At64();
    Pow2Monotone(w, 64);
    BitsEqual(MaskedGet(s, lsb, msb), v % Pow2(w), 64);
  }

  /** Writing back the field just read leaves the register as it was,
      for a mask of fewer than 64 bits. */
  lemma MaskedSetOfGet(cur: uint64, lsb: uint32, msb: uint32)
    requires Span(lsb, msb) < 63
    ensures MaskedSet(cur, MaskedGet(cur, lsb, msb), lsb, msb) == cur
  {
    var g := MaskedGet(cur, lsb, msb);
    var l := lsb % 64;
    forall i | 0 <= i < 64
      ensures Bit(MaskedSet(cur, g, lsb, msb), i) == Bit(cur, i)
    {
      BitOfMaskedSet(cur, g, lsb, msb, i);
      if InMask(lsb, msb, i) {
        BitOfMaskedGet(cur, lsb, msb, i - l);
      }
    }
    Pow2At64();
    BitsEqual(MaskedSet(cur, g, lsb, msb), cur, 64);
  }

  // ---------------------------------------------------------------------
  // Values of the register

  /** The bit positions the masked accessors use: the register's own when
      it is stored in the host's (little-endian) order, swapped otherwise. */
  function HostBits(order: ByteOrder, lsb: uint32, msb: uint32): (r: (uint32, uint32))
    ensures order == LittleEndian ==> r == (lsb, msb)
    ensures order == BigEndian ==> r == (msb, lsb)
  {
    if order == LittleEndian then (lsb, msb) else (msb, lsb)
  }

  /** The memory image of a guint64 on a little-endian host, cut to n
      bytes. */
  function LeBytes(x: nat, n: nat): (r: seq<byte>)
    ensures |r| == n
  {
    if n == 0 then [] else [x % 0x100] + LeBytes(x / 0x100, n - 1)
  }

  lemma {:induction false} LeBytesValue(x: nat, n: nat)
    ensures LeValue(LeBytes(x, n)) == x % Pow2(8 * n)
  {
    if n == 0 {
      assert Pow2(0) == 1;
    } else {
      var p := Pow2(8 * (n - 1));
      LeBytesValue(x / 0x100, n - 1);
      assert LeBytes(x, n)[1..] == LeBytes(x / 0x100, n - 1);
      Pow2NextByte(n - 1);
      ByteMod(x % 0x100, x / 0x100, p);
    }
  }

  /** What get_integer_value returns for a cache content: the cache read
      as an unsigned number in its byte order, cut to 64 bits, then
      FieldValue. */
  function IntegerValue(cache: seq<byte>, order: ByteOrder, kind: RegisterType,
                        lsb: uint32, msb: uint32): int64
  {
    FieldValue(ToU64(Value(cache, order)), order, kind, lsb, msb)
  }

  /** A 64-bit register content as get_integer_value returns it: masked
      for a masked-integer register, and stored in a gint64. */
  function FieldValue(u: uint64, order: ByteOrder, kind: RegisterType, lsb: uint32, msb: uint32): int64
  {
    var (l, m) := HostBits(order, lsb, msb);
    ToI64(if kind == MaskedInteger then MaskedGet(u, l, m) else u)
  }

  /** The 64-bit pattern set_integer_value copies into the cache: the
      value itself, or for a masked-integer register the current content
      with the field replaced. */
  function StoredPattern(cache: seq<byte>, order: ByteOrder, kind: RegisterType,
                         lsb: uint32, msb: uint32, v: int64): uint64
  {
    var (l, m) := HostBits(order, lsb, msb);
    if kind == MaskedInteger then MaskedSet(ToU64(Value(cache, order)), ToU64(v), l, m) else ToU64(v)
  }

  /** The cache after set_integer_value: the gint64 image of the pattern
      copied into the register's bytes in its order. */
  function StoredCache(cache: seq<byte>, order: ByteOrder, kind: RegisterType,
                       lsb: uint32, msb: uint32, v: int64): seq<byte>
  {
    Copied(LeBytes(StoredPattern(cache, order, kind, lsb, msb, v), 8), |cache|, order, LittleEndian)
  }

  /** The image of a pattern copied into n bytes denotes the pattern cut
      to n bytes. */
  lemma ImageValue(p: uint64, n: nat, order: ByteOrder)
    ensures Value(Copied(LeBytes(p, 8), n, order, LittleEndian), order) == p % Pow2(8 * n)
  {
    CopiedValue(LeBytes(p, 8), n, order, LittleEndian);
    LeBytesValue(p, 8);
    Pow2At64();
    SmallRemainder(p, 64);
  }

  /** Reading back an image copied into 8 bytes or more sees the whole
      pattern. */
  lemma WideReadBack(p: uint64, n: nat, order: ByteOrder, kind: RegisterType, lsb: uint32, msb: uint32)
    requires n >= 8
    ensures IntegerValue(Copied(LeBytes(p, 8), n, order, LittleEndian), order, kind, lsb, msb)
            == FieldValue(p, order, kind, lsb, msb)
  {
    var c := Copied(LeBytes(p, 8), n, order, LittleEndian);
    ImageValue(p, n, order);
    Pow2At64();
    Pow2Monotone(64, 8 * n);
    SmallRemainder(p, 8 * n);
    assert Value(c, order) == p;
    assert ToU64(Value(c, order)) == p;
  }

  /** Reading back an image copied into fewer than 8 bytes of a plain
      integer register sees the pattern cut to those bytes. */
  lemma NarrowReadBack(p: uint64, n: nat, order: ByteOrder, kind: RegisterType, lsb: uint32, msb: uint32)
    requires n < 8 && kind != MaskedInteger
    ensures IntegerValue(Copied(LeBytes(p, 8), n, order, LittleEndian), order, kind, lsb, msb)
            == ToI64(p % Pow2(8 * n))
  {
    var c := Copied(LeBytes(p, 8), n, order, LittleEndian);
    var q := p % Pow2(8 * n);
    ImageValue(p, n, order);
    Pow2At64();
    Pow2Monotone(8 * n, 64);
    assert Value(c, order) == q;
    assert q < 0x1_0000_0000_0000_0000;
    assert ToU64(Value(c, order)) == q;
  }

  /** For a register of 8 bytes or more, get_integer_value after
      set_integer_value gives the value back, or for a masked-integer
      register its low SettableWidth bits. */
  lemma IntegerRoundTrip(cache: seq<byte>, order: ByteOrder, kind: RegisterType,
                         lsb: uint32, msb: uint32, v: int64)
    requires |cache| >= 8
    ensures var (l, m) := HostBits(order, lsb, msb);
            IntegerValue(StoredCache(cache, order, kind, lsb, msb, v), order, kind, lsb, msb)
            == if kind == MaskedInteger then ToI64(ToU64(v) % Pow2(SettableWidth(l, m))) else v
  {
    var (l, m) := HostBits(order, lsb, msb);
    var p := StoredPattern(cache, order, kind, lsb, msb, v);
    WideReadBack(p, |cache|, order, kind, lsb, msb);
    assert IntegerValue(StoredCache(cache, order, kind, lsb, msb, v), order, kind, lsb, msb)
           == FieldValue(p, order, kind, lsb, msb);
    if kind == MaskedInteger {
      assert p == MaskedSet(ToU64(Value(cache, order)), ToU64(v), l, m);
      MaskedRoundTrip(ToU64(Value(cache, order)), ToU64(v), l, m);
      assert FieldValue(p, order, kind, lsb, msb) == ToI64(MaskedGet(p, l, m));
    } else {
      assert p == ToU64(v);
      assert FieldValue(p, order, kind, lsb, msb) == ToI64(p);
      SignedRoundTrip(v);
    }
  }

  /** A plain integer register of fewer than 8 bytes keeps the low bytes
      and reads them back without sign extension: a negative value comes
      back positive. */
  lemma NarrowIntegerRoundTrip(cache: seq<byte>, order: ByteOrder, kind: RegisterType,
                               lsb: uint32, msb: uint32, v: int64)
    requires |cache| < 8 && kind != MaskedInteger
    ensures IntegerValue(StoredCache(cache, order, kind, lsb, msb, v), order, kind, lsb, msb)
            == ToU64(v) % Pow2(8 * |cache|)
  {
    var n := 8 * |cache|;
    var q := ToU64(v) % Pow2(n);
    NarrowReadBack(ToU64(v), |cache|, order, kind, lsb, msb);
    Pow2Monotone(n, 56);
    Pow2Values();
    assert q < 0x8000_0000_0000_0000;
    ToI64Identity(q);
  }

  // ---------------------------------------------------------------------
  // Cache copies

  /** s cut to, or zero-padded to, n bytes. */
  function Fitted(s: seq<byte>, n: nat): (r: seq<byte>)
    ensures |r| == n
  {
    if n > |s| then s + Zeros(n - |s|) else s[..n]
  }

  /** What Fitted keeps and what it pads with. */
  lemma FittedContents(s: seq<byte>, n: nat)
    ensures Fitted(s, n)[..Min(n, |s|)] == s[..Min(n, |s|)]
    ensures forall i :: |s| <= i < n ==> Fitted(s, n)[i] == 0
  {
  }

  /** Setting a buffer no longer than the register and getting as many
      bytes back gives the buffer; a longer buffer comes back cut to the
      register's size and zero-padded. */
  lemma FittedRoundTrip(data: seq<byte>, size: nat)
    ensures |data| <= size ==> Fitted(Fitted(data, size), |data|) == data
    ensures size < |data| ==> Fitted(Fitted(data, size), |data|) == data[..size] + Zeros(|data| - size)
  {
  }

  /** The sum of the address entries, resolved by the document, in list
      order. */
  function AddressSum(entries: seq<Entry>, resolve: string -> int64): int
  {
    if |entries| == 0 then 0
    else AddressSum(entries[..|entries| - 1], resolve) + Resolved(entries[|entries| - 1], resolve)
  }

  function Resolved(e: Entry, resolve: string -> int64): int64
  {
    match e
    case Constant(v) => v
    case Reference(name) => resolve(name)
  }

  /** A prepended entry adds its value to the address. */
  lemma {:induction false} AddressSumPrepended(e: Entry, entries: seq<Entry>, resolve: string -> int64)
    ensures AddressSum([e] + entries, resolve) == Resolved(e, resolve) + AddressSum(entries, resolve)
    decreases |entries|
  {
    if |entries| > 0 {
      var n := |entries|;
      assert ([e] + entries)[..n] == [e] + entries[..n - 1];
      AddressSumPrepended(e, entries[..n - 1], resolve);
    }
  }

  /** Adding in guint64 at every step is adding then wrapping once. */
  lemma WrapAdd(a: int, b: int)
    ensures ToU64(ToU64(a) + b) == ToU64(a + b)
  {
    var m := 0x1_0000_0000_0000_0000;
    var q := a / m;
    assert ToU64(a) + b == (a + b) - q * m;
    DivModUnique(ToU64(a) + b, m, (a + b) / m - q, ToU64(a + b));
  }

  class Node {
    const kind: RegisterType
    var addresses: seq<Entry>
    var length: Entry
    var cache: array<byte>
    var endianness: ByteOrder
    var lsb: uint32
    var msb: uint32

    /** arv_gc_register_init and the arv_gc_*_register_new constructors:
        a 4-byte little-endian register, zero cache, bits 0 to 31. */
    constructor (kind: RegisterType)
      ensures this.kind == kind && addresses == [] && length == Constant(4)
      ensures fresh(cache) && cache[..] == Zeros(4)
      ensures endianness == LittleEndian && lsb == 0 && msb == 31
    {
      this.kind := kind;
      addresses := [];
      length := Constant(4);
      cache := new byte[4](_ => 0);
      endianness := LittleEndian;
      lsb, msb := 0, 31;
      new;
      assert cache[..] == Zeros(4);
    }

    /** add_element: Address and pAddress are prepended to the list,
        Length and pLength replace the length, Endianess is big-endian
        only for "BigEndian", and LSB, MSB and Bit take their content's
        value (0 for no content), Bit setting both ends. */
    method AddElement(e: Element)
      modifies this
      ensures cache == old(cache)
      ensures addresses == match e
        case Address(a) => [Constant(ToI64(a))] + old(addresses)
        case AddressNode(name) => [Reference(name)] + old(addresses)
        case _ => old(addresses)
      ensures length == match e
        case Length(n) => Constant(ToI64(n))
        case LengthNode(name) => Reference(name)
        case _ => old(length)
      ensures endianness == match e
        case Endianess(c) => if c == Some("BigEndian") then BigEndian else LittleEndian
        case _ => old(endianness)
      ensures lsb == match e
        case Lsb(c) => BitNumber(c)
        case SingleBit(c) => BitNumber(c)
        case _ => old(lsb)
      ensures msb == match e
        case Msb(c) => BitNumber(c)
        case SingleBit(c) => BitNumber(c)
        case _ => old(msb)
    {
      match e
      case Address(a) => addresses := [Constant(ToI64(a))] + addresses;
      case AddressNode(name) => addresses := [Reference(name)] + addresses;
      case Length(n) => length := Constant(ToI64(n));
      case LengthNode(name) => length := Reference(name);
      case Endianess(c) => endianness := if c == Some("BigEndian") then BigEndian else LittleEndian;
      case Lsb(c) => lsb := BitNumber(c);
      case Msb(c) => msb := BitNumber(c);
      case SingleBit(c) =>
        msb := BitNumber(c);
        lsb := BitNumber(c);
      case Other =>
    }

    /** arv_gc_register_get_length: the length entry, resolved. */
    function GetLength(resolve: string -> int64): (r: uint64)
      reads this
      ensures length.Constant? ==> r == ToU64(length.value)
      ensures length.Reference? ==> r == ToU64(resolve(length.name))
    {
      ToU64(Resolved(length, resolve))
    }

    /** arv_gc_register_get_address: the entries summed in guint64. */
    method GetAddress(resolve: string -> int64) returns (value: uint64)
      ensures value == ToU64(AddressSum(addresses, resolve))
    {
      value := 0;
      var i := 0;
      while i < |addresses|
        invariant 0 <= i <= |addresses|
        invariant value == ToU64(AddressSum(addresses[..i], resolve))
      {
        assert addresses[..i + 1][..i] == addresses[..i];
        WrapAdd(AddressSum(addresses[..i], resolve), Resolved(addresses[i], resolve));
        value := ToU64(value + Resolved(addresses[i], resolve));
        i := i + 1;
      }
      assert addresses[..i] == addresses;
    }

    /** arv_gc_register_get: length bytes of the cache into buffer, the
        bytes past the cache zeroed. */
    method Get(buffer: array<byte>, length: nat)
      requires length <= buffer.Length && buffer != cache
      modifies buffer
      ensures buffer[..length] == Fitted(cache[..], length)
      ensures buffer[length..] == old(buffer[length..])
    {
      var size := cache.Length;
      ghost var b0, c := buffer[..], cache[..];
      if length > size {
        assert cache[0..size] == c;
        CopyForward(buffer, 0, cache, 0, size);
        ZeroFill(buffer, size, length - size);
        SplicedTwice(b0, c, Zeros(length - size));
      } else {
        assert cache[0..length] == c[..length];
        CopyForward(buffer, 0, cache, 0, length);
      }
      ghost var r := buffer[..];
      assert r == Fitted(c, length) + b0[length..];
      assert r[..length] == Fitted(c, length) && r[length..] == b0[length..];
    }

    /** arv_gc_register_set: length bytes of buffer into the cache, the
        rest of the cache zeroed. */
    method Set(buffer: array<byte>, length: nat)
      requires length <= buffer.Length && buffer != cache
      modifies cache
      ensures cache[..] == Fitted(buffer[..length], cache.Length)
    {
      var size := cache.Length;
      ghost var c0, b := cache[..], buffer[..];
      assert buffer[0..length] == b[..length];
      assert buffer[0..Min(size, length)] == Fitted(b[..length], size)[..Min(size, length)];
      if size > length {
        CopyForward(cache, 0, buffer, 0, length);
        ZeroFill(cache, length, size - length);
        SplicedTwice(c0, b[..length], Zeros(size - length));
        assert c0[size..] == [];
      } else {
        CopyForward(cache, 0, buffer, 0, size);
        assert c0[size..] == [];
      }
      assert buffer[..] == b;
    }

    /** arv_gc_register_get_integer_value, from the cache as the port
        left it. */
    method GetIntegerValue() returns (value: int64)
      ensures value == IntegerValue(cache[..], endianness, kind, lsb, msb)
    {
      var image := new byte[8];
      CopyMemoryWithEndianness(image, LittleEndian, cache, endianness);
      CopiedValue(cache[..], 8, LittleEndian, endianness);
      Pow2At64();
      ToU64Mod(Value(cache[..], endianness));
      var u: uint64 := LeValue(image[..]);
      assert u == ToU64(Value(cache[..], endianness));
      if kind == MaskedInteger {
        var (l, m) := HostBits(endianness, lsb, msb);
        u := MaskedGet(u, l, m);
      }
      value := ToI64(u);
    }

    /** arv_gc_register_set_integer_value, up to the write to the port. */
    method SetIntegerValue(v: int64)
      modifies cache
      ensures cache[..] == StoredCache(old(cache[..]), endianness, kind, lsb, msb, v)
    {
      var pattern := ToU64(v);
      if kind == MaskedInteger {
        var current := new byte[8];
        CopyMemoryWithEndianness(current, LittleEndian, cache, endianness);
        CopiedValue(cache[..], 8, LittleEndian, endianness);
        Pow2At64();
        ToU64Mod(Value(cache[..], endianness));
        assert LeValue(current[..]) == ToU64(Value(cache[..], endianness));
        var (l, m) := HostBits(endianness, lsb, msb);
        pattern := MaskedSet(LeValue(current[..]), pattern, l, m);
      }
      var bytes := LeBytes(pattern, 8);
      var image := new byte[8](i => if 0 <= i < 8 then bytes[i] else 0);
      assert image[..] == bytes;
      CopyMemoryWithEndianness(cache, endianness, image, LittleEndian);
    }
  }

  /** atoi of an LSB, MSB or Bit content stored in a guint; no content
      gives 0. */
  function BitNumber(content: Option<int32>): uint32
  {
    if content.Some? then ToU32(content.value) else 0
  }
}
