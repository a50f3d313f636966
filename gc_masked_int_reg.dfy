// ArvGcMaskedIntRegNode (arvgcmaskedintregnode.c): an integer feature
// stored in a bit field of a register, between the positions given by its
// LSB and MSB children (or a single Bit child). Without them the field is
// bits 0 to 31, unsigned and little-endian.
//
// The bounds are computed with `1 << n` where 1 is a C int: the shift is
// a 32-bit one, its count taken modulo 32 as gcc emits it on x86, and the
// subtraction and negation that follow wrap around in 32 bits before the
// result is widened to a gint64. MaxAsWritten and MinAsWritten model that
// code; MaxCorrected and MinCorrected do the same arithmetic on gint64,
// which is what the bounds of fields wider than 31 bits need.
//
// The values of the property children (arv_gc_property_node_get_lsb and
// its siblings) and the masked register access itself
// (arv_gc_register_node_get_masked_integer_value) live in files that are
// not part of this model: a child is given here by the value it holds.
module GcMaskedIntReg {
  import opened Common
  import opened Bits
  import opened Endianness
  import GcIntReg
  import GcRegister

  type Signedness = GcIntReg.Signedness

  /** A child handed to post_new_child: the property nodes it keeps (by
      the value they hold), any other property node, or a node that is
      not a property. */
  datatype Child =
    | LsbChild(lsb: int64)
    | MsbChild(msb: int64)
    | BitChild(bit: int64)
    | SignChild(sign: Signedness)
    | EndiannessChild(order: ByteOrder)
    | UnitChild(unit: string)
    | SelectedChild(selected: string)
    | OtherProperty
    | NotProperty

  /** The arguments get_integer_value and set_integer_value pass to the
      masked register access. */
  datatype Field = Field(lsb: int64, msb: int64, sign: Signedness, order: ByteOrder)

  // ---------------------------------------------------------------------
  // The bounds

  /** The shift count the bounds start from: msb - lsb, or lsb - msb for
      a big-endian field, in gint64. */
  function Span(f: Field): int64
  {
    if f.order == BigEndian then ToI64(f.lsb - f.msb) else ToI64(f.msb - f.lsb)
  }

  /** arv_gc_masked_int_reg_node_get_min, as written: -(1 << span) in C
      int for a signed field, 0 otherwise. */
  function MinAsWritten(f: Field): int64
  {
    if f.sign == GcIntReg.Signed then ToI32(-(IntShiftLeft(1, Span(f)) as int)) else 0
  }

  /** arv_gc_masked_int_reg_node_get_max, as written: (1 << span) - 1 in C
      int for a signed field, (1 << (span + 1)) - 1 for an unsigned one. */
  function MaxAsWritten(f: Field): int64
  {
    if f.sign == GcIntReg.Signed then ToI32(IntShiftLeft(1, Span(f)) as int - 1)
    else ToI32(IntShiftLeft(1, ToI64(Span(f) as int + 1)) as int - 1)
  }

  /** The same bounds computed with a gint64 1. */
  function MinCorrected(f: Field): int64
  {
    if f.sign == GcIntReg.Signed then ToI64(-(WrappingShiftLeft(1, Span(f)) as int)) else 0
  }

  function MaxCorrected(f: Field): int64
  {
    if f.sign == GcIntReg.Signed then ToI64(WrappingShiftLeft(1, Span(f)) as int - 1)
    else ToI64(WrappingShiftLeft(1, ToI64(Span(f) as int + 1)) as int - 1)
  }

  // ---------------------------------------------------------------------
  // The node

  class MaskedIntRegNode {
    var lsb: Option<int64>
    var msb: Option<int64>
    var sign: Option<Signedness>
    var endianness: Option<ByteOrder>
    var unit: Option<string>
    /** The pSelected children, the last one added first (g_slist_prepend). */
    var selecteds: seq<string>
    /** The children passed on to the register node's post_new_child. */
    var passedOn: seq<Child>

    /** arv_gc_masked_int_reg_node_init: no child yet. */
    constructor ()
      ensures lsb == None && msb == None && sign == None && endianness == None && unit == None
      ensures selecteds == [] && passedOn == []
    {
      lsb, msb, sign, endianness, unit := None, None, None, None, None;
      selecteds, passedOn := [], [];
    }

    /** arv_gc_masked_int_reg_node_post_new_child: a Bit child sets both
        ends of the field; a later LSB, MSB or Bit child replaces an
        earlier one. */
    method PostNewChild(child: Child)
      modifies this
      ensures lsb == match child
        case LsbChild(v) => Some(v)
        case BitChild(v) => Some(v)
        case _ => old(lsb)
      ensures msb == match child
        case MsbChild(v) => Some(v)
        case BitChild(v) => Some(v)
        case _ => old(msb)
      ensures sign == if child.SignChild? then Some(child.sign) else old(sign)
      ensures endianness == if child.EndiannessChild? then Some(child.order) else old(endianness)
      ensures unit == if child.UnitChild? then Some(child.unit) else old(unit)
      ensures selecteds == if child.SelectedChild? then [child.selected] + old(selecteds) else old(selecteds)
      ensures passedOn == if child.OtherProperty? || child.NotProperty? then old(passedOn) + [child] else old(passedOn)
    {
      match child
      case LsbChild(v) => lsb := Some(v);
      case MsbChild(v) => msb := Some(v);
      case BitChild(v) =>
        msb := Some(v);
        lsb := Some(v);
      case SignChild(s) => sign := Some(s);
      case EndiannessChild(o) => endianness := Some(o);
      case UnitChild(u) => unit := Some(u);
      case SelectedChild(name) => selecteds := [name] + selecteds;
      case OtherProperty => passedOn := passedOn + [child];
      case NotProperty => passedOn := passedOn + [child];
    }

    /** The field get_integer_value, set_integer_value, get_min and
        get_max work on: lsb 0, msb 31, unsigned and little-endian by
        default. */
    function GetField(): (f: Field)
      reads this
      ensures f.lsb == OrDefault(lsb, 0) && f.msb == OrDefault(msb, 31)
      ensures f.sign == OrDefault(sign, GcIntReg.Unsigned)
      ensures f.order == OrDefault(endianness, LittleEndian)
    {
      Field(OrDefault(lsb, 0), OrDefault(msb, 31), OrDefault(sign, GcIntReg.Unsigned), OrDefault(endianness, LittleEndian))
    }

    /** arv_gc_masked_int_reg_node_get_min. */
    function GetMin(): (r: int64)
      reads this
      ensures r == MinAsWritten(GetField())
    {
      MinAsWritten(GetField())
    }

    /** arv_gc_masked_int_reg_node_get_max. */
    function GetMax(): (r: int64)
      reads this
      ensures r == MaxAsWritten(GetField())
    {
      MaxAsWritten(GetField())
    }

    /** arv_gc_masked_int_reg_node_get_unit: NULL without a Unit child. */
    function GetUnit(): (r: Option<string>)
      reads this
      ensures r == unit
    {
      unit
    }
  }

  // ---------------------------------------------------------------------
  // Properties

  /** An int in the range of a C int is its own 32-bit wrap-around. */
  lemma ToI32Identity(x: int)
    requires -0x8000_0000 <= x < 0x8000_0000
    ensures ToI32(x) == x
  {
  }

  lemma Pow2At30()
    ensures Pow2(30) == 0x4000_0000
  {
    assert Pow2(15) == 0x8000;
    Pow2Add(15, 15);
  }

  lemma Pow2Around31()
    ensures Pow2(30) == 0x4000_0000 && Pow2(31) == 0x8000_0000 && Pow2(32) == 0x1_0000_0000
  {
    Pow2At30();
    assert Pow2(31) == 2 * Pow2(30);
    assert Pow2(32) == 2 * Pow2(31);
  }

  /** 1 << k on an int, for a count below 31, is 2^k. */
  lemma IntShiftOfOne(k: int64)
    requires 0 <= k <= 30
    ensures IntShiftLeft(1, k) == Pow2(k) && Pow2(k) <= 0x4000_0000
  {
    Pow2Monotone(k, 30);
    Pow2At30();
    ShiftCountBelow32(k);
    ToI32Identity(Pow2(k));
  }

  lemma ShiftCountBelow32(k: int64)
    requires 0 <= k < 32
    ensures IntShiftLeft(1, k) == ToI32(Pow2(k))
  {
    var e := k % 32;
    assert e == k;
    assert IntShiftLeft(1, k) == ToI32(1 * Pow2(e));
    assert 1 * Pow2(e) == Pow2(k);
  }

  /** 1 << 31 on an int is INT_MIN; 1 << 32 is 1 again. */
  lemma IntShiftOfOneWraps()
    ensures IntShiftLeft(1, 31) == -0x8000_0000
    ensures IntShiftLeft(1, 32) == 1
  {
    Pow2Around31();
    assert IntShiftLeft(1, 31) == ToI32(0x8000_0000) by {
      assert 31 % 32 == 31;
      assert 1 * Pow2(31) == 0x8000_0000;
    }
    assert IntShiftLeft(1, 32) == ToI32(1) by {
      assert 32 % 32 == 0;
      assert 1 * Pow2(0) == 1;
    }
  }

  /** The bounds as written are those of a field of span + 1 bits as long
      as that field has at most 31 bits: -2^span and 2^span - 1 signed,
      0 and 2^(span + 1) - 1 unsigned. */
  lemma AsWrittenNarrow(f: Field)
    requires 0 <= Span(f) <= 29
    ensures f.sign == GcIntReg.Signed ==> MinAsWritten(f) == -(Pow2(Span(f)) as int) && MaxAsWritten(f) == Pow2(Span(f)) - 1
    ensures f.sign == GcIntReg.Unsigned ==> MinAsWritten(f) == 0 && MaxAsWritten(f) == Pow2(Span(f) + 1) - 1
  {
    var d := Span(f);
    if f.sign == GcIntReg.Signed {
      IntShiftOfOne(d);
      SignedAsWritten(f);
    } else {
      ToI64Identity(d as int + 1);
      IntShiftOfOne(d + 1);
      UnsignedAsWritten(f);
    }
  }

  /** A signed field of 32 bits still gets the right bounds, by two
      wrap-arounds of the int arithmetic. */
  lemma AsWrittenSigned32(f: Field)
    requires Span(f) == 31 && f.sign == GcIntReg.Signed
    ensures MinAsWritten(f) == -0x8000_0000 && MaxAsWritten(f) == 0x7fff_ffff
  {
    IntShiftOfOneWraps();
    assert ToI32(0x8000_0000) == -0x8000_0000;
    assert ToI32(-0x8000_0001) == 0x7fff_ffff;
  }

  /** An unsigned field of 30 or 31 bits: the last widths the int shift
      gets right. */
  lemma AsWrittenUnsigned31(f: Field)
    requires 29 <= Span(f) <= 30 && f.sign == GcIntReg.Unsigned
    ensures MinAsWritten(f) == 0 && MaxAsWritten(f) == Pow2(Span(f) + 1) - 1
  {
    var d := Span(f);
    ToI64Identity(d as int + 1);
    Pow2Around31();
    if d == 29 {
      IntShiftOfOne(30);
      UnsignedAsWritten(f);
    } else {
      IntShiftOfOneWraps();
      assert ToI32(-0x8000_0001) == 0x7fff_ffff;
    }
  }

  /** The default field, bits 0 to 31 unsigned, gets 0 as its maximum:
      1 << 32 on an int is 1. */
  lemma DefaultMaxAsWritten()
    ensures MaxAsWritten(Field(0, 31, GcIntReg.Unsigned, LittleEndian)) == 0
    ensures MinAsWritten(Field(0, 31, GcIntReg.Unsigned, LittleEndian)) == 0
  {
    var f := Field(0, 31, GcIntReg.Unsigned, LittleEndian);
    assert Span(f) == 31;
    assert ToI64(Span(f) as int + 1) == 32;
    IntShiftOfOneWraps();
  }

  /** A node without children has that default field, so its maximum is
      0 while its masked read can return 0xffffffff. */
  lemma DefaultNodeMaxBelowItsValues(node: MaskedIntRegNode)
    requires node.lsb == None && node.msb == None && node.sign == None && node.endianness == None
    ensures node.GetField() == Field(0, 31, GcIntReg.Unsigned, LittleEndian)
    ensures node.GetMax() == 0
    ensures GcRegister.MaskedGet(0xffff_ffff, 0, 31) == 0xffff_ffff > node.GetMax()
  {
    DefaultMaxAsWritten();
    FullDefaultField();
  }

  /** Bits 0 to 31 of 0xffffffff, through the masked read. */
  lemma FullDefaultField()
    ensures GcRegister.MaskedGet(0xffff_ffff, 0, 31) == 0xffff_ffff
  {
    assert GcRegister.FieldWidth(0, 31) == 32 by {
      assert ToU32(31) == 31;
    }
    assert Pow2(0 % 64) == 1 && Pow2(32) == 0x1_0000_0000 by {
      Pow2Around31();
    }
    assert (0xffff_ffff / 1) % 0x1_0000_0000 == 0xffff_ffff;
    GcRegister.MaskedGetField(0xffff_ffff, 0, 31);
  }

  /** With gint64 arithmetic an unsigned field of up to 63 bits gets the
      bounds 0 and 2^(span + 1) - 1. */
  lemma CorrectedUnsigned(f: Field)
    requires 0 <= Span(f) <= 62 && f.sign == GcIntReg.Unsigned
    ensures MinCorrected(f) == 0 && MaxCorrected(f) == Pow2(Span(f) + 1) - 1
  {
    var d := Span(f);
    ToI64Identity(d as int + 1);
    if d <= 61 {
      GcIntReg.ShiftedMax(d + 1);
    } else {
      CorrectedUnsigned63(f);
    }
  }

  /** The widest field the corrected unsigned bounds cover: 1 << 63
      wraps to INT64_MIN, and the - 1 wraps back to INT64_MAX. */
  lemma CorrectedUnsigned63(f: Field)
    requires Span(f) == 62 && f.sign == GcIntReg.Unsigned
    ensures MaxCorrected(f) == Pow2(63) - 1
  {
    assert MaxCorrected(f) == ToI64(WrappingShiftLeft(1, 63) as int - 1) by {
      ToI64Identity(63);
    }
    GcIntReg.ShiftOfOneTo63();
    DecrementWraps();
    Pow2At63();
  }

  /** ... and a signed field of up to 64 bits the bounds -2^span and
      2^span - 1. */
  lemma CorrectedSigned(f: Field)
    requires 0 <= Span(f) <= 63 && f.sign == GcIntReg.Signed
    ensures MinCorrected(f) == -(Pow2(Span(f)) as int) && MaxCorrected(f) == Pow2(Span(f)) - 1
  {
    var d := Span(f);
    if d <= 62 {
      GcIntReg.NegatedShift(d);
      GcIntReg.ShiftedMax(d);
    } else {
      GcIntReg.ShiftOfOneTo63();
      Pow2At63();
      DecrementWraps();
    }
  }

  /** INT64_MIN - 1 wraps to INT64_MAX. */
  lemma DecrementWraps()
    ensures ToI64(INT64_MIN as int - 1) == INT64_MAX
  {
  }

  /** Where the int arithmetic is right, the corrected bounds agree with
      the written ones. */
  lemma CorrectedAgrees(f: Field)
    requires 0 <= Span(f) <= 31
    requires f.sign == GcIntReg.Unsigned ==> Span(f) <= 30
    ensures MinCorrected(f) == MinAsWritten(f) && MaxCorrected(f) == MaxAsWritten(f)
  {
    if f.sign == GcIntReg.Unsigned {
      CorrectedUnsigned(f);
      if Span(f) <= 29 {
        AsWrittenNarrow(f);
      } else {
        AsWrittenUnsigned31(f);
      }
    } else {
      CorrectedSigned(f);
      if Span(f) <= 29 {
        AsWrittenNarrow(f);
      } else if Span(f) == 30 {
        AsWrittenNarrow30(f);
      } else {
        AsWrittenSigned32(f);
        Pow2Around31();
      }
    }
  }

  lemma AsWrittenNarrow30(f: Field)
    requires Span(f) == 30 && f.sign == GcIntReg.Signed
    ensures MinAsWritten(f) == -(Pow2(30) as int) && MaxAsWritten(f) == Pow2(30) - 1
  {
    IntShiftOfOne(30);
    SignedAsWritten(f);
  }

  /** The signed bounds as written, once 1 << span is known to be a
      positive int: they do not wrap. */
  lemma SignedAsWritten(f: Field)
    requires f.sign == GcIntReg.Signed && 1 <= IntShiftLeft(1, Span(f)) <= 0x4000_0000
    ensures MinAsWritten(f) == -(IntShiftLeft(1, Span(f)) as int)
    ensures MaxAsWritten(f) == IntShiftLeft(1, Span(f)) - 1
  {
    var w := IntShiftLeft(1, Span(f));
    ToI32Identity(-(w as int));
    ToI32Identity(w as int - 1);
  }

  /** The unsigned maximum as written, once 1 << (span + 1) is known to
      be a positive int. */
  lemma UnsignedAsWritten(f: Field)
    requires f.sign == GcIntReg.Unsigned && 1 <= IntShiftLeft(1, ToI64(Span(f) as int + 1))
    ensures MinAsWritten(f) == 0
    ensures MaxAsWritten(f) == IntShiftLeft(1, ToI64(Span(f) as int + 1)) - 1
  {
    ToI32Identity(IntShiftLeft(1, ToI64(Span(f) as int + 1)) as int - 1);
  }

  /** The corrected bounds of an unsigned little-endian field of up to
      62 bits hold every value the masked read of that field returns. */
  lemma CorrectedBoundsMaskedGet(v: uint64, lsb: uint32, msb: uint32)
    requires lsb <= msb && msb - lsb <= 61
    ensures var f := Field(lsb as int64, msb as int64, GcIntReg.Unsigned, LittleEndian);
      MinCorrected(f) <= GcRegister.MaskedGet(v, lsb, msb) <= MaxCorrected(f)
  {
    var f := Field(lsb as int64, msb as int64, GcIntReg.Unsigned, LittleEndian);
    assert Span(f) == msb - lsb;
    assert GcRegister.Span(lsb, msb) == msb - lsb;
    CorrectedUnsigned(f);
    GcRegister.MaskedGetField(v, lsb, msb);
  }

  /** The corrected maximum of the default field is 2^32 - 1. */
  lemma DefaultMaxCorrected()
    ensures MaxCorrected(Field(0, 31, GcIntReg.Unsigned, LittleEndian)) == 0xffff_ffff
  {
    var f := Field(0, 31, GcIntReg.Unsigned, LittleEndian);
    assert Span(f) == 31;
    CorrectedUnsigned(f);
    Pow2Values();
  }

  /** A big-endian field counts its span from msb up to lsb: its bounds
      are those of the little-endian field with the ends swapped. */
  lemma BigEndianSwapsEnds(lsb: int64, msb: int64, s: Signedness)
    ensures Span(Field(lsb, msb, s, BigEndian)) == Span(Field(msb, lsb, s, LittleEndian)) == ToI64(lsb - msb)
    ensures MaxAsWritten(Field(lsb, msb, s, BigEndian)) == MaxAsWritten(Field(msb, lsb, s, LittleEndian))
    ensures MinAsWritten(Field(lsb, msb, s, BigEndian)) == MinAsWritten(Field(msb, lsb, s, LittleEndian))
  {
  }
}
