// Unaligned little-endian reads (arvzip.h): the zip reader takes 16- and
// 32-bit fields from arbitrary byte positions of the archive. Memory is a
// byte sequence, a pointer is an index into it and NULL is `None`.
module ZipLe {
  import opened Common

  /** The byte position a read starts at, when the pointer is not NULL. */
  predicate ReadableAt(mem: seq<byte>, ptr: Option<nat>, offset: int, width: nat)
  {
    ptr.Some? ==> 0 <= ptr.value + offset && ptr.value + offset + width <= |mem|
  }

  /** arv_guint32_from_unaligned_le_ptr: four bytes copied one by one into a
      host word, then converted from little-endian. NULL gives 0. */
  function GUInt32FromUnalignedLePtr(mem: seq<byte>, ptr: Option<nat>, offset: int32): (r: uint32)
    requires ReadableAt(mem, ptr, offset, 4)
    ensures ptr.None? ==> r == 0
  {
    if ptr.None? then 0
    else
      var at: nat := ptr.value + offset;
      var host := mem[at..at + 4];
      Le32(host, 0)
  }

  /** arv_guint16_from_unaligned_le_ptr: the same for two bytes. */
  function GUInt16FromUnalignedLePtr(mem: seq<byte>, ptr: Option<nat>, offset: int): (r: uint16)
    requires -0x8000 <= offset < 0x8000
    requires ReadableAt(mem, ptr, offset, 2)
    ensures ptr.None? ==> r == 0
  {
    if ptr.None? then 0
    else
      var at: nat := ptr.value + offset;
      var host := mem[at..at + 2];
      Le16(host, 0)
  }

  /** The 32-bit read is the little-endian weighting of the four bytes at
      ptr + offset: the first byte is the least significant. */
  lemma GUInt32IsLittleEndian(mem: seq<byte>, p: nat, offset: int32)
    requires ReadableAt(mem, Some(p), offset, 4)
    ensures var at := p + offset;
      GUInt32FromUnalignedLePtr(mem, Some(p), offset)
        == (mem[at] as int) + 0x100 * (mem[at + 1] as int) + 0x1_0000 * (mem[at + 2] as int) + 0x100_0000 * (mem[at + 3] as int)
  {
    var at := p + offset;
    var host := mem[at..at + 4];
    assert host[0] == mem[at] && host[1] == mem[at + 1] && host[2] == mem[at + 2] && host[3] == mem[at + 3];
  }

  lemma GUInt16IsLittleEndian(mem: seq<byte>, p: nat, offset: int)
    requires -0x8000 <= offset < 0x8000
    requires ReadableAt(mem, Some(p), offset, 2)
    ensures var at := p + offset;
      GUInt16FromUnalignedLePtr(mem, Some(p), offset) == (mem[at] as int) + 0x100 * (mem[at + 1] as int)
  {
    var at := p + offset;
    var host := mem[at..at + 2];
    assert host[0] == mem[at] && host[1] == mem[at + 1];
  }

  /** A read depends on bytes ptr + offset .. ptr + offset + 3 only. */
  lemma GUInt32ReadsOnlyItsBytes(m1: seq<byte>, m2: seq<byte>, p: nat, offset: int32)
    requires ReadableAt(m1, Some(p), offset, 4) && ReadableAt(m2, Some(p), offset, 4)
    requires m1[p + offset..p + offset + 4] == m2[p + offset..p + offset + 4]
    ensures GUInt32FromUnalignedLePtr(m1, Some(p), offset) == GUInt32FromUnalignedLePtr(m2, Some(p), offset)
  {
  }

  lemma GUInt16ReadsOnlyItsBytes(m1: seq<byte>, m2: seq<byte>, p: nat, offset: int)
    requires -0x8000 <= offset < 0x8000
    requires ReadableAt(m1, Some(p), offset, 2) && ReadableAt(m2, Some(p), offset, 2)
    requires m1[p + offset..p + offset + 2] == m2[p + offset..p + offset + 2]
    ensures GUInt16FromUnalignedLePtr(m1, Some(p), offset) == GUInt16FromUnalignedLePtr(m2, Some(p), offset)
  {
  }

  /** Reading back a little-endian image of v gives v, at any alignment. */
  lemma GUInt32OfLeImage(mem: seq<byte>, p: nat, offset: int32, v: uint32)
    requires ReadableAt(mem, Some(p), offset, 4)
    requires mem[p + offset..p + offset + 4] == EncodeLe32(v)
    ensures GUInt32FromUnalignedLePtr(mem, Some(p), offset) == v
  {
    var at := p + offset;
    assert mem[at..at + 4][0..4] == mem[at..at + 4];
    Le32OfEncode(mem[at..at + 4], 0, v);
  }

  lemma GUInt16OfLeImage(mem: seq<byte>, p: nat, offset: int, v: uint16)
    requires -0x8000 <= offset < 0x8000
    requires ReadableAt(mem, Some(p), offset, 2)
    requires mem[p + offset..p + offset + 2] == EncodeLe16(v)
    ensures GUInt16FromUnalignedLePtr(mem, Some(p), offset) == v
  {
    var at := p + offset;
    assert mem[at..at + 2][0..2] == mem[at..at + 2];
    Le16OfEncode(mem[at..at + 2], 0, v);
  }

  /** The byte array the unit test reads from. */
  const TestBytes: seq<byte> := [0x11, 0x22, 0x33, 0x44, 0x55, 0x66, 0x77, 0x88, 0x99, 0xaa, 0xbb, 0xcc]

  lemma UnalignedTestValues()
    ensures GUInt32FromUnalignedLePtr(TestBytes, Some(0), 0) == 0x44332211
    ensures GUInt32FromUnalignedLePtr(TestBytes, Some(1), 0) == 0x55443322
    ensures GUInt32FromUnalignedLePtr(TestBytes, Some(2), 0) == 0x66554433
    ensures GUInt32FromUnalignedLePtr(TestBytes, Some(3), 0) == 0x77665544
    ensures GUInt16FromUnalignedLePtr(TestBytes, Some(0), 0) == 0x2211
    ensures GUInt16FromUnalignedLePtr(TestBytes, Some(1), 0) == 0x3322
    ensures GUInt16FromUnalignedLePtr(TestBytes, Some(2), 0) == 0x4433
    ensures GUInt16FromUnalignedLePtr(TestBytes, Some(3), 0) == 0x5544
  {
    GUInt32IsLittleEndian(TestBytes, 0, 0);
    GUInt32IsLittleEndian(TestBytes, 1, 0);
    GUInt32IsLittleEndian(TestBytes, 2, 0);
    GUInt32IsLittleEndian(TestBytes, 3, 0);
    GUInt16IsLittleEndian(TestBytes, 0, 0);
    GUInt16IsLittleEndian(TestBytes, 1, 0);
    GUInt16IsLittleEndian(TestBytes, 2, 0);
    GUInt16IsLittleEndian(TestBytes, 3, 0);
  }
}
