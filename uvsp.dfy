// USB3 Vision stream protocol packet accessors (arvuvspprivate.h).
//
// Every stream packet starts with a 16-byte header:
//   magic (u32) | unknown (u16) | size (u16) | frame_id (u64)
// A leader carries, from byte 16 on:
//   unknown (u16) | payload_type (u16) | timestamp (u64) | pixel_format (u32)
//   | width | height | x_offset | y_offset (u32 each) | x_padding (u16) | unknown (u16)
// All fields are little-endian; a NULL packet is `None`.
module Uvsp {
  import opened Common

  const LEADER_MAGIC: uint32 := 0x4C563355
  const TRAILER_MAGIC: uint32 := 0x54563355

  const HEADER_SIZE: nat := 16   // sizeof (ArvUvspHeader)
  const LEADER_SIZE: nat := 52   // sizeof (ArvUvspLeader)

  // ArvBufferPayloadType value for a NULL packet (arvbuffer.h).
  const BUFFER_PAYLOAD_TYPE_UNKNOWN: int := -1

  datatype PacketType = Unknown | Leader | Trailer | Data

  type Packet = Option<seq<byte>>

  /** arv_uvsp_packet_get_packet_type: classification by magic number. */
  function GetPacketType(packet: Packet): (r: PacketType)
    requires packet.Some? ==> |packet.value| >= HEADER_SIZE
  {
    if packet.None? then Unknown
    else if Le32(packet.value, 0) == LEADER_MAGIC then Leader
    else if Le32(packet.value, 0) == TRAILER_MAGIC then Trailer
    else Data
  }

  /** What arv_uvsp_packet_get_buffer_payload_type returns and stores through
      has_chunks (None: nothing stored, when the packet is NULL). */
  datatype PayloadTypeInfo = PayloadTypeInfo(payloadType: int, hasChunks: Option<bool>)

  function GetBufferPayloadType(packet: Packet): (r: PayloadTypeInfo)
    requires packet.Some? ==> |packet.value| >= LEADER_SIZE
    ensures packet.None? ==> r == PayloadTypeInfo(BUFFER_PAYLOAD_TYPE_UNKNOWN, None)
    ensures packet.Some? ==> 0 <= r.payloadType < 0x4000 && r.hasChunks.Some?
  {
    if packet.None? then PayloadTypeInfo(BUFFER_PAYLOAD_TYPE_UNKNOWN, None)
    else
      var payloadType := Le16(packet.value, 18);
      PayloadTypeInfo(payloadType % 0x4000, Some(BitSet(payloadType, 14)))
  }

  function GetFrameId(packet: Packet): uint64
    requires packet.Some? ==> |packet.value| >= HEADER_SIZE
  {
    if packet.None? then 0 else Le64(packet.value, 8)
  }

  datatype Region = Region(width: uint32, height: uint32, xOffset: uint32, yOffset: uint32,
                           xPadding: uint32, yPadding: uint32)

  /** arv_uvsp_packet_get_region: None when the packet is NULL (nothing is
      stored); the 16-bit x_padding widens to 32 bits and y_padding is 0. */
  function GetRegion(packet: Packet): (r: Option<Region>)
    requires packet.Some? ==> |packet.value| >= LEADER_SIZE
    ensures r.Some? <==> packet.Some?
    ensures r.Some? ==> r.value.yPadding == 0 && r.value.xPadding < 0x1_0000
  {
    if packet.None? then None
    else
      var p := packet.value;
      Some(Region(Le32(p, 32), Le32(p, 36), Le32(p, 40), Le32(p, 44), Le16(p, 48), 0))
  }

  function GetPixelFormat(packet: Packet): uint32
    requires packet.Some? ==> |packet.value| >= LEADER_SIZE
  {
    if packet.None? then 0 else Le32(packet.value, 28)
  }

  function GetTimestamp(packet: Packet): uint64
    requires packet.Some? ==> |packet.value| >= LEADER_SIZE
  {
    if packet.None? then 0 else Le64(packet.value, 20)
  }

  // ---------------------------------------------------------------------
  // Reference image of a leader, field by field.

  function LeaderImage(frameId: uint64, payloadType: uint16, timestamp: uint64, pixelFormat: uint32,
                       width: uint32, height: uint32, xOffset: uint32, yOffset: uint32,
                       xPadding: uint16, unknown: seq<byte>): (p: seq<byte>)
    requires |unknown| == 8
    ensures |p| == LEADER_SIZE
  {
    EncodeLe32(LEADER_MAGIC) + unknown[0..4] + EncodeLe64(frameId)
    + unknown[4..6] + EncodeLe16(payloadType) + EncodeLe64(timestamp) + EncodeLe32(pixelFormat)
    + EncodeLe32(width) + EncodeLe32(height) + EncodeLe32(xOffset) + EncodeLe32(yOffset)
    + EncodeLe16(xPadding) + unknown[6..8]
  }

  // ---------------------------------------------------------------------
  // Properties

  /** The three magic cases are exclusive and exhaustive for a non-NULL
      packet; a NULL packet is UNKNOWN. */
  lemma PacketTypeByMagic(packet: Packet)
    requires packet.Some? ==> |packet.value| >= HEADER_SIZE
    ensures GetPacketType(packet) == Unknown <==> packet.None?
    ensures packet.Some? ==>
      (GetPacketType(packet) == Leader <==> Le32(packet.value, 0) == LEADER_MAGIC)
      && (GetPacketType(packet) == Trailer <==> Le32(packet.value, 0) == TRAILER_MAGIC)
      && (GetPacketType(packet) == Data <==> Le32(packet.value, 0) !in {LEADER_MAGIC, TRAILER_MAGIC})
  {
  }

  /** The payload type is the low 14 bits of the field, has_chunks its bit 14;
      in bytes: the low byte and six bits of the high byte, and bit 6 of the
      high byte. */
  lemma PayloadTypeBytes(p: seq<byte>)
    requires |p| >= LEADER_SIZE
    ensures GetBufferPayloadType(Some(p)).payloadType == p[18] + (p[19] as int % 0x40) * 0x100
    ensures GetBufferPayloadType(Some(p)).hasChunks == Some(p[19] % 0x80 >= 0x40)
  {
    var x := Le16(p, 18);
    assert x == (p[19] as int) * 0x100 + p[18];
    BitSet14(x);
    HighByteRemainder(p[19], p[18], 0x40);
    HighByteRemainder(p[19], p[18], 0x80);
    assert x % 0x8000 == ((p[19] as int) % 0x80) * 0x100 + p[18] as int;
  }

  lemma NullPacketDefaults()
    ensures GetPacketType(None) == Unknown && GetFrameId(None) == 0
    ensures GetPixelFormat(None) == 0 && GetTimestamp(None) == 0 && GetRegion(None) == None
  {
  }

  /** Every field of a leader image reads back, whatever the reserved bytes
      hold; the payload type reads back masked to 14 bits. */
  lemma {:induction false} LeaderRoundTrip(frameId: uint64, payloadType: uint16, timestamp: uint64,
                                           pixelFormat: uint32, width: uint32, height: uint32,
                                           xOffset: uint32, yOffset: uint32, xPadding: uint16,
                                           unknown: seq<byte>)
    requires |unknown| == 8
    ensures var p := LeaderImage(frameId, payloadType, timestamp, pixelFormat, width, height,
                                 xOffset, yOffset, xPadding, unknown);
      GetPacketType(Some(p)) == Leader && GetFrameId(Some(p)) == frameId
      && GetBufferPayloadType(Some(p)).payloadType == payloadType % 0x4000
      && GetTimestamp(Some(p)) == timestamp && GetPixelFormat(Some(p)) == pixelFormat
      && GetRegion(Some(p)) == Some(Region(width, height, xOffset, yOffset, xPadding, 0))
  {
    var p := LeaderImage(frameId, payloadType, timestamp, pixelFormat, width, height,
                         xOffset, yOffset, xPadding, unknown);
    assert p[0..4] == EncodeLe32(LEADER_MAGIC);
    assert p[8..16] == EncodeLe64(frameId);
    assert p[18..20] == EncodeLe16(payloadType);
    assert p[20..28] == EncodeLe64(timestamp);
    assert p[28..32] == EncodeLe32(pixelFormat);
    assert p[32..36] == EncodeLe32(width);
    assert p[36..40] == EncodeLe32(height);
    assert p[40..44] == EncodeLe32(xOffset);
    assert p[44..48] == EncodeLe32(yOffset);
    assert p[48..50] == EncodeLe16(xPadding);
    Le32OfEncode(p, 0, LEADER_MAGIC);
    Le64OfEncode(p, 8, frameId);
    Le16OfEncode(p, 18, payloadType);
    Le64OfEncode(p, 20, timestamp);
    Le32OfEncode(p, 28, pixelFormat);
    Le32OfEncode(p, 32, width);
    Le32OfEncode(p, 36, height);
    Le32OfEncode(p, 40, xOffset);
    Le32OfEncode(p, 44, yOffset);
    Le16OfEncode(p, 48, xPadding);
  }
}
