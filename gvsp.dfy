// GigE Vision Stream Protocol packet accessors (arvgvspprivate.h).
//
// A packet is the byte image received from the socket. Its first two bytes
// are the packet type (the "status"); the common header follows, in one of two
// layouts:
//   standard: frame_id (u16) | packet_infos (u32) | data
//   extended: flags (u16)    | packet_infos (u32) | frame_id (u64) | packet_id (u32) | data
// All fields are in network byte order. `x & MASK` with a contiguous mask and
// `x >> n` are written as the equivalent `/` and `%` by powers of two.
module Gvsp {
  import opened Common

  const PACKET_SIZE: nat := 2            // sizeof (ArvGvspPacket)
  const HEADER_SIZE: nat := 6            // sizeof (ArvGvspHeader)
  const EXTENDED_HEADER_SIZE: nat := 18  // sizeof (ArvGvspExtendedHeader)
  const LEADER_SIZE: nat := 12           // sizeof (ArvGvspLeader)
  const PART_INFOS_SIZE: nat := 48       // sizeof (ArvGvspPartInfos)
  const MULTIPART_SIZE: nat := 8         // sizeof (ArvGvspMultipart)

  const PACKET_TYPE_OK: uint16 := 0x0000
  const PACKET_TYPE_RESEND: uint16 := 0x0100
  const PACKET_TYPE_PACKET_UNAVAILABLE: uint16 := 0x800c

  const CONTENT_TYPE_LEADER: nat := 0x01
  const CONTENT_TYPE_TRAILER: nat := 0x02
  const CONTENT_TYPE_PAYLOAD: nat := 0x03
  const CONTENT_TYPE_ALL_IN: nat := 0x04
  const CONTENT_TYPE_H264: nat := 0x05
  const CONTENT_TYPE_MULTIZONE: nat := 0x06
  const CONTENT_TYPE_MULTIPART: nat := 0x07
  const CONTENT_TYPE_GENDC: nat := 0x08

  // ArvBufferPayloadType values (declared in arvbuffer.h).
  const BUFFER_PAYLOAD_TYPE_UNKNOWN: int := -1
  const BUFFER_PAYLOAD_TYPE_IMAGE: int := 0x0001
  const BUFFER_PAYLOAD_TYPE_CHUNK_DATA: int := 0x0004
  const BUFFER_PAYLOAD_TYPE_EXTENDED_CHUNK_DATA: int := 0x0005
  const BUFFER_PAYLOAD_TYPE_MULTIPART: int := 0x000a

  function PacketType(p: seq<byte>): uint16
    requires |p| >= PACKET_SIZE
  {
    Be16(p, 0)
  }

  /** arv_gvsp_packet_type_is_error: bit 0x8000 of the packet type. */
  predicate TypeIsError(packetType: uint16)
  {
    BitSet(packetType, 15)
  }

  /** Bit 0x80 of header byte 2, the first byte of packet_infos. */
  predicate HasExtendedIds(p: seq<byte>)
    requires |p| > PACKET_SIZE + 2
  {
    BitSet(p[PACKET_SIZE + 2], 7)
  }

  /** The packet carries the header layout the extended-id flag announces. */
  predicate HeaderPresent(p: seq<byte>)
  {
    |p| >= PACKET_SIZE + HEADER_SIZE
    && (HasExtendedIds(p) ==> |p| >= PACKET_SIZE + EXTENDED_HEADER_SIZE)
  }

  /** packet_infos sits at header offset 2 in both layouts. */
  function PacketInfos(p: seq<byte>): uint32
    requires |p| >= PACKET_SIZE + HEADER_SIZE
  {
    Be32(p, PACKET_SIZE + 2)
  }

  /** (packet_infos & 0x7f000000) >> 24 */
  function ContentType(p: seq<byte>): nat
    requires |p| >= PACKET_SIZE + HEADER_SIZE
  {
    (PacketInfos(p) / 0x100_0000) % 0x80
  }

  /** Extended: the separate 32-bit packet_id; standard: packet_infos & 0x00ffffff. */
  function PacketId(p: seq<byte>): uint32
    requires HeaderPresent(p)
  {
    if HasExtendedIds(p) then Be32(p, PACKET_SIZE + 14)
    else PacketInfos(p) % 0x100_0000
  }

  /** Extended: the 64-bit frame_id; standard: the 16-bit frame_id. */
  function FrameId(p: seq<byte>): uint64
    requires HeaderPresent(p)
  {
    if HasExtendedIds(p) then Be64(p, PACKET_SIZE + 6)
    else Be16(p, PACKET_SIZE)
  }

  /** Byte position of the data area (arv_gvsp_packet_get_data). */
  function DataOffset(p: seq<byte>): nat
    requires |p| > PACKET_SIZE + 2
  {
    PACKET_SIZE + (if HasExtendedIds(p) then EXTENDED_HEADER_SIZE else HEADER_SIZE)
  }

  predicate LeaderPresent(p: seq<byte>)
  {
    HeaderPresent(p)
    && (ContentType(p) == CONTENT_TYPE_LEADER ==> |p| >= DataOffset(p) + LEADER_SIZE)
  }

  /** What arv_gvsp_leader_packet_get_buffer_payload_type returns, and what it
      stores through has_chunks (None: nothing is stored). */
  datatype PayloadTypeInfo = PayloadTypeInfo(payloadType: int, hasChunks: Option<bool>)

  function LeaderPayloadType(p: seq<byte>): (r: PayloadTypeInfo)
    requires LeaderPresent(p)
    ensures ContentType(p) != CONTENT_TYPE_LEADER ==> r == PayloadTypeInfo(BUFFER_PAYLOAD_TYPE_UNKNOWN, None)
    ensures ContentType(p) == CONTENT_TYPE_LEADER ==> 0 <= r.payloadType < 0x4000 && r.hasChunks.Some?
  {
    if ContentType(p) == CONTENT_TYPE_LEADER then
      var payloadType := Be16(p, DataOffset(p) + 2);
      PayloadTypeInfo(payloadType % 0x4000, Some(BitSet(payloadType, 14) || payloadType == 0x0004))
    else
      PayloadTypeInfo(BUFFER_PAYLOAD_TYPE_UNKNOWN, None)
  }

  /** ((guint64) timestamp_high << 32) | timestamp_low, or 0 for a non-leader. */
  function LeaderTimestamp(p: seq<byte>): uint64
    requires LeaderPresent(p)
  {
    if ContentType(p) == CONTENT_TYPE_LEADER then
      Be32(p, DataOffset(p) + 4) * 0x1_0000_0000 + Be32(p, DataOffset(p) + 8)
    else 0
  }

  /** packet_infos & 0xff for a multipart leader, 0 otherwise. */
  function MultipartNParts(p: seq<byte>): (n: nat)
    requires LeaderPresent(p)
    ensures n < 0x100
  {
    if LeaderPayloadType(p).payloadType == BUFFER_PAYLOAD_TYPE_MULTIPART then PacketInfos(p) % 0x100
    else 0
  }

  /** Byte position of parts[partId] in a multipart leader. */
  function PartOffset(p: seq<byte>, partId: nat): nat
    requires |p| > PACKET_SIZE + 2
  {
    DataOffset(p) + LEADER_SIZE + PART_INFOS_SIZE * partId
  }

  /** Every part the leader announces is inside the packet. */
  predicate PartsPresent(p: seq<byte>)
  {
    LeaderPresent(p) && PartOffset(p, MultipartNParts(p)) <= |p|
  }

  datatype PartInfos = PartInfos(
    purposeId: uint16, dataType: uint16, size: uint64, pixelFormat: uint32,
    width: uint32, height: uint32, xOffset: uint32, yOffset: uint32,
    xPadding: uint16, yPadding: uint16)

  /** The part size: part_length_low + (part_length_high << 32). */
  function PartSizeAt(p: seq<byte>, at: nat): uint64
    requires at + 8 <= |p|
  {
    Be32(p, at + 4) + Be16(p, at + 2) * 0x1_0000_0000
  }

  /** arv_gvsp_leader_packet_get_multipart_infos: None is the FALSE return
      (out-parameters untouched), Some the TRUE return with the fields read. */
  function LeaderMultipartInfos(p: seq<byte>, partId: uint32): (r: Option<PartInfos>)
    requires PartsPresent(p)
    ensures r.Some? <==> partId < MultipartNParts(p)
  {
    if partId >= MultipartNParts(p) then None
    else
      assert PartOffset(p, partId) + PART_INFOS_SIZE <= PartOffset(p, MultipartNParts(p));
      var at := PartOffset(p, partId);
      Some(PartInfos(
        purposeId := Be16(p, at + 20),
        dataType := Be16(p, at),
        size := PartSizeAt(p, at),
        pixelFormat := Be32(p, at + 8),
        width := Be32(p, at + 24),
        height := Be32(p, at + 28),
        xOffset := Be32(p, at + 32),
        yOffset := Be32(p, at + 36),
        xPadding := Be16(p, at + 40),
        yPadding := Be16(p, at + 42)))
  }

  /** arv_gvsp_leader_packet_get_multipart_size: 0 for a part out of range. */
  function LeaderMultipartSize(p: seq<byte>, partId: uint32): uint64
    requires PartsPresent(p)
  {
    if partId >= MultipartNParts(p) then 0
    else
      assert PartOffset(p, partId) + PART_INFOS_SIZE <= PartOffset(p, MultipartNParts(p));
      PartSizeAt(p, PartOffset(p, partId))
  }

  datatype ImageInfos = ImageInfos(
    pixelFormat: uint32, width: uint32, height: uint32,
    xOffset: uint32, yOffset: uint32, xPadding: uint16, yPadding: uint16)

  predicate ImageLeaderPresent(p: seq<byte>)
  {
    LeaderPresent(p) && (ContentType(p) == CONTENT_TYPE_LEADER ==> |p| >= DataOffset(p) + LEADER_SIZE + 24)
  }

  /** arv_gvsp_leader_packet_get_image_infos: Some (TRUE) only for an image or
      extended-chunk leader. */
  function LeaderImageInfos(p: seq<byte>): (r: Option<ImageInfos>)
    requires ImageLeaderPresent(p)
  {
    var payloadType := LeaderPayloadType(p).payloadType;
    if payloadType == BUFFER_PAYLOAD_TYPE_IMAGE || payloadType == BUFFER_PAYLOAD_TYPE_EXTENDED_CHUNK_DATA then
      var at := DataOffset(p) + LEADER_SIZE;
      Some(ImageInfos(Be32(p, at), Be32(p, at + 4), Be32(p, at + 8), Be32(p, at + 12),
                      Be32(p, at + 16), Be16(p, at + 20), Be16(p, at + 22)))
    else None
  }

  /** arv_gvsp_payload_packet_get_data_size: size_t arithmetic, so a packet_size
      shorter than the headers wraps around. */
  function PayloadDataSize(p: seq<byte>, packetSize: uint64): uint64
    requires HeaderPresent(p)
  {
    if ContentType(p) == CONTENT_TYPE_PAYLOAD then ToU64(packetSize - DataOffset(p)) else 0
  }

  /** What arv_gvsp_multipart_packet_get_infos stores and returns. */
  datatype MultipartPosition = MultipartPosition(partId: nat, offset: int, ok: bool)

  predicate MultipartPresent(p: seq<byte>)
  {
    HeaderPresent(p) && (ContentType(p) == CONTENT_TYPE_MULTIPART ==> |p| >= DataOffset(p) + MULTIPART_SIZE)
  }

  function MultipartPacketInfos(p: seq<byte>): (r: MultipartPosition)
    requires MultipartPresent(p)
  {
    if ContentType(p) != CONTENT_TYPE_MULTIPART then MultipartPosition(0, 0, false)
    else
      var at := DataOffset(p);
      MultipartPosition(p[at], Be16(p, at + 2) * 0x1_0000_0000 + Be32(p, at + 4), true)
  }

  function MultipartPacketDataSize(p: seq<byte>, packetSize: uint64): uint64
    requires HeaderPresent(p)
  {
    if ContentType(p) == CONTENT_TYPE_MULTIPART then ToU64(packetSize - DataOffset(p) - MULTIPART_SIZE) else 0
  }

  /** arv_gvsp_multipart_packet_get_data: a position, or NULL. */
  function MultipartPacketData(p: seq<byte>): Option<nat>
    requires HeaderPresent(p)
  {
    if ContentType(p) == CONTENT_TYPE_MULTIPART then Some(DataOffset(p) + MULTIPART_SIZE) else None
  }

  /** arv_gvsp_packet_get_data_size */
  function DataSize(p: seq<byte>, packetSize: uint64): uint64
    requires |p| > PACKET_SIZE + 2
  {
    ToU64(packetSize - DataOffset(p))
  }

  /** arv_gvsp_timestamp_to_ns, in guint64 arithmetic. */
  function TimestampToNs(timestamp: uint64, frequency: uint64): uint64
  {
    if frequency < 1 then 0
    else
      var seconds := timestamp / frequency;
      var ns := ToU64((timestamp % frequency) * 1_000_000_000) / frequency;
      ToU64(ns + ToU64(seconds * 1_000_000_000))
  }

  // ---------------------------------------------------------------------
  // Properties

  /** The error packet types are exactly the upper half of the 16-bit range;
      PACKET_UNAVAILABLE is one of them, OK and RESEND are not. */
  lemma TypeIsErrorIsUpperHalf(packetType: uint16)
    ensures TypeIsError(packetType) <==> packetType >= 0x8000
    ensures TypeIsError(PACKET_TYPE_PACKET_UNAVAILABLE)
    ensures !TypeIsError(PACKET_TYPE_OK) && !TypeIsError(PACKET_TYPE_RESEND)
  {
    BitSet15(packetType);
    BitSet15(PACKET_TYPE_PACKET_UNAVAILABLE);
    BitSet15(PACKET_TYPE_OK);
    BitSet15(PACKET_TYPE_RESEND);
  }

  /** The extended-id flag is the top bit of the first packet_infos byte, and
      the content type is the seven bits below it, in either layout. */
  lemma ExtendedIdAndContentTypeShareByte(p: seq<byte>)
    requires |p| >= PACKET_SIZE + HEADER_SIZE
    ensures HasExtendedIds(p) <==> p[4] >= 0x80
    ensures ContentType(p) == p[4] % 0x80
  {
    BitSet7(p[4]);
  }

  /** In the standard layout the packet id is the low three bytes of packet_infos. */
  lemma StandardPacketIdBytes(p: seq<byte>)
    requires HeaderPresent(p) && !HasExtendedIds(p)
    ensures PacketId(p) == (p[5] as int) * 0x1_0000 + (p[6] as int) * 0x100 + p[7]
    ensures FrameId(p) == (p[2] as int) * 0x100 + p[3]
  {
  }

  /** The byte image of a standard header followed by a data area. */
  function StandardPacket(packetType: uint16, frameId: uint16, contentType: nat, packetId: nat,
                          data: seq<byte>): (p: seq<byte>)
    requires contentType < 0x80 && packetId < 0x100_0000
    ensures |p| == PACKET_SIZE + HEADER_SIZE + |data|
  {
    EncodeBe16(packetType) + EncodeBe16(frameId) + EncodeBe32(contentType * 0x100_0000 + packetId) + data
  }

  /** The byte image of an extended header followed by a data area. */
  function ExtendedPacket(packetType: uint16, flags: uint16, contentType: nat, infosLow: nat,
                          frameId: uint64, packetId: uint32, data: seq<byte>): (p: seq<byte>)
    requires contentType < 0x80 && infosLow < 0x100_0000
    ensures |p| == PACKET_SIZE + EXTENDED_HEADER_SIZE + |data|
  {
    EncodeBe16(packetType) + EncodeBe16(flags) + EncodeBe32((0x80 + contentType) * 0x100_0000 + infosLow)
      + EncodeBe64(frameId) + EncodeBe32(packetId) + data
  }

  /** Decoding a standard header gives back every field it was built from,
      and the data area starts right after it. */
  lemma {:induction false} StandardHeaderRoundTrip(packetType: uint16, frameId: uint16, contentType: nat,
                                                   packetId: nat, data: seq<byte>)
    requires contentType < 0x80 && packetId < 0x100_0000
    ensures var p := StandardPacket(packetType, frameId, contentType, packetId, data);
      HeaderPresent(p) && !HasExtendedIds(p)
      && PacketType(p) == packetType && FrameId(p) == frameId
      && ContentType(p) == contentType && PacketId(p) == packetId
      && DataOffset(p) == PACKET_SIZE + HEADER_SIZE && p[DataOffset(p)..] == data
  {
    var p := StandardPacket(packetType, frameId, contentType, packetId, data);
    var infos := contentType * 0x100_0000 + packetId;
    assert p[0..2] == EncodeBe16(packetType);
    assert p[2..4] == EncodeBe16(frameId);
    assert p[4..8] == EncodeBe32(infos);
    Be16OfEncode(p, 0, packetType);
    Be16OfEncode(p, 2, frameId);
    Be32OfEncode(p, 4, infos);
    assert p[4] == EncodeBe32(infos)[0] == infos / 0x1_0000 / 0x100;
    BitSet7(p[4]);
    DivAddMultiple(contentType, packetId, 0x100_0000);
    assert PacketInfos(p) / 0x100_0000 == contentType;
    DivModUnique(contentType, 0x80, 0, contentType);
    assert p[8..] == data;
  }

  lemma {:induction false} ExtendedHeaderRoundTrip(packetType: uint16, flags: uint16, contentType: nat,
                                                   infosLow: nat, frameId: uint64, packetId: uint32,
                                                   data: seq<byte>)
    requires contentType < 0x80 && infosLow < 0x100_0000
    ensures var p := ExtendedPacket(packetType, flags, contentType, infosLow, frameId, packetId, data);
      HeaderPresent(p) && HasExtendedIds(p)
      && PacketType(p) == packetType && FrameId(p) == frameId
      && ContentType(p) == contentType && PacketId(p) == packetId
      && PacketInfos(p) % 0x100_0000 == infosLow
      && DataOffset(p) == PACKET_SIZE + EXTENDED_HEADER_SIZE && p[DataOffset(p)..] == data
  {
    var p := ExtendedPacket(packetType, flags, contentType, infosLow, frameId, packetId, data);
    var infos := (0x80 + contentType) * 0x100_0000 + infosLow;
    assert p[0..2] == EncodeBe16(packetType);
    assert p[4..8] == EncodeBe32(infos);
    assert p[8..16] == EncodeBe64(frameId);
    assert p[16..20] == EncodeBe32(packetId);
    Be16OfEncode(p, 0, packetType);
    Be32OfEncode(p, 4, infos);
    Be64OfEncode(p, 8, frameId);
    Be32OfEncode(p, 16, packetId);
    assert p[4] == EncodeBe32(infos)[0] == infos / 0x1_0000 / 0x100;
    BitSet7(p[4]);
    DivAddMultiple(0x80 + contentType, infosLow, 0x100_0000);
    assert PacketInfos(p) / 0x100_0000 == 0x80 + contentType;
    DivModUnique(0x80 + contentType, 0x80, 1, contentType);
    assert p[20..] == data;
  }

  /** The leader payload type is the low 14 bits of the leader's payload_type
      field; has_chunks is its bit 14, or the CHUNK_DATA code 0x0004. */
  lemma LeaderPayloadTypeBytes(p: seq<byte>)
    requires LeaderPresent(p) && ContentType(p) == CONTENT_TYPE_LEADER
    ensures var at := DataOffset(p) + 2;
      LeaderPayloadType(p).payloadType == ((p[at] as int) % 0x40) * 0x100 + p[at + 1]
      && LeaderPayloadType(p).hasChunks
         == Some(p[at] % 0x80 >= 0x40 || (p[at] == 0 && p[at + 1] == BUFFER_PAYLOAD_TYPE_CHUNK_DATA))
  {
    var at := DataOffset(p) + 2;
    var x := Be16(p, at);
    BitSet14(x);
    HighByteRemainder(p[at], p[at + 1], 0x40);
    HighByteRemainder(p[at], p[at + 1], 0x80);
    assert x % 0x8000 == ((p[at] as int) % 0x80) * 0x100 + p[at + 1] as int;
  }

  /** The two 32-bit halves of the leader timestamp form one 64-bit field. */
  lemma LeaderTimestampIsBe64(p: seq<byte>)
    requires LeaderPresent(p)
    ensures LeaderTimestamp(p) == if ContentType(p) == CONTENT_TYPE_LEADER then Be64(p, DataOffset(p) + 4) else 0
  {
  }

  /** Only a multipart leader announces parts: for any other packet every
      part id is out of range. */
  lemma NoPartsUnlessMultipart(p: seq<byte>, partId: uint32)
    requires PartsPresent(p)
    requires LeaderPayloadType(p).payloadType != BUFFER_PAYLOAD_TYPE_MULTIPART
    ensures LeaderMultipartInfos(p, partId) == None && LeaderMultipartSize(p, partId) == 0
  {
  }

  /** get_multipart_size agrees with the size get_multipart_infos returns. */
  lemma MultipartSizeAgreesWithInfos(p: seq<byte>, partId: uint32)
    requires PartsPresent(p)
    ensures LeaderMultipartSize(p, partId)
         == match LeaderMultipartInfos(p, partId) case None => 0 case Some(infos) => infos.size
  {
  }

  /** The multipart n_parts field is the last packet_infos byte. */
  lemma MultipartNPartsByte(p: seq<byte>)
    requires LeaderPresent(p) && LeaderPayloadType(p).payloadType == BUFFER_PAYLOAD_TYPE_MULTIPART
    ensures MultipartNParts(p) == p[7]
  {
  }

  /** A packet that is not a multipart data packet yields part 0, offset 0 and
      FALSE; a multipart one yields TRUE. */
  lemma MultipartPositionOnlyForMultipart(p: seq<byte>)
    requires MultipartPresent(p)
    ensures MultipartPacketInfos(p).ok <==> ContentType(p) == CONTENT_TYPE_MULTIPART
    ensures !MultipartPacketInfos(p).ok ==> MultipartPacketInfos(p) == MultipartPosition(0, 0, false)
    ensures MultipartPacketData(p).Some? <==> ContentType(p) == CONTENT_TYPE_MULTIPART
  {
  }

  /** When packet_size is the packet's length, a multipart data packet
      carries the bytes after its multipart header; any other packet none. */
  lemma MultipartDataSizeIsBytesAfterHeader(p: seq<byte>, packetSize: uint64)
    requires MultipartPresent(p) && packetSize == |p|
    ensures ContentType(p) == CONTENT_TYPE_MULTIPART ==>
              MultipartPacketDataSize(p, packetSize) == |p[MultipartPacketData(p).value..]|
    ensures ContentType(p) != CONTENT_TYPE_MULTIPART ==> MultipartPacketDataSize(p, packetSize) == 0
  {
  }

  /** Image infos are returned exactly for a leader whose payload type is
      image or extended chunk data; any other packet returns FALSE. */
  lemma ImageInfosOnlyForImageLeaders(p: seq<byte>)
    requires ImageLeaderPresent(p)
    ensures LeaderImageInfos(p).Some? <==>
              ContentType(p) == CONTENT_TYPE_LEADER
              && (LeaderPayloadType(p).payloadType == BUFFER_PAYLOAD_TYPE_IMAGE
                  || LeaderPayloadType(p).payloadType == BUFFER_PAYLOAD_TYPE_EXTENDED_CHUNK_DATA)
  {
  }

  /** When packet_size is the length of the received packet, the data size is
      the number of bytes after the header; a shorter packet_size wraps. */
  lemma DataSizeIsBytesAfterHeader(p: seq<byte>, packetSize: uint64)
    requires HeaderPresent(p)
    ensures packetSize == |p| ==> DataSize(p, packetSize) == |p[DataOffset(p)..]|
    ensures packetSize < DataOffset(p) ==> DataSize(p, packetSize) == 0x1_0000_0000_0000_0000 - (DataOffset(p) - packetSize)
    ensures ContentType(p) == CONTENT_TYPE_PAYLOAD ==> PayloadDataSize(p, packetSize) == DataSize(p, packetSize)
    ensures ContentType(p) != CONTENT_TYPE_PAYLOAD ==> PayloadDataSize(p, packetSize) == 0
  {
  }

  /** Without overflow, timestamp_to_ns is the exact floor of
      timestamp * 10^9 / frequency: splitting into seconds and remainder loses
      nothing. The bound on the frequency keeps (t % f) * 10^9 within 64 bits. */
  lemma {:induction false} TimestampToNsExact(timestamp: uint64, frequency: uint64)
    requires 1 <= frequency <= 18_446_744_073
    requires timestamp * 1_000_000_000 / frequency < 0x1_0000_0000_0000_0000
    ensures TimestampToNs(timestamp, frequency) == timestamp * 1_000_000_000 / frequency
  {
    var lo := (timestamp % frequency) * 1_000_000_000;
    var hi := (timestamp / frequency) * 1_000_000_000;
    TimestampSplit(timestamp, frequency);
    assert lo < 0x1_0000_0000_0000_0000 by {
      assert timestamp % frequency <= 18_446_744_072;
    }
    TimestampToNsWithoutWrap(timestamp, frequency, lo, hi);
  }

  /** When neither the remainder's product nor the sum wraps, timestamp_to_ns
      is the plain sum of its two parts. */
  lemma TimestampToNsWithoutWrap(t: uint64, f: uint64, lo: nat, hi: nat)
    requires 1 <= f
    requires lo == (t % f) * 1_000_000_000 && hi == (t / f) * 1_000_000_000
    requires lo < 0x1_0000_0000_0000_0000 && hi + lo / f < 0x1_0000_0000_0000_0000
    ensures TimestampToNs(t, f) == hi + lo / f
  {
    var q := lo / f;
    assert ToU64((t % f) * 1_000_000_000) == lo by { ToU64Identity(lo); }
    assert 0 <= q <= lo;
    assert ToU64((t / f) * 1_000_000_000) == hi by { ToU64Identity(hi); }
    assert ToU64(q + hi) == q + hi by { ToU64Identity(q + hi); }
  }

  lemma TimestampSplit(t: nat, f: nat)
    requires f > 0
    ensures t * 1_000_000_000 / f == (t / f) * 1_000_000_000 + ((t % f) * 1_000_000_000) / f
  {
    SplitProduct(t, f, 1_000_000_000);
    DivAddMultiple((t / f) * 1_000_000_000, (t % f) * 1_000_000_000, f);
  }

  /** t * n == (t / f) * n * f + (t % f) * n, the identity behind splitting a
      timestamp into whole ticks of the frequency and a remainder. */
  lemma SplitProduct(t: nat, f: nat, n: nat)
    requires f > 0
    ensures t * n == ((t / f) * n) * f + (t % f) * n
  {
    var s, r := t / f, t % f;
    assert t == s * f + r;
    calc {
      t * n;
      == (s * f + r) * n;
      == { assert (s * f + r) * n == (s * f) * n + r * n; }
      (s * f) * n + r * n;
      == { assert (s * f) * n == (s * n) * f; }
      (s * n) * f + r * n;
    }
  }

  lemma TimestampToNsZeroFrequency(timestamp: uint64)
    ensures TimestampToNs(timestamp, 0) == 0
  {
  }
}
