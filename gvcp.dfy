// GigE Vision Control Protocol packet accessors (arvgvcpprivate.h).
//
// A GVCP packet is an 8-byte header followed by a data area:
//   packet_type (u8) | packet_flags (u8) | command (u16) | size (u16) | id (u16) | data
// Multi-byte fields are in network byte order. A NULL packet pointer is
// `None`. The C getters that store through optional out-pointers return a
// pair here; a NULL out-pointer only suppresses one of the two stores.
module Gvcp {
  import opened Common

  const HEADER_SIZE: nat := 8   // sizeof (ArvGvcpHeader) == sizeof (ArvGvcpPacket)
  const DATA_SIZE_MAX: nat := 512

  const PACKET_TYPE_ACK: byte := 0x00
  const PACKET_TYPE_CMD: byte := 0x42
  const PACKET_TYPE_ERROR: byte := 0x80
  const PACKET_TYPE_UNKNOWN_ERROR: byte := 0x8f

  const COMMAND_READ_MEMORY_CMD: uint16 := 0x0084
  const COMMAND_READ_MEMORY_ACK: uint16 := 0x0085
  const COMMAND_WRITE_MEMORY_CMD: uint16 := 0x0086

  type Packet = Option<seq<byte>>

  /** The packet carries a full header and `n` bytes of data area. */
  predicate HasData(packet: Packet, n: nat)
  {
    packet.Some? ==> |packet.value| >= HEADER_SIZE + n
  }

  /** arv_gvcp_packet_get_packet_type: ERROR for a NULL packet. */
  function GetPacketType(packet: Packet): (r: byte)
    requires HasData(packet, 0)
    ensures packet.None? ==> r == PACKET_TYPE_ERROR
    ensures packet.Some? ==> r == packet.value[0]
  {
    if packet.None? then PACKET_TYPE_ERROR else packet.value[0]
  }

  function GetPacketFlags(packet: Packet): (r: byte)
    requires HasData(packet, 0)
    ensures packet.None? ==> r == 0
    ensures packet.Some? ==> r == packet.value[1]
  {
    if packet.None? then 0 else packet.value[1]
  }

  function GetCommand(packet: Packet): uint16
    requires HasData(packet, 0)
  {
    if packet.None? then 0 else Be16(packet.value, 2)
  }

  function GetPacketId(packet: Packet): uint16
    requires HasData(packet, 0)
  {
    if packet.None? then 0 else Be16(packet.value, 6)
  }

  /** arv_gvcp_packet_set_packet_id: stores g_htons (id) in the id field;
      a NULL packet stays NULL. */
  function SetPacketId(packet: Packet, id: uint16): (r: Packet)
    requires HasData(packet, 0)
    ensures r.None? <==> packet.None?
    ensures r.Some? ==> |r.value| == |packet.value|
  {
    if packet.None? then None
    else
      var p := packet.value;
      Some(p[..6] + EncodeBe16(id) + p[8..])
  }

  /** The 16-bit size field of the header. */
  function HeaderDataSize(p: seq<byte>): uint16
    requires |p| >= HEADER_SIZE
  {
    Be16(p, 4)
  }

  /** arv_gvcp_packet_get_read_memory_cmd_infos: (address, size). The size
      is the low 16 bits of the second data word. */
  function ReadMemoryCmdInfos(packet: Packet): (r: (uint32, uint32))
    requires HasData(packet, 8)
  {
    if packet.None? then (0, 0)
    else (Be32(packet.value, HEADER_SIZE), Be32(packet.value, HEADER_SIZE + 4) % 0x1_0000)
  }

  /** arv_gvcp_packet_get_read_memory_ack_size: header, address word, data. */
  function ReadMemoryAckSize(dataSize: uint32): nat
  {
    HEADER_SIZE + 4 + dataSize
  }

  /** Byte position of the data returned by arv_gvcp_packet_get_read_memory_ack_data. */
  const READ_MEMORY_ACK_DATA_OFFSET: nat := HEADER_SIZE + 4

  /** arv_gvcp_packet_get_write_memory_cmd_infos: (address, size). The size is
      header.size minus the address word, computed in size_t and stored in a
      guint32: a header size below 4 wraps. */
  function WriteMemoryCmdInfos(packet: Packet): (r: (uint32, uint32))
    requires HasData(packet, 4)
  {
    if packet.None? then (0, 0)
    else (Be32(packet.value, HEADER_SIZE), ToU32(ToU64(HeaderDataSize(packet.value) - 4)))
  }

  const WRITE_MEMORY_CMD_DATA_OFFSET: nat := HEADER_SIZE + 4
  const WRITE_MEMORY_ACK_SIZE: nat := HEADER_SIZE + 4

  function ReadRegisterCmdAddress(packet: Packet): uint32
    requires HasData(packet, 4)
  {
    if packet.None? then 0 else Be32(packet.value, HEADER_SIZE)
  }

  function ReadRegisterAckValue(packet: Packet): uint32
    requires HasData(packet, 4)
  {
    if packet.None? then 0 else Be32(packet.value, HEADER_SIZE)
  }

  const READ_REGISTER_ACK_SIZE: nat := HEADER_SIZE + 4

  /** arv_gvcp_packet_get_write_register_cmd_infos: (address, value). */
  function WriteRegisterCmdInfos(packet: Packet): (r: (uint32, uint32))
    requires HasData(packet, 8)
  {
    if packet.None? then (0, 0)
    else (Be32(packet.value, HEADER_SIZE), Be32(packet.value, HEADER_SIZE + 4))
  }

  const WRITE_REGISTER_ACK_SIZE: nat := HEADER_SIZE + 4
  const PENDING_ACK_SIZE: nat := HEADER_SIZE + 4

  function PendingAckTimeout(packet: Packet): uint32
    requires HasData(packet, 4)
  {
    if packet.None? then 0 else Be32(packet.value, HEADER_SIZE)
  }

  /** arv_gvcp_next_packet_id: 0 is reserved as an error value, so 0xffff
      is followed by 1. */
  function NextPacketId(id: uint16): uint16
  {
    if id == 0xffff then 1 else id + 1
  }

  /** The inverse of NextPacketId on the valid ids 1 .. 0xffff. */
  function PreviousPacketId(id: uint16): uint16
  {
    if id == 1 then 0xffff else if id == 0 then 0 else id - 1
  }

  // ---------------------------------------------------------------------
  // Reference byte images, following the header layout.

  function Header(packetType: byte, flags: byte, command: uint16, size: uint16, id: uint16): (h: seq<byte>)
    ensures |h| == HEADER_SIZE
  {
    [packetType, flags] + EncodeBe16(command) + EncodeBe16(size) + EncodeBe16(id)
  }

  /** A read memory command: header, address word, then the size word. */
  function ReadMemoryCmdImage(flags: byte, address: uint32, size: uint32, id: uint16): (p: seq<byte>)
    ensures |p| == HEADER_SIZE + 8
  {
    Header(PACKET_TYPE_CMD, flags, COMMAND_READ_MEMORY_CMD, 8, id) + EncodeBe32(address) + EncodeBe32(size)
  }

  /** A write memory command: header whose size counts the address word and
      the data, then the address word and the data. */
  function WriteMemoryCmdImage(flags: byte, address: uint32, data: seq<byte>, id: uint16): (p: seq<byte>)
    requires 4 + |data| < 0x1_0000
    ensures |p| == HEADER_SIZE + 4 + |data|
  {
    Header(PACKET_TYPE_CMD, flags, COMMAND_WRITE_MEMORY_CMD, 4 + |data|, id) + EncodeBe32(address) + data
  }

  // ---------------------------------------------------------------------
  // Properties

  /** The successor of a packet id is never the error value 0, and it walks
      the ids 1 .. 0xffff as a cycle: PreviousPacketId undoes it. */
  lemma NextPacketIdIsCyclicSuccessor(id: uint16)
    ensures NextPacketId(id) != 0
    ensures NextPacketId(id) == id % 0xffff + 1
    ensures id != 0 ==> PreviousPacketId(NextPacketId(id)) == id
    ensures id != 0 ==> NextPacketId(PreviousPacketId(id)) == id
  {
  }

  /** Two valid ids never share a successor. */
  lemma NextPacketIdInjective(a: uint16, b: uint16)
    requires a != 0 && b != 0 && NextPacketId(a) == NextPacketId(b)
    ensures a == b
  {
  }

  /** A NULL packet reads as an ERROR packet with id 0, command 0 and all
      decoded fields 0. */
  lemma NullPacketDefaults()
    ensures GetPacketType(None) == PACKET_TYPE_ERROR && GetPacketId(None) == 0 && GetCommand(None) == 0
    ensures ReadMemoryCmdInfos(None) == (0, 0) && WriteMemoryCmdInfos(None) == (0, 0)
    ensures WriteRegisterCmdInfos(None) == (0, 0) && ReadRegisterCmdAddress(None) == 0
    ensures ReadRegisterAckValue(None) == 0 && PendingAckTimeout(None) == 0
  {
  }

  /** Every header field set by Header reads back. */
  lemma {:induction false} HeaderRoundTrip(packetType: byte, flags: byte, command: uint16, size: uint16,
                                           id: uint16, rest: seq<byte>)
    ensures var p := Header(packetType, flags, command, size, id) + rest;
      GetPacketType(Some(p)) == packetType && GetPacketFlags(Some(p)) == flags
      && GetCommand(Some(p)) == command && HeaderDataSize(p) == size && GetPacketId(Some(p)) == id
  {
    var p := Header(packetType, flags, command, size, id) + rest;
    assert p[2..4] == EncodeBe16(command);
    assert p[4..6] == EncodeBe16(size);
    assert p[6..8] == EncodeBe16(id);
    Be16OfEncode(p, 2, command);
    Be16OfEncode(p, 4, size);
    Be16OfEncode(p, 6, id);
  }

  /** Setting the packet id changes the id field, and nothing else. */
  lemma {:induction false} SetPacketIdRoundTrip(p: seq<byte>, id: uint16)
    requires |p| >= HEADER_SIZE
    ensures var q := SetPacketId(Some(p), id).value;
      GetPacketId(Some(q)) == id
      && forall i :: 0 <= i < |p| && !(6 <= i < 8) ==> q[i] == p[i]
  {
    var q := SetPacketId(Some(p), id).value;
    assert q[6..8] == EncodeBe16(id);
    Be16OfEncode(q, 6, id);
  }

  /** Decoding a read memory command gives the address and the size masked
      to 16 bits. */
  lemma {:induction false} ReadMemoryCmdRoundTrip(flags: byte, address: uint32, size: uint32, id: uint16)
    ensures var p := ReadMemoryCmdImage(flags, address, size, id);
      ReadMemoryCmdInfos(Some(p)) == (address, size % 0x1_0000) && GetPacketId(Some(p)) == id
      && GetCommand(Some(p)) == COMMAND_READ_MEMORY_CMD
  {
    var p := ReadMemoryCmdImage(flags, address, size, id);
    HeaderRoundTrip(PACKET_TYPE_CMD, flags, COMMAND_READ_MEMORY_CMD, 8, id, EncodeBe32(address) + EncodeBe32(size));
    assert p[8..12] == EncodeBe32(address);
    assert p[12..16] == EncodeBe32(size);
    Be32OfEncode(p, 8, address);
    Be32OfEncode(p, 12, size);
  }

  /** Decoding a write memory command gives the address and the data length:
      header.size minus the address word. */
  lemma {:induction false} WriteMemoryCmdRoundTrip(flags: byte, address: uint32, data: seq<byte>, id: uint16)
    requires 4 + |data| < 0x1_0000
    ensures var p := WriteMemoryCmdImage(flags, address, data, id);
      WriteMemoryCmdInfos(Some(p)) == (address, |data|)
      && p[WRITE_MEMORY_CMD_DATA_OFFSET..] == data
  {
    var p := WriteMemoryCmdImage(flags, address, data, id);
    HeaderRoundTrip(PACKET_TYPE_CMD, flags, COMMAND_WRITE_MEMORY_CMD, 4 + |data|, id, EncodeBe32(address) + data);
    assert p[8..12] == EncodeBe32(address);
    Be32OfEncode(p, 8, address);
    assert p[12..] == data;
  }

  /** A write memory command whose header size is below 4 yields a wrapped,
      huge size: header.size - 4 + 2^32. */
  lemma WriteMemoryCmdSizeWraps(p: seq<byte>)
    requires |p| >= HEADER_SIZE + 4 && HeaderDataSize(p) < 4
    ensures WriteMemoryCmdInfos(Some(p)).1 == 0x1_0000_0000 + HeaderDataSize(p) - 4
  {
  }

  /** The read memory ack size is the packet length that puts `dataSize`
      bytes after the ack's data offset, and the fixed-size acks are 12 bytes. */
  lemma AckSizes(dataSize: uint32)
    ensures ReadMemoryAckSize(dataSize) - READ_MEMORY_ACK_DATA_OFFSET == dataSize
    ensures ReadMemoryAckSize(dataSize) == HEADER_SIZE + 4 + dataSize
    ensures WRITE_MEMORY_ACK_SIZE == READ_REGISTER_ACK_SIZE == WRITE_REGISTER_ACK_SIZE == PENDING_ACK_SIZE == 12
  {
  }
}
