// USB3 Vision control protocol packet accessors (arvuvcpprivate.h).
//
// A UVCP packet is a 12-byte header followed by a data area:
//   magic (u32) | status or flags (u16) | command (u16) | size (u16) | id (u16) | data
// All fields are little-endian. Status and flags are the same 16-bit field
// (a C union): acknowledges carry a status there, commands carry flags.
module UvcpHeader {
  import opened Common

  const MAGIC: uint32 := 0x43563355
  const HEADER_SIZE: nat := 12                   // sizeof (ArvUvcpHeader)
  const READ_MEMORY_CMD_INFOS_SIZE: nat := 12    // address (u64), unknown (u16), size (u16)
  const READ_MEMORY_CMD_SIZE: nat := 24          // sizeof (ArvUvcpReadMemoryCmd)
  const WRITE_MEMORY_CMD_INFOS_SIZE: nat := 8    // address (u64)
  const WRITE_MEMORY_CMD_SIZE: nat := 20         // sizeof (ArvUvcpWriteMemoryCmd)
  const WRITE_MEMORY_ACK_SIZE: nat := 16         // sizeof (ArvUvcpWriteMemoryAck)
  const MANIFEST_ENTRY_SIZE: nat := 64           // sizeof (ArvUvcpManifestEntry)

  const STATUS_SUCCESS: uint16 := 0x0000
  const STATUS_ERROR: uint16 := 0x8fff

  const FLAGS_REQUEST_ACK: uint16 := 0x4000      // 1 << 14
  const FLAGS_COMMAND_RESEND: uint16 := 0x8000   // 1 << 15

  // ArvUvcpPacketType (arvuvcp.h), stored in the same field as status/flags.
  const PACKET_TYPE_ACK: uint16 := 0x0000
  const PACKET_TYPE_CMD: uint16 := 0x4000
  const PACKET_TYPE_ERROR: uint16 := 0xffff

  const COMMAND_READ_MEMORY_CMD: uint16 := 0x0800
  const COMMAND_READ_MEMORY_ACK: uint16 := 0x0801
  const COMMAND_WRITE_MEMORY_CMD: uint16 := 0x0802
  const COMMAND_WRITE_MEMORY_ACK: uint16 := 0x0803
  const COMMAND_PENDING_ACK: uint16 := 0x0805

  const SCHEMA_RAW: nat := 0
  const SCHEMA_ZIP: nat := 1

  type Packet = Option<seq<byte>>

  predicate HeaderPresent(packet: Packet)
  {
    packet.Some? ==> |packet.value| >= HEADER_SIZE
  }

  function GetMagic(p: seq<byte>): uint32
    requires |p| >= HEADER_SIZE
  {
    Le32(p, 0)
  }

  /** arv_uvcp_packet_get_status: STATUS_ERROR for a NULL packet. */
  function GetStatus(packet: Packet): uint16
    requires HeaderPresent(packet)
  {
    if packet.None? then STATUS_ERROR else Le16(packet.value, 4)
  }

  /** arv_uvcp_packet_get_flags: the same field, 0 for a NULL packet. */
  function GetFlags(packet: Packet): uint16
    requires HeaderPresent(packet)
  {
    if packet.None? then 0 else Le16(packet.value, 4)
  }

  function GetCommand(packet: Packet): uint16
    requires HeaderPresent(packet)
  {
    if packet.None? then 0 else Le16(packet.value, 6)
  }

  function GetSize(p: seq<byte>): uint16
    requires |p| >= HEADER_SIZE
  {
    Le16(p, 8)
  }

  function GetPacketId(packet: Packet): uint16
    requires HeaderPresent(packet)
  {
    if packet.None? then 0 else Le16(packet.value, 10)
  }

  /** arv_uvcp_packet_set_packet_id: stores the id little-endian; NULL stays NULL. */
  function SetPacketId(packet: Packet, id: uint16): (r: Packet)
    requires HeaderPresent(packet)
    ensures r.None? <==> packet.None?
    ensures r.Some? ==> |r.value| == |packet.value|
  {
    if packet.None? then None
    else
      var p := packet.value;
      Some(p[..10] + EncodeLe16(id) + p[12..])
  }

  /** Byte position of arv_uvcp_packet_get_read_memory_ack_data. */
  const READ_MEMORY_ACK_DATA_OFFSET: nat := HEADER_SIZE

  /** arv_uvcp_packet_get_read_memory_ack_size, in size_t. */
  function ReadMemoryAckSize(dataSize: uint64): uint64
  {
    ToU64(HEADER_SIZE + dataSize)
  }

  /** Byte position of arv_uvcp_packet_get_write_memory_cmd_data. */
  const WRITE_MEMORY_CMD_DATA_OFFSET: nat := WRITE_MEMORY_CMD_SIZE

  /** arv_uvcp_packet_get_pending_ack_timeout: the packet must not be NULL. */
  function PendingAckTimeout(p: seq<byte>): uint16
    requires |p| >= HEADER_SIZE + 4
  {
    Le16(p, HEADER_SIZE + 2)
  }

  /** arv_uvcp_next_packet_id: 0 is the error value, so 0xffff is followed by 1. */
  function NextPacketId(id: uint16): uint16
  {
    if id == 0xffff then 1 else id + 1
  }

  /** The inverse of NextPacketId on the valid ids 1 .. 0xffff. */
  function PreviousPacketId(id: uint16): uint16
  {
    if id == 1 then 0xffff else if id == 0 then 0 else id - 1
  }

  /** arv_uvcp_manifest_entry_get_schema_type: bits 10 to 14 of the schema
      word, `(schema >> 10) & 0x1f`; a NULL entry gives RAW. The schema word
      is read in host (little-endian) order at offset 4 of the entry. */
  function ManifestSchemaType(entry: Option<seq<byte>>): (r: nat)
    requires entry.Some? ==> |entry.value| >= MANIFEST_ENTRY_SIZE
    ensures r < 0x20
  {
    if entry.None? then SCHEMA_RAW
    else (Le32(entry.value, 4) / 0x400) % 0x20
  }

  // ---------------------------------------------------------------------
  // Reference byte images

  /** The header a sender writes, field by field. */
  function Header(magic: uint32, statusOrFlags: uint16, command: uint16, size: uint16, id: uint16): (h: seq<byte>)
    ensures |h| == HEADER_SIZE
  {
    EncodeLe32(magic) + EncodeLe16(statusOrFlags) + EncodeLe16(command) + EncodeLe16(size) + EncodeLe16(id)
  }

  // ---------------------------------------------------------------------
  // Properties

  /** Every header field reads back from the header image. */
  lemma {:induction false} HeaderRoundTrip(magic: uint32, statusOrFlags: uint16, command: uint16, size: uint16,
                                           id: uint16, rest: seq<byte>)
    ensures var p := Header(magic, statusOrFlags, command, size, id) + rest;
      GetMagic(p) == magic && GetStatus(Some(p)) == statusOrFlags && GetFlags(Some(p)) == statusOrFlags
      && GetCommand(Some(p)) == command && GetSize(p) == size && GetPacketId(Some(p)) == id
  {
    var p := Header(magic, statusOrFlags, command, size, id) + rest;
    assert p[0..4] == EncodeLe32(magic);
    assert p[4..6] == EncodeLe16(statusOrFlags);
    assert p[6..8] == EncodeLe16(command);
    assert p[8..10] == EncodeLe16(size);
    assert p[10..12] == EncodeLe16(id);
    Le32OfEncode(p, 0, magic);
    Le16OfEncode(p, 4, statusOrFlags);
    Le16OfEncode(p, 6, command);
    Le16OfEncode(p, 8, size);
    Le16OfEncode(p, 10, id);
  }

  /** Status and flags are one field: a packet's status is its flags. */
  lemma StatusIsFlags(p: seq<byte>)
    requires |p| >= HEADER_SIZE
    ensures GetStatus(Some(p)) == GetFlags(Some(p))
  {
  }

  /** A NULL packet reads as status ERROR, id 0, flags 0 and command 0. */
  lemma NullPacketDefaults()
    ensures GetStatus(None) == STATUS_ERROR && GetPacketId(None) == 0
    ensures GetFlags(None) == 0 && GetCommand(None) == 0
    ensures ManifestSchemaType(None) == SCHEMA_RAW
  {
  }

  /** Setting the id changes the id field and nothing else. */
  lemma {:induction false} SetPacketIdRoundTrip(p: seq<byte>, id: uint16)
    requires |p| >= HEADER_SIZE
    ensures var q := SetPacketId(Some(p), id).value;
      GetPacketId(Some(q)) == id
      && forall i :: 0 <= i < |p| && !(10 <= i < 12) ==> q[i] == p[i]
  {
    var q := SetPacketId(Some(p), id).value;
    assert q[10..12] == EncodeLe16(id);
    Le16OfEncode(q, 10, id);
  }

  /** The successor of an id is never 0 and walks 1 .. 0xffff as a cycle. */
  lemma NextPacketIdIsCyclicSuccessor(id: uint16)
    ensures NextPacketId(id) != 0
    ensures NextPacketId(id) == id % 0xffff + 1
    ensures id != 0 ==> PreviousPacketId(NextPacketId(id)) == id
    ensures id != 0 ==> NextPacketId(PreviousPacketId(id)) == id
  {
  }

  /** The read memory ack size leaves exactly dataSize bytes after the data
      offset (as long as size_t does not wrap). */
  lemma ReadMemoryAckSizeHoldsData(dataSize: uint64)
    requires HEADER_SIZE + dataSize < 0x1_0000_0000_0000_0000
    ensures ReadMemoryAckSize(dataSize) - READ_MEMORY_ACK_DATA_OFFSET == dataSize
  {
  }

  /** The pending-ack timeout is the second 16-bit word after the header,
      little-endian. */
  lemma PendingAckTimeoutOfField(p: seq<byte>, timeout: uint16)
    requires |p| >= HEADER_SIZE + 4 && p[HEADER_SIZE + 2..HEADER_SIZE + 4] == EncodeLe16(timeout)
    ensures PendingAckTimeout(p) == timeout
  {
    Le16OfEncode(p, HEADER_SIZE + 2, timeout);
  }

  /** The schema type reads bits 10 .. 14 of the schema word: writing
      `type << 10` together with low bits below bit 10 gives `type` back. */
  lemma {:induction false} ManifestSchemaTypeOfField(entry: seq<byte>, schemaType: nat, low: nat, high: nat)
    requires |entry| >= MANIFEST_ENTRY_SIZE
    requires schemaType < 0x20 && low < 0x400 && high < 0x1_0000
    requires entry[4..8] == EncodeLe32(high * 0x8000 + schemaType * 0x400 + low)
    ensures ManifestSchemaType(Some(entry)) == schemaType
  {
    var schema := high * 0x8000 + schemaType * 0x400 + low;
    Le32OfEncode(entry, 4, schema);
    DivAddMultiple(high * 0x20 + schemaType, low, 0x400);
    assert schema == (high * 0x20 + schemaType) * 0x400 + low;
    DivAddMultiple(high, schemaType, 0x20);
  }
}
