// USB3 Vision command packet builders (arvuvcp.c).
//
// Each builder allocates a packet and fills the header fields one by one.
// The packet_size out-pointer is modelled by `wantsSize`: when it is NULL the
// builder returns NULL and writes nothing. Bytes g_malloc leaves
// uninitialised (the reserved word of a read command, the payload of a write
// command) are left unconstrained by the contracts.
module UvcpPacket {
  import opened Common
  import opened UvcpHeader

  /** Stores the little-endian image of a 16-bit value at `at`. */
  method PutLe16(a: array<byte>, at: nat, v: uint16)
    requires at + 2 <= a.Length
    modifies a
    ensures a[at..at + 2] == EncodeLe16(v)
    ensures forall i :: 0 <= i < a.Length && !(at <= i < at + 2) ==> a[i] == old(a[i])
  {
    a[at] := v % 0x100;
    a[at + 1] := v / 0x100;
  }

  method PutLe32(a: array<byte>, at: nat, v: uint32)
    requires at + 4 <= a.Length
    modifies a
    ensures a[at..at + 4] == EncodeLe32(v)
    ensures forall i :: 0 <= i < a.Length && !(at <= i < at + 4) ==> a[i] == old(a[i])
  {
    PutLe16(a, at, v % 0x1_0000);
    PutLe16(a, at + 2, v / 0x1_0000);
    assert a[at..at + 4] == a[at..at + 2] + a[at + 2..at + 4];
  }

  method PutLe64(a: array<byte>, at: nat, v: uint64)
    requires at + 8 <= a.Length
    modifies a
    ensures a[at..at + 8] == EncodeLe64(v)
    ensures forall i :: 0 <= i < a.Length && !(at <= i < at + 8) ==> a[i] == old(a[i])
  {
    PutLe32(a, at, v % 0x1_0000_0000);
    PutLe32(a, at + 4, v / 0x1_0000_0000);
    assert a[at..at + 8] == a[at..at + 4] + a[at + 4..at + 8];
  }

  /** Writes the five header fields in source order. */
  method PutHeader(a: array<byte>, statusOrFlags: uint16, command: uint16, size: uint16, id: uint16)
    requires HEADER_SIZE <= a.Length
    modifies a
    ensures a[..HEADER_SIZE] == Header(MAGIC, statusOrFlags, command, size, id)
    ensures a[HEADER_SIZE..] == old(a[HEADER_SIZE..])
  {
    PutLe32(a, 0, MAGIC);
    PutLe16(a, 4, statusOrFlags);
    PutLe16(a, 6, command);
    PutLe16(a, 8, size);
    PutLe16(a, 10, id);
    assert a[..HEADER_SIZE] == a[0..4] + a[4..6] + a[6..8] + a[8..10] + a[10..12];
  }

  /** arv_uvcp_packet_new_read_memory_cmd. The size field is 16 bits wide:
      the requested size is truncated to its low 16 bits. */
  method NewReadMemoryCmd(address: uint64, size: uint32, packetId: uint16, wantsSize: bool)
    returns (packet: array?<byte>, packetSize: Option<nat>)
    ensures !wantsSize ==> packet == null && packetSize == None
    ensures wantsSize ==> packet != null && fresh(packet) && packetSize == Some(packet.Length)
    ensures wantsSize ==> (
      packet.Length == READ_MEMORY_CMD_SIZE
      && packet[..HEADER_SIZE] == Header(MAGIC, PACKET_TYPE_CMD, COMMAND_READ_MEMORY_CMD,
                                          READ_MEMORY_CMD_INFOS_SIZE, packetId)
      && packet[12..20] == EncodeLe64(address)
      && packet[22..24] == EncodeLe16(size % 0x1_0000))
  {
    if !wantsSize {
      return null, None;
    }
    var a := new byte[READ_MEMORY_CMD_SIZE];
    PutHeader(a, PACKET_TYPE_CMD, COMMAND_READ_MEMORY_CMD, READ_MEMORY_CMD_INFOS_SIZE, packetId);
    PutLe64(a, 12, address);
    PutLe16(a, 22, size % 0x1_0000);
    packet, packetSize := a, Some(a.Length);
  }

  /** arv_uvcp_packet_new_write_memory_cmd. The packet has room for the
      command and `size` payload bytes; the header size counts the address
      and the payload and is truncated to 16 bits. */
  method NewWriteMemoryCmd(address: uint64, size: uint32, packetId: uint16, wantsSize: bool)
    returns (packet: array?<byte>, packetSize: Option<nat>)
    ensures !wantsSize ==> packet == null && packetSize == None
    ensures wantsSize ==> packet != null && fresh(packet) && packetSize == Some(packet.Length)
    ensures wantsSize ==> (
      packet.Length == WRITE_MEMORY_CMD_SIZE + size
      && packet[..HEADER_SIZE] == Header(MAGIC, PACKET_TYPE_CMD, COMMAND_WRITE_MEMORY_CMD,
                                          ToU16(WRITE_MEMORY_CMD_INFOS_SIZE + size), packetId)
      && packet[12..20] == EncodeLe64(address))
  {
    if !wantsSize {
      return null, None;
    }
    var a := new byte[WRITE_MEMORY_CMD_SIZE + size];
    PutHeader(a, PACKET_TYPE_CMD, COMMAND_WRITE_MEMORY_CMD, ToU16(WRITE_MEMORY_CMD_INFOS_SIZE + size), packetId);
    PutLe64(a, 12, address);
    packet, packetSize := a, Some(a.Length);
  }

  // ---------------------------------------------------------------------
  // What a device decoding the packets sees

  /** The reader's view of a read memory command: magic, command, header
      size counting the infos, id, address and the 16-bit size. */
  predicate IsReadMemoryCmd(p: seq<byte>, address: uint64, size: uint32, packetId: uint16)
  {
    |p| == READ_MEMORY_CMD_SIZE
    && GetMagic(p) == MAGIC && GetCommand(Some(p)) == COMMAND_READ_MEMORY_CMD
    && GetSize(p) == READ_MEMORY_CMD_INFOS_SIZE && |p| == HEADER_SIZE + GetSize(p)
    && GetPacketId(Some(p)) == packetId && GetFlags(Some(p)) == FLAGS_REQUEST_ACK
    && Le64(p, 12) == address && Le16(p, 22) == size % 0x1_0000
  }

  /** Every byte image the read builder may produce decodes to its arguments;
      the flags field asks for an acknowledge. */
  lemma {:induction false} ReadMemoryCmdDecodes(p: seq<byte>, address: uint64, size: uint32, packetId: uint16)
    requires |p| == READ_MEMORY_CMD_SIZE
    requires p[..HEADER_SIZE] == Header(MAGIC, PACKET_TYPE_CMD, COMMAND_READ_MEMORY_CMD,
                                         READ_MEMORY_CMD_INFOS_SIZE, packetId)
    requires p[12..20] == EncodeLe64(address) && p[22..24] == EncodeLe16(size % 0x1_0000)
    ensures IsReadMemoryCmd(p, address, size, packetId)
  {
    assert p == p[..HEADER_SIZE] + p[HEADER_SIZE..];
    HeaderRoundTrip(MAGIC, PACKET_TYPE_CMD, COMMAND_READ_MEMORY_CMD, READ_MEMORY_CMD_INFOS_SIZE, packetId, p[HEADER_SIZE..]);
    Le64OfEncode(p, 12, address);
    Le16OfEncode(p, 22, size % 0x1_0000);
  }

  /** The same for a write command: the header size minus the address word
      is the payload size (modulo 2^16), and the packet ends after the payload. */
  lemma {:induction false} WriteMemoryCmdDecodes(p: seq<byte>, address: uint64, size: uint32, packetId: uint16)
    requires |p| == WRITE_MEMORY_CMD_SIZE + size
    requires p[..HEADER_SIZE] == Header(MAGIC, PACKET_TYPE_CMD, COMMAND_WRITE_MEMORY_CMD,
                                         ToU16(WRITE_MEMORY_CMD_INFOS_SIZE + size), packetId)
    requires p[12..20] == EncodeLe64(address)
    ensures GetMagic(p) == MAGIC && GetCommand(Some(p)) == COMMAND_WRITE_MEMORY_CMD
    ensures GetPacketId(Some(p)) == packetId && GetFlags(Some(p)) == FLAGS_REQUEST_ACK
    ensures Le64(p, 12) == address
    ensures GetSize(p) == (WRITE_MEMORY_CMD_INFOS_SIZE + size) % 0x1_0000
    ensures size + WRITE_MEMORY_CMD_INFOS_SIZE < 0x1_0000 ==> |p| == HEADER_SIZE + GetSize(p)
    ensures |p[WRITE_MEMORY_CMD_DATA_OFFSET..]| == size
  {
    assert p == p[..HEADER_SIZE] + p[HEADER_SIZE..];
    HeaderRoundTrip(MAGIC, PACKET_TYPE_CMD, COMMAND_WRITE_MEMORY_CMD, ToU16(WRITE_MEMORY_CMD_INFOS_SIZE + size),
                    packetId, p[HEADER_SIZE..]);
    Le64OfEncode(p, 12, address);
  }
}
