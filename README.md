# Aravis core, modelled in Dafny

This project models the sequential, self-contained core of Aravis, a library for GigE Vision and USB3 Vision cameras, and proves properties of that model. It covers:

- **GVSP frame reassembly** (`gv_stream.dfy`). This is the packet switch of the stream thread in `src/arvgvstream.c`. A leader takes a free input buffer with status FILLING and offset 0. Blocks are copied at the running offset. A block with an unexpected id gives MISSING_BLOCK. A block that does not fit gives SIZE_MISMATCH and is not copied. A full buffer becomes SUCCESS. A trailer pushes the buffer, and cancelling aborts it. The step is a pure function over a packet sequence. The thread's loop and the buffer queues are a class whose methods are proved against that function.
- **Wire-format headers.** The GVSP and GVCP accessors (`gvsp.dfy`, `gvcp.dfy`), the UVCP header helpers and command builders (`uvcp_header.dfy`, `uvcp_packet.dfy`), and the UVSP accessors (`uvsp.dfy`). Each decoder is paired with an encoder or a bound: field masks, packet-id wrap-around, ack sizes and the timestamp conversion.
- **The expression evaluator** of `src/arvevaluator.c`, int64 subset, as written: integer literals and int64 variables pass through the `double` parameters of their constructors, and ABS goes through the C `int` abs() (see Findings for the intended versions, which are modelled beside them):
  - the token table (`evaluator_token.dfy`);
  - the tokenizer (`evaluator_lexer.dfy`);
  - the shunting-yard parser to RPN and the ArvEvaluator object with its expression, constant and sub-expression tables (`evaluator.dfy`);
  - the stack evaluator with its error statuses (`evaluator_eval.dfy`);
  - worked expressions taken from the project's tests (`evaluator_examples.dfy`).
- **String utilities** from `src/arvstr.c` (`arv_str.dfy`): `arv_str_strip`, `arv_str_is_uri`, and the cursor movement of `arv_str_parse_double` and `arv_str_parse_double_list`.
- **Zip reading** (`zip_le.dfy`, `zip.dfy`): unaligned little-endian reads, the end-of-central-directory scan, the file list, lookup by name, and the stored (uncompressed) copy of a file.
- **Utilities from `src/arvmisc.c`.** The histogram ArvStatistic (`statistic.dfy`), the endianness-aware copy (`endianness.dfy`), and ArvValue (`arv_value.dfy`).
- **DOM child lists** (`dom_node.dfy`). The doubly linked sibling list of `src/arvdomnode.c` is a class with `parent`, `firstChild`, `lastChild`, `previousSibling` and `nextSibling` fields. Append, remove, insert-before and replace are each proved to keep self's list well linked and to give self exactly the new children stated in their contracts. As written, insert_before with a NULL ref_child and append_child of a node that already has another parent differ from the documented intent (see Findings); the corrected versions are modelled beside them.
- **GenICam register arithmetic**:
  - the register node's cache, address list and masked get/set (`gc_register.dfy`);
  - integer bounds from length and bit range (`gc_int_reg.dfy`, `gc_masked_int_reg.dfy`);
  - the schema version check (`gc_register_description.dfy`).
- **The GenTL info-buffer copy** of `src/gentl/private-buf.c` (`gentl_buf.dfy`).
- **The V4L2 pixel-format map** (`v4l2_misc.dfy`).

Shared definitions live in `common.dfy` (fixed-width integer types, two's complement conversions, Option) and `bits.dfy` (powers of two, masks and shifts written with `/` and `%`).

Modelling choices:

- **Where C leaves the result undefined, the model takes the x86/gcc result.** A shift count is taken modulo the operand width, and signed overflow wraps in two's complement. Where this decides a value, the member's row says so.
- **The host is little-endian.** The `G_BYTE_ORDER == G_LITTLE_ENDIAN` branches are the ones modelled.
- **`src/arvgvstream.c` is an older version.** It reads `buffer->size` and keeps a 16-bit block id, and the model follows it as written. `arvgvsp.h` and `arvbuffer.h` of that version are not part of this model. So a packet reaches the step already classified as leader, block or trailer, with its id and payload.
- **REMAINING_OPERANDS is reported whenever the stack does not hold exactly one value.** The stack index starts at −1 and must end at 0, so an empty RPN reports it as well.
- **The previous token after a sub-expression is not from the source.** After a sub-expression, `parse_to_stacks` compares against a token it has already freed. The model treats that token as the variable token (an operand), which is the behaviour intended.
- **UNKNOWN_CONSTANT and UNKNOWN_SUB_EXPRESSION are unreachable.** Setting a constant or sub-expression to NULL removes it from its table, so a name in a table always has a value.
- **The evaluator's main path runs the code as written.** The lexer builds integer tokens with `EvaluatorLexer.NewInt64AsWritten`, the operator switch `EvaluatorEval.Apply` computes ABS with `EvaluatorEval.AbsAsWritten`, and `SetInt64Variable` stores `ArvValue.NewInt64AsWritten`. The exact constructors and the 64-bit ABS are the corrected halves of the Findings rows, each proved to agree with the written one up to 2^53 or 2^31.
- **Double values sit outside the model.** Evaluator doubles (double literals, `/`, `**`, the transcendental functions) give an outcome the model leaves open. So does `INT64_MIN % -1`, which traps in the x86 `idiv` instruction instead of giving a value.
- **Zip reads past the buffer have their own results.** They are undefined in C, and the model gives them distinct results (`DirectoryOutside`, `EntryOutside`, `PositionOutside`, `ContentsOutside`).
- **Other zip edge cases:**
  - the backward scan for the end-of-central-directory record never examines position 0;
  - a zero-size stored file gives no data, because `g_malloc (0)` returns NULL;
  - the file list is built by prepending, so looking up a name finds the last directory entry with that name.
- **GenTL is modelled on a 64-bit platform.** `size_t`, `intptr_t` and pointers are 8 bytes.
- **Some calls become parameters.** Integer parsing (`atoi`, `g_ascii_strtoull`) and the resolution of node references (`pAddress`, `pLength`) are turned into parameters or pre-decoded elements.
- **The register node's port I/O is left out.** `_read_cache`/`_write_cache` go through a port node the model does not have. Its get and set work on the cache alone.

## Model

| member | source | states |
|---|---|---|
| `ZipLe.GUInt32FromUnalignedLePtr` | src/arvzip.h:70-85 | A NULL pointer gives 0; otherwise the four bytes at ptr + offset are read (see the next rows). |
| `ZipLe.GUInt16FromUnalignedLePtr` | src/arvzip.h:97-110 | A NULL pointer gives 0; the offset is a gint16; otherwise the two bytes at ptr + offset are read. |
| `ZipLe.GUInt32IsLittleEndian` | src/arvzip.h:77-84 | The 32-bit read is b0 + 2^8·b1 + 2^16·b2 + 2^24·b3 of the bytes at ptr + offset, at any alignment. |
| `ZipLe.GUInt16IsLittleEndian` | src/arvzip.h:104-109 | The 16-bit read is b0 + 2^8·b1 of the bytes at ptr + offset. |
| `ZipLe.GUInt32ReadsOnlyItsBytes` | src/arvzip.h:79-82 | Two memories that agree on bytes ptr + offset to ptr + offset + 3 give the same 32-bit value. |
| `ZipLe.GUInt16ReadsOnlyItsBytes` | src/arvzip.h:106-107 | Two memories that agree on bytes ptr + offset and ptr + offset + 1 give the same 16-bit value. |
| `ZipLe.GUInt32OfLeImage` | src/arvzip.h:70-85 | Round trip: the little-endian image of any v, stored anywhere, reads back as v. |
| `ZipLe.GUInt16OfLeImage` | src/arvzip.h:97-110 | Round trip for the 16-bit read. |
| `ZipLe.UnalignedTestValues` | tests/misc.c:10-40 | The eight reads of the unit test, e.g. bytes 11 22 33 44 give 0x44332211 and bytes 22 33 give 0x3322. |
| `Zip.ScanStartInside` | src/arvzip.c:149 | The backward scan starts at size − 4 (as an int), so it either does not run or starts where four bytes can be read. |
| `Zip.DirectoryFrom` | src/arvzip.c:149-158 | The scan result is the highest position from the start down to 1 that holds the end-of-directory signature; None exactly when no position 1..start holds it; position 0 is never examined. |
| `Zip.DirectoryPosition` | src/arvzip.c:149-158 | A directory found is at a signature position below 2^31 (i is an int). |
| `Zip.FindDirectory` | src/arvzip.c:148-158 | The scan loop with its early break returns exactly DirectoryPosition. |
| `Zip.CString` | src/arvzip.c:91 | g_strndup keeps a prefix of the bytes, stops at the first NUL and holds no NUL. |
| `Zip.EntryAt` | src/arvzip.c:84-100 | An entry position holds a file exactly when the central signature 0x02014b50 is there; its length is 46 + name + extra + comment lengths. |
| `Zip.Entries` | src/arvzip.c:81-101 | The walk meets at most n_files entries. |
| `Zip.AddressStep` | src/arvzip.c:84-100 | Advancing the offset and then forming buffer + header_size + offset is the same size_t address as adding the length to the previous address. |
| `Zip.Walk` | src/arvzip.c:74-102 | The loop, for any entry reader, builds the reverse of the entries met in directory order (g_slist_prepend), stopping at the first missing signature. |
| `Zip.BuildFileList` | src/arvzip.c:74-102 | arv_zip_build_file_list on the buffer gives FileList, the reversed walk. |
| `Zip.ZipOf` | src/arvzip.c:134-146 | A NULL buffer or a size of 0 is refused; any other buffer opens. |
| `Zip.OpenAt` | src/arvzip.c:162-175 | After the record is found, the zip keeps the buffer and lists no more files than n_files. |
| `Zip.NewZip` | src/arvzip.c:134-176 | arv_zip_new computes ZipOf. |
| `Zip.OpenDirectory` | src/arvzip.c:162-175 | The part after the scan computes OpenAt. |
| `Zip.ZipWithoutDirectory` | src/arvzip.c:159-160 | Without an end-of-directory record the zip lists nothing and all its counters are 0. |
| `Zip.ZipCountMismatch` | src/arvzip.c:163-167 | When the two entry counts differ, n_files is 0 and nothing is listed. |
| `Zip.ZipListed` | src/arvzip.c:163-173 | Otherwise n_files is the 16-bit count at +10, header_size is position − (offset + size) in size_t, and the list is the directory walked from its offset, reversed. |
| `Zip.Find` | src/arvzip.c:105-117 | The result is None exactly when no file has the name; a result has the name. |
| `Zip.FindPosition` | src/arvzip.c:110-114 | The file found is the first of the list that has the name. |
| `Zip.FindFile` | src/arvzip.c:105-117 | The list loop computes Find. |
| `Zip.FindsLastEntry` | src/arvzip.c:95-114 | Since the list is the directory backwards, the file found is the last directory entry with the name. |
| `Zip.FindsNothing` | src/arvzip.c:110-116 | Nothing is found exactly when no directory entry has the name. |
| `Zip.FileData` | src/arvzip.c:120-131 | Without the local signature 0x04034b50 the position is −1; with it, it is offset + header_size + 30 + name length + extra length, as a ptrdiff_t. |
| `Zip.DataPositionWraps` | src/arvzip.c:124-130 | Reducing offset + header_size to size_t first does not change the ptrdiff_t result. |
| `Zip.GetFile` | src/arvzip.c:204-248 | An unknown name gives no file; stored contents are uncompressed_size bytes copied from the file's data position, with compressed_size ≥ uncompressed_size > 0. |
| `Zip.GetFileCopy` | src/arvzip.c:203-248 | The method with its copy loop computes GetFile, and *size is the size of what it returns (0 when nothing). |
| `Zip.CopyBytes` | src/arvzip.c:241 | The memcpy loop copies exactly buffer[start..start + n]. |
| `Zip.EncodeEntry` | src/arvzip.c:85-100 | A central-directory entry for a file is 46 bytes plus its name, extra field and comment. |
| `Zip.EncodedFields` | src/arvzip.c:85-100 | The encoded entry holds the signature, sizes, name length, extra and comment lengths, offset and name at the offsets the reader uses. |
| `Zip.FieldAt` | src/arvzip.c:84 | A field of an entry stored in the buffer is found at the entry's position plus its own offset. |
| `Zip.EntryFieldsRoundTrip` | src/arvzip.c:85-100 | Every field the reader uses reads back from an encoded entry wherever it sits in the buffer. |
| `Zip.EntryRoundTrip` | src/arvzip.c:84-100 | Round trip: an encoded entry with a NUL-free name reads back as its file and its full length. |
| `Zip.CStringOfText` | src/arvzip.c:91 | g_strndup copies a NUL-free name whole. |
| `Gvsp.LeaderPayloadType` | src/arvgvspprivate.h:368-386 | A non-leader packet gives UNKNOWN and stores nothing through has_chunks; a leader gives a 14-bit payload type and stores has_chunks. |
| `Gvsp.MultipartNParts` | src/arvgvspprivate.h:402-416 | The part count fits in a byte (a guint8 return). |
| `Gvsp.LeaderMultipartInfos` | src/arvgvspprivate.h:418-455 | TRUE (Some) exactly when part_id < n_parts. |
| `Gvsp.TypeIsErrorIsUpperHalf` | src/arvgvspprivate.h:257-261 | A packet type is an error exactly when its bit 0x8000 is set: PACKET_UNAVAILABLE is one, OK and RESEND are not. |
| `Gvsp.ExtendedIdAndContentTypeShareByte` | src/arvgvspprivate.h:263-283 | The extended-id flag is bit 7 of packet_infos' first byte and the content type is the other 7 bits of it. |
| `Gvsp.StandardPacketIdBytes` | src/arvgvspprivate.h:326-352 | In the standard layout the packet id is the low 24 bits of packet_infos and the frame id the 16-bit field, both big-endian. |
| `Gvsp.StandardPacket` | src/arvgvspprivate.h:326-366 | The standard packet image is 8 bytes of header plus its data. |
| `Gvsp.ExtendedPacket` | src/arvgvspprivate.h:326-366 | The extended packet image is 20 bytes of header plus its data. |
| `Gvsp.StandardHeaderRoundTrip` | src/arvgvspprivate.h:251-366 | Round trip: every accessor reads back the type, frame id, content type, packet id and data that built a standard packet. |
| `Gvsp.ExtendedHeaderRoundTrip` | src/arvgvspprivate.h:251-366 | Round trip for the extended layout, with its 64-bit frame id and 32-bit packet id. |
| `Gvsp.LeaderPayloadTypeBytes` | src/arvgvspprivate.h:376-383 | The payload type is the big-endian field masked with 0x3fff; has_chunks is bit 0x4000 or the value 0x0004. |
| `Gvsp.LeaderTimestampIsBe64` | src/arvgvspprivate.h:388-400 | The leader timestamp is the big-endian 64-bit value of its high and low halves; a non-leader gives 0. |
| `Gvsp.NoPartsUnlessMultipart` | src/arvgvspprivate.h:402-473 | A leader that is not multipart announces no part: infos are FALSE and the size is 0 for any part id. |
| `Gvsp.MultipartSizeAgreesWithInfos` | src/arvgvspprivate.h:418-473 | get_multipart_size is the size get_multipart_infos stores, and 0 when that returns FALSE. |
| `Gvsp.MultipartNPartsByte` | src/arvgvspprivate.h:402-413 | For a multipart leader n_parts is the last byte of packet_infos. |
| `Gvsp.MultipartPositionOnlyForMultipart` | src/arvgvspprivate.h:518-573 | Only a multipart data packet returns TRUE and a data pointer; any other gives part 0, offset 0, FALSE and NULL. |
| `Gvsp.MultipartDataSizeIsBytesAfterHeader` | src/arvgvspprivate.h:537-554 | With the packet's own length, a multipart packet's data size is the number of bytes after its multipart header; other packets give 0. |
| `Gvsp.ImageInfosOnlyForImageLeaders` | src/arvgvspprivate.h:475-503 | Image infos are returned exactly for a leader of payload type image or extended chunk data. |
| `Gvsp.DataSizeIsBytesAfterHeader` | src/arvgvspprivate.h:505-599 | With the packet's own length the data size is the bytes after the header; a shorter size wraps in size_t; only payload packets have a payload data size. |
| `Gvsp.TimestampToNsExact` | src/arvgvspprivate.h:575-590 | Without overflow, splitting into seconds and remainder gives exactly ⌊t·10^9 / f⌋. |
| `Gvsp.TimestampToNsWithoutWrap` | src/arvgvspprivate.h:584-587 | When neither product wraps, the result is (t / f)·10^9 + ((t mod f)·10^9) / f. |
| `Gvsp.TimestampSplit` | src/arvgvspprivate.h:584-587 | The identity behind the split: ⌊t·10^9 / f⌋ = (t / f)·10^9 + ⌊(t mod f)·10^9 / f⌋. |
| `Gvsp.TimestampToNsZeroFrequency` | src/arvgvspprivate.h:581-582 | A frequency of 0 gives 0. |
| `Gvcp.GetPacketType` | src/arvgvcpprivate.h:379-386 | A NULL packet gives ERROR; otherwise the first header byte. |
| `Gvcp.GetPacketFlags` | src/arvgvcpprivate.h:395-402 | A NULL packet gives 0; otherwise the second header byte. |
| `Gvcp.SetPacketId` | src/arvgvcpprivate.h:420-425 | Setting the id leaves a NULL packet NULL and keeps the packet's length. |
| `Gvcp.Header` | src/arvgvcpprivate.h:317-323 | The reference header image is 8 bytes. |
| `Gvcp.ReadMemoryCmdImage` | src/arvgvcpprivate.h:436-451 | A read-memory command image is the header plus the address and size words. |
| `Gvcp.WriteMemoryCmdImage` | src/arvgvcpprivate.h:465-485 | A write-memory command image is the header, the address word and the data. |
| `Gvcp.NextPacketIdIsCyclicSuccessor` | src/arvgvcpprivate.h:541-548 | The next id is never 0: it is id mod 0xffff + 1, so 0xffff wraps to 1, and it is inverted by PreviousPacketId on 1 .. 0xffff. |
| `Gvcp.NextPacketIdInjective` | src/arvgvcpprivate.h:541-548 | Two valid ids never share a successor. |
| `Gvcp.NullPacketDefaults` | src/arvgvcpprivate.h:379-569 | Every getter given a NULL packet returns (or stores) 0, and the packet type is ERROR. |
| `Gvcp.HeaderRoundTrip` | src/arvgvcpprivate.h:379-433 | Round trip: type, flags, command, size and id read back from a header built from them. |
| `Gvcp.SetPacketIdRoundTrip` | src/arvgvcpprivate.h:420-433 | After set_packet_id, get_packet_id returns the id and every byte outside the id field is unchanged. |
| `Gvcp.ReadMemoryCmdRoundTrip` | src/arvgvcpprivate.h:436-451 | The decoded read-memory command gives back the address and the size masked to 16 bits. |
| `Gvcp.WriteMemoryCmdRoundTrip` | src/arvgvcpprivate.h:465-485 | The decoded write-memory command gives back the address, a size of header.size − 4 equal to the data length, and the data. |
| `Gvcp.WriteMemoryCmdSizeWraps` | src/arvgvcpprivate.h:477-478 | A header size below 4 wraps to 2^32 + size − 4. |
| `Gvcp.AckSizes` | src/arvgvcpprivate.h:453-554 | The read-memory ack is 12 bytes plus its data, with the data after the address word; every other ack is 12 bytes. |
| `UvcpHeader.SetPacketId` | src/arvuvcpprivate.h:338-342 | Setting the id leaves a NULL packet NULL and keeps the packet's length. |
| `UvcpHeader.ManifestSchemaType` | src/arvuvcpprivate.h:271-277 | The schema type is a 5-bit value. |
| `UvcpHeader.Header` | src/arvuvcpprivate.h:176-185 | The reference header image is 12 bytes: magic, status or flags, command, size, id. |
| `UvcpHeader.HeaderRoundTrip` | src/arvuvcpprivate.h:297-352 | Round trip: magic, status, flags, command, size and id read back, little-endian, from a header built from them. |
| `UvcpHeader.StatusIsFlags` | src/arvuvcpprivate.h:178-319 | Status and flags are one union field, so a packet's status equals its flags. |
| `UvcpHeader.NullPacketDefaults` | src/arvuvcpprivate.h:274-349 | A NULL packet gives status ERROR, flags 0, command 0, id 0; a NULL manifest entry gives RAW. |
| `UvcpHeader.SetPacketIdRoundTrip` | src/arvuvcpprivate.h:338-352 | After set_packet_id, get_packet_id returns the id and no byte outside the id field changes. |
| `UvcpHeader.NextPacketIdIsCyclicSuccessor` | src/arvuvcpprivate.h:384-391 | The next id is never 0, is id mod 0xffff + 1, and PreviousPacketId inverts it on 1 .. 0xffff. |
| `UvcpHeader.ReadMemoryAckSizeHoldsData` | src/arvuvcpprivate.h:354-364 | The read ack size is the header plus data_size, so data_size bytes follow the ack data pointer. |
| `UvcpHeader.PendingAckTimeoutOfField` | src/arvuvcpprivate.h:378-382 | The pending-ack timeout is the little-endian word 2 bytes past the header. |
| `UvcpHeader.ManifestSchemaTypeOfField` | src/arvuvcpprivate.h:271-277 | Round trip: a schema word holding type << 10 with any low and high bits gives the type back. |
| `UvcpPacket.PutLe16` | src/arvuvcp.c:63-68 | Stores a 16-bit field little-endian and changes no other byte. |
| `UvcpPacket.PutLe32` | src/arvuvcp.c:62 | Stores a 32-bit field little-endian and changes no other byte. |
| `UvcpPacket.PutLe64` | src/arvuvcp.c:67-100 | Stores a 64-bit field little-endian and changes no other byte. |
| `UvcpPacket.PutHeader` | src/arvuvcp.c:62-99 | Writes the whole header (magic, type, command, size, id) and nothing past it. |
| `UvcpPacket.NewReadMemoryCmd` | src/arvuvcp.c:51-71 | A NULL packet_size gives NULL; otherwise a fresh 24-byte packet whose header has the magic, CMD, READ_MEMORY_CMD, size 12 and the id, with the address and the size truncated to 16 bits. |
| `UvcpPacket.NewWriteMemoryCmd` | src/arvuvcp.c:84-103 | A NULL packet_size gives NULL; otherwise a fresh packet of 20 + size bytes whose header size is 8 + size in 16 bits, with the address. |
| `UvcpPacket.ReadMemoryCmdDecodes` | src/arvuvcp.c:58-68 | Round trip: the read command decodes to its address, 16-bit size and id, with flags asking for an ack, and header.size counts the bytes after the header. |
| `UvcpPacket.WriteMemoryCmdDecodes` | src/arvuvcp.c:91-100 | Round trip: the write command decodes to its address and id; header.size counts the bytes after the header unless 8 + size overflows 16 bits; size bytes of data follow. |
| `Uvsp.GetBufferPayloadType` | src/arvuvspprivate.h:110-127 | A NULL packet gives UNKNOWN and stores nothing; otherwise a 14-bit payload type and a stored has_chunks. |
| `Uvsp.GetRegion` | src/arvuvspprivate.h:138-156 | A NULL packet stores nothing; otherwise the region is stored, with y_padding always 0 and a 16-bit x_padding. |
| `Uvsp.LeaderImage` | src/arvuvspprivate.h:52-80 | The reference leader image is the 16-byte header plus the 36-byte leader infos. |
| `Uvsp.PacketTypeByMagic` | src/arvuvspprivate.h:97-108 | UNKNOWN exactly for NULL; LEADER exactly for the leader magic, TRAILER exactly for the trailer magic, DATA for every other magic. |
| `Uvsp.PayloadTypeBytes` | src/arvuvspprivate.h:121-126 | The payload type is the little-endian field masked with 0x3fff; has_chunks is its bit 0x4000 (unlike GVSP, 0x0004 alone is not a chunk type here). |
| `Uvsp.NullPacketDefaults` | src/arvuvspprivate.h:100-176 | A NULL packet gives UNKNOWN, frame id 0, pixel format 0, timestamp 0 and stores no region. |
| `Uvsp.LeaderRoundTrip` | src/arvuvspprivate.h:97-180 | Round trip: every getter reads back the frame id, payload type, timestamp, pixel format and region a leader was built from. |
| `GvStream.Splice` | src/arvgvstream.c:83 | The memcpy of a block keeps the buffer's length, places the block at the offset and leaves every other byte as it was. |
| `GvStream.Run` | src/arvgvstream.c:38-101 | Running the receive loop over any packet sequence keeps every buffer's data at its size and the offset within the buffer. |
| `GvStream.StepPreservesInv` | src/arvgvstream.c:44-99 | One packet keeps that invariant. |
| `GvStream.StepConservesBuffers` | src/arvgvstream.c:46-96 | No buffer is lost or made up: input + in flight + output is a constant count, and the output queue only grows at its end. |
| `GvStream.LeaderStartsBuffer` | src/arvgvstream.c:45-57 | A leader pushes the buffer in flight, takes the front input buffer, sets its width, height and frame id, status FILLING, block id 0 and offset 0. |
| `GvStream.LeaderWithoutInputDropsFrame` | src/arvgvstream.c:48-61 | With an empty input queue a leader leaves no buffer, and the blocks that follow change nothing. |
| `GvStream.BlocksWithoutBufferIgnored` | src/arvgvstream.c:60-61 | With no buffer in flight, any run of blocks leaves the state unchanged. |
| `GvStream.UnexpectedBlockMarksMissing` | src/arvgvstream.c:62-73 | A block other than the next expected id sets MISSING_BLOCK, takes the received id as the counter and copies nothing. |
| `GvStream.OversizedBlockMarksMismatch` | src/arvgvstream.c:77-82 | A block that would pass the buffer's size sets SIZE_MISMATCH, copies nothing and keeps the offset. |
| `GvStream.FittingBlockIsCopied` | src/arvgvstream.c:83-87 | A fitting block is copied at the offset, the offset grows by its size, earlier bytes are kept, and the status is SUCCESS exactly when the buffer is full, FILLING otherwise. |
| `GvStream.BlockAfterFillingIgnored` | src/arvgvstream.c:62-76 | Once the status is no longer FILLING, an expected block only advances the counter. |
| `GvStream.TrailerPushesBuffer` | src/arvgvstream.c:91-98 | A trailer pushes the buffer, turning FILLING into SIZE_MISMATCH and keeping any other status. |
| `GvStream.CancelAbortsBuffer` | src/arvgvstream.c:103-106 | After the loop, a buffer in flight is marked ABORTED and pushed. |
| `GvStream.BlocksOf` | src/arvgvstream.c:62-63 | The in-order block sequence numbers the chunks from 1. |
| `GvStream.RunAppend` | src/arvgvstream.c:38-101 | Running a sequence and then one more packet is running the longer sequence. |
| `GvStream.InOrderBlocksReassemble` | src/arvgvstream.c:59-89 | Blocks 1..n whose sizes add up to the buffer's size end with SUCCESS and the buffer holding their concatenation. |
| `GvStream.PrefixReassembles` | src/arvgvstream.c:59-89 | After the first k in-order blocks, the buffer holds their concatenation and is FILLING until the last one. |
| `GvStream.NextChunk` | src/arvgvstream.c:62-87 | One more in-order block extends that prefix by one chunk. |
| `GvStream.Buffer.constructor` | src/arvgvstream.c:76-87 | A buffer has a data array of its size and starts FILLING with its image fields at 0. |
| `GvStream.CopyBlock` | src/arvgvstream.c:83 | The copy loop writes exactly Splice of the old data. |
| `GvStream.StreamThread.View` | src/arvgvstream.c:18-30 | The value of the thread state meets the invariant. |
| `GvStream.StreamThread.constructor` | src/arvgvstream.c:26-30 | The thread starts with no buffer, block id 0, offset 0, the given input queue and an empty output queue. |
| `GvStream.StreamThread.SetStatus` | src/arvgvstream.c:54-104 | Setting the buffer's status changes only that status. |
| `GvStream.StreamThread.CopyPayload` | src/arvgvstream.c:83 | Copying a payload changes only the buffer's bytes at the offset. |
| `GvStream.StreamThread.PushBuffer` | src/arvgvstream.c:46-96 | The buffer in flight, if any, is appended to the output queue and the thread holds none. |
| `GvStream.StreamThread.PopInput` | src/arvgvstream.c:48-56 | The front input buffer becomes the buffer in flight with block id and offset 0. |
| `GvStream.StreamThread.SetImage` | src/arvgvstream.c:51-53 | The leader's width, height and frame id are set, nothing else. |
| `GvStream.StreamThread.TakeBuffer` | src/arvgvstream.c:48-57 | An empty input queue changes nothing; otherwise the front buffer is taken with the leader's fields and FILLING. |
| `GvStream.StreamThread.Receive` | src/arvgvstream.c:44-99 | One pass through the packet switch does what Step says. |
| `GvStream.StreamThread.ReceiveBlock` | src/arvgvstream.c:59-89 | The block case does what Step says. |
| `GvStream.StreamThread.FillBlock` | src/arvgvstream.c:77-87 | The size check and copy of an expected block in a FILLING buffer: SIZE_MISMATCH when it does not fit, otherwise copied with the offset advanced and SUCCESS when full. |
| `GvStream.StreamThread.Thread` | src/arvgvstream.c:18-109 | The whole thread is Cancel after Run over the received packets. |
| `EvaluatorToken.Ordinal` | src/arvevaluator.c:82-130 | Every token id has its place among the 47 entries of the enumeration. |
| `EvaluatorToken.NewToken` | src/arvevaluator.c:203-210 | A new token has the given id. |
| `EvaluatorToken.NewVariable` | src/arvevaluator.c:230-237 | A variable token is an operand and a variable, and holds the name. |
| `EvaluatorToken.NewDouble` | src/arvevaluator.c:212-219 | A double constant is an operand and not a variable. |
| `EvaluatorToken.NewInt64` | src/arvevaluator.c:221-228 | The intended int64 constant is an operand holding exactly the value (see Findings). |
| `EvaluatorToken.ComparePrecedence` | src/arvevaluator.c:318-338 | TRUE only when both tokens are present. |
| `EvaluatorToken.ClassesDisjoint` | src/arvevaluator.c:275-316 | No token is both operand and operator; parentheses are not operators; a comma is an operator. |
| `EvaluatorToken.ClassesCover` | src/arvevaluator.c:282-295 | The operands are exactly the int64, double and variable tokens; every other token is an operator, a parenthesis or UNKNOWN. |
| `EvaluatorToken.ArgumentCounts` | src/arvevaluator.c:144-192 | Every operator except the comma takes 1 to 3 arguments. |
| `EvaluatorToken.OperandArgumentCount` | src/arvevaluator.c:187-191 | Operands and parentheses take no argument. |
| `EvaluatorToken.TernaryArgumentCount` | src/arvevaluator.c:147 | Only '?' takes three arguments. |
| `EvaluatorToken.LeftParenthesisStops` | src/arvevaluator.c:319-338 | No operator yields to a '(' on the stack, whose precedence is −1 in the token table (line 188). |
| `EvaluatorToken.PrecedenceOrder` | src/arvevaluator.c:330-337 | A lower precedence always yields, a higher never, and at equal precedence exactly the left-associative tokens yield. |
| `EvaluatorToken.PrecedenceExamples` | src/arvevaluator.c:319-338 | '+' yields to '*' and '*' does not yield to '+'. |
| `EvaluatorToken.LeftAssociativityExample` | src/arvevaluator.c:319-338 | '-' yields to '-' (left to right). |
| `EvaluatorToken.RightAssociativityExamples` | src/arvevaluator.c:319-338 | '**' and unary minus do not yield to themselves (right to left). |
| `EvaluatorToken.MissingTokenExample` | src/arvevaluator.c:325-328 | A NULL token gives FALSE. |
| `EvaluatorLexer.SkipSpaces` | src/arvstr.h:43-48 | Skipping spaces stops at the first non-space and passes only spaces. |
| `EvaluatorLexer.IdentifierEnd` | src/arvevaluator.c:379-380 | The identifier loop stops at the first character that is not alphanumeric or '_' and passes only such characters. |
| `EvaluatorLexer.BaseDigitsEnd` | src/arvevaluator.c:359 | The digit run of a base ends at a character that is not a digit of it. |
| `EvaluatorLexer.IntegerDigits` | src/arvevaluator.c:359-360 | g_ascii_strtoll with base 0 on a digit consumes at least that digit. |
| `EvaluatorLexer.StrToLL` | src/arvevaluator.c:359 | The value of an unsigned literal is not negative (clamped to INT64_MAX). |
| `EvaluatorLexer.Lowercase` | src/arvevaluator.c:384-420 | Case folding keeps the length and folds each character. |
| `EvaluatorLexer.Punctuation` | src/arvevaluator.c:432-501 | A recognised symbol consumes at least one character. |
| `EvaluatorLexer.NumberToken` | src/arvevaluator.c:352-374 | A number always gives a token and consumes at least its first digit; an integer literal goes through `arv_evaluator_token_new_int64` as written, with its `double` parameter (see IntegerLiteralToken). |
| `EvaluatorLexer.SymbolToken` | src/arvevaluator.c:431-502 | A symbol token consumes at least one character; an unknown character consumes none. |
| `EvaluatorLexer.NextToken` | src/arvevaluator.c:341-505 | The position never moves backwards, and a token found always consumes input; its integer literals are the rounded constants of NumberToken. |
| `EvaluatorLexer.IntegerLiteralToken` | src/arvevaluator.c:352-374 | An integer literal that the double reading does not outrun becomes the constant as written, ending after its digits, and holds the strtoll value exactly when that value has at most 53 bits. |
| `EvaluatorLexer.ReadNumber` | src/arvevaluator.c:352-374 | The number branch, comparing the strtoll and parse_double lengths and building the integer token through the `double` parameter, computes NumberToken. |
| `EvaluatorLexer.ReadWord` | src/arvevaluator.c:375-430 | The identifier loop ends at IdentifierEnd and yields the function token or variable of the word. |
| `EvaluatorLexer.GetNextToken` | src/arvevaluator.c:341-505 | arv_get_next_token, with its loops, computes NextToken, rounded integer literals included. |
| `EvaluatorLexer.NewInt64AsWritten` | src/arvevaluator.c:221-228 | The token as written is an int64 constant. |
| `EvaluatorLexer.NewInt64AsWrittenRounds` | src/arvevaluator.c:221-228 | Through the double parameter (the lexer passes it the parsed literal at lines 359 and 371), 2^53 + 1 becomes 2^53 and INT64_MAX becomes INT64_MIN; the intended token keeps 2^53 + 1. |
| `EvaluatorLexer.NewInt64AsWrittenExactBelow53Bits` | src/arvevaluator.c:221-228 | Up to 2^53 the two tokens agree. |
| `EvaluatorLexer.NextTokenCases` | src/arvevaluator.c:341-505 | No token exactly at the terminator or at a character no token starts with; the position is then after the spaces. |
| `EvaluatorLexer.SignDependsOnPrevious` | src/arvevaluator.c:438-451 | '-' is subtraction exactly after an operand or ')' and unary minus otherwise; '+' likewise addition or plus; one character is consumed. |
| `EvaluatorLexer.TwoCharacterOperators` | src/arvevaluator.c:452-494 | Exactly the pairs `**`, `&&`, `\|\|`, `<>`, `<<`, `<=`, `>>`, `>=` consume two characters. |
| `EvaluatorLexer.TwoCharacterOperatorIds` | src/arvevaluator.c:452-494 | Each of those pairs gives its operator. |
| `EvaluatorLexer.SymbolStartsToken` | src/arvevaluator.c:431-502 | A character other than a digit, letter or '_' gives the symbol token or none. |
| `EvaluatorLexer.IdentifierToken` | src/arvevaluator.c:375-430 | A word gives its function token when it is a keyword and a variable of that name otherwise, ending after the word. |
| `EvaluatorLexer.KeywordIgnoresCase` | src/arvevaluator.c:384-420 | Keywords are matched without regard to case. |
| `EvaluatorLexer.KeywordExamples` | src/arvevaluator.c:390-393 | "SIN" is sin and "Cos" is cos. |
| `EvaluatorLexer.MoreKeywordExamples` | src/arvevaluator.c:400-419 | "abs" is abs and "FLOOR" is floor. |
| `EvaluatorLexer.NotKeywordExamples` | src/arvevaluator.c:384-428 | "PI" and "sine" are variables (the length must match too). |
| `EvaluatorLexer.DecimalExample` | src/arvevaluator.c:359-373 | "10" is the int64 10, consuming two characters. |
| `EvaluatorLexer.HexadecimalExample` | src/arvevaluator.c:359-373 | "0x1F" is the int64 31 (base 0 takes the hex prefix). |
| `EvaluatorLexer.OctalExample` | src/arvevaluator.c:359-373 | "010" is the int64 8 (base 0 takes a leading 0 as octal). |
| `EvaluatorLexer.DoubleToken` | src/arvevaluator.c:366-369 | When parse_double reads further than strtoll, the token is a double over the longer text. |
| `EvaluatorLexer.FractionExample` | src/arvevaluator.c:366-369 | "2.5" is a double. |
| `EvaluatorLexer.ExponentExample` | src/arvevaluator.c:366-369 | "1e3" is a double. |
| `EvaluatorLexer.NotOctalExample` | src/arvevaluator.c:366-369 | "08" is a double: strtoll reads only "0", parse_double reads both digits. |
| `EvaluatorEval.BitNot` | src/arvevaluator.c:543-546 | ~a is −1 − a in two's complement. |
| `EvaluatorEval.Abs64` | src/arvevaluator.c:743-749 | The intended 64-bit absolute value of a, except that INT64_MIN wraps to itself. |
| `EvaluatorEval.Sign` | src/arvevaluator.c:719-727 | sgn is −1, 0 or 1 exactly as a is negative, zero or positive. |
| `EvaluatorEval.Apply` | src/arvevaluator.c:532-810 | The operator switch as written (ABS through the C `int` abs()): the only errors an operator itself raises are DIVISION_BY_ZERO (only for '%' and '/' with a zero right operand), UNKNOWN_VARIABLE (only for a variable missing from the table) and UNKNOWN_OPERATOR. |
| `EvaluatorEval.Final` | src/arvevaluator.c:815-839 | The end of the run succeeds exactly when one value is left, and returns it; otherwise REMAINING_OPERANDS with 0. |
| `EvaluatorEval.StepShape` | src/arvevaluator.c:520-812 | A token that is applied needs n_args values and room on the stack, replaces its n_args values by one and keeps the values below; a token that stops the run outputs 0 and a failure status. |
| `EvaluatorEval.EvaluateOn` | src/arvevaluator.c:508-840 | The evaluation loop over the RPN list and a value array computes RunOn, for any operator semantics. |
| `EvaluatorEval.Evaluate` | src/arvevaluator.c:508-840 | evaluate computes Run for the operator switch as written and the variable table. |
| `EvaluatorEval.DivBounds` | src/arvevaluator.c:628-631 | Dividing an int64 by a positive power keeps it in range and floors it. |
| `EvaluatorEval.RemainderLemma` | src/arvevaluator.c:665-667 | The truncated remainder differs from a by a multiple of b and is smaller than the absolute value of b. |
| `EvaluatorEval.SuccessIsBalanced` | src/arvevaluator.c:517-831 | A successful run means the RPN list is balanced: every operator finds its arguments and one value is left. |
| `EvaluatorEval.BalancedAvoidsStructuralErrors` | src/arvevaluator.c:517-831 | On a balanced list the run fails only through an operator's own error, never MISSING_ARGUMENTS or REMAINING_OPERANDS. |
| `EvaluatorEval.SwitchErrors` | src/arvevaluator.c:532-810 | The operator switch raises only operator errors and outputs 0 with them. |
| `EvaluatorEval.RunShape` | src/arvevaluator.c:517-839 | Both directions for evaluate: success implies balanced, and balanced excludes the structural errors. |
| `EvaluatorEval.DivisionTestsZero` | src/arvevaluator.c:660-673 | '%' and '/' fail with DIVISION_BY_ZERO exactly when the right operand is 0 (the double test 0.0 agrees). |
| `EvaluatorEval.RemainderExamples` | src/arvevaluator.c:665-667 | C's remainder truncates: 7 % −2 = 1, −7 % 2 = −1. |
| `EvaluatorEval.BitwiseLaws` | src/arvevaluator.c:547-561 | xor twice is the identity; a \| 0 = a, a & a = a, a & 0 = 0. |
| `EvaluatorEval.RemainderProperties` | src/arvevaluator.c:665-667 | The remainder is congruent to a modulo b, below the absolute value of b in size, and has the sign of a. |
| `EvaluatorEval.ShiftRightBounds` | src/arvevaluator.c:628-631 | a >> b is ⌊a / 2^(b mod 64)⌋ (gcc's arithmetic shift, count masked). |
| `EvaluatorEval.ShiftRightSign` | src/arvevaluator.c:628-631 | An arithmetic shift keeps the sign. |
| `EvaluatorEval.ShiftLeftMultiplies` | src/arvevaluator.c:633-636 | Without overflow, a << b is a·2^b. |
| `EvaluatorEval.ToI32Identity` | src/arvevaluator.c:748-749 | The int conversion changes nothing in 32-bit range. |
| `EvaluatorEval.AbsAsWrittenAgreesBelow31Bits` | src/arvevaluator.c:748-749 | abs() through int agrees with the 64-bit absolute value in 32-bit range. |
| `EvaluatorEval.AbsAsWrittenTruncates` | src/arvevaluator.c:748-749 | abs(2^32) gives 0 and abs(3000000000) gives 1294967296, where the 64-bit value is meant. |
| `EvaluatorEval.ApplyCorrected` | src/arvevaluator.c:743-749 | With the intended 64-bit ABS, ABS gives the absolute value of any operand but INT64_MIN, and every other token does what the switch as written does. |
| `EvaluatorEval.ApplyCorrectedAgrees` | src/arvevaluator.c:743-749 | The written and the corrected switch agree on every token, and on ABS of an operand of 31 bits. |
| `EvaluatorEval.AbsRunsDiffer` | src/arvevaluator.c:748-749 | ABS of 3000000000 gives 1294967296 through the switch as written and 3000000000 through the corrected one. |
| `EvaluatorEval.ShiftExamples` | src/arvevaluator.c:628-637 | 1 << 4 = 16, 16 >> 4 = 1, and ~255 = −256 (the ~ case at lines 543-546). |
| `EvaluatorEval.ShiftWrapExamples` | src/arvevaluator.c:628-637 | 1 << 64 = 1 and 1 << 63 = INT64_MIN (x86 count masking), −1 >> 70 = −1. |
| `EvaluatorEval.BitwiseAndExample` | src/arvevaluator.c:547-551 | 255 & 8 = 8. |
| `EvaluatorEval.BitwiseOrExample` | src/arvevaluator.c:552-556 | 128 \| 8 = 136. |
| `EvaluatorEval.BitwiseXorExample` | src/arvevaluator.c:557-561 | 3 ^ 1 = 2. |
| `EvaluatorEval.SwitchApplies` | src/arvevaluator.c:532-810 | The semantics handed to the loop is the operator switch. |
| `EvaluatorEval.SwitchConstant` | src/arvevaluator.c:783-785 | An int64 constant pushes its value. |
| `EvaluatorEval.PushConstant` | src/arvevaluator.c:783-812 | A constant is pushed above the stack. |
| `EvaluatorEval.PushBinary` | src/arvevaluator.c:534-536 | A binary operator replaces its two operands by its result (the index update at line 812). |
| `EvaluatorEval.RunPush` | src/arvevaluator.c:517-813 | A token that pushes lets the run continue at the next token. |
| `EvaluatorEval.ConstantRun` | src/arvevaluator.c:783-785 | Running a constant continues with it pushed. |
| `EvaluatorEval.BinaryRun` | src/arvevaluator.c:534-536 | Running a binary operator continues with its result (the index update at line 812). |
| `EvaluatorEval.MultiplicationExample` | src/arvevaluator.c:685-687 | 2·8 = 16 and 4·(−3) = −12. |
| `EvaluatorEval.AdditionExample` | src/arvevaluator.c:645-658 | 24 + 16 = 40 and 10 − 8 = 2. |
| `EvaluatorEval.ConstantsRun` | src/arvevaluator.c:783-785 | A run of constants pushes them all in order. |
| `EvaluatorEval.SwitchConstants` | src/arvevaluator.c:783-785 | Every int64 constant pushes its value. |
| `EvaluatorEval.PrecedenceOperatorsRun` | src/arvevaluator.c:649-687 | The operators of "24 2 8 * +" give 40. |
| `EvaluatorEval.PrecedenceRun` | src/arvevaluator.c:508-831 | The RPN of 24+2*8 evaluates to 40. |
| `EvaluatorEval.ParenthesesOperators` | src/arvevaluator.c:649-687 | 24 + 2 = 26 and 26·2 = 52. |
| `EvaluatorEval.ParenthesesSumRun` | src/arvevaluator.c:649-658 | The first three tokens of "24 2 + 2 *" leave 26. |
| `EvaluatorEval.ParenthesesRun` | src/arvevaluator.c:508-831 | The RPN of (24+2)*2 evaluates to 52. |
| `EvaluatorEval.RemainderRunExamples` | src/arvevaluator.c:660-673 | 10 % 3 = 1; 1 % 0 and 1 / 0 give DIVISION_BY_ZERO. |
| `EvaluatorEval.TernaryExamples` | src/arvevaluator.c:800-805 | 1 = 1 is 1; 1 ? 1 : 0 is 1 and 0 ? 1 : 0 is 0. |
| `EvaluatorEval.ErrorRuns` | src/arvevaluator.c:520-818 | A lone '+' gives MISSING_ARGUMENTS, an empty list REMAINING_OPERANDS (index stays −1) and a stray comma UNKNOWN_OPERATOR, each with 0. |
| `EvaluatorEval.RemainingOperandsRun` | src/arvevaluator.c:815-818 | Two values and no operator give REMAINING_OPERANDS with 0. |
| `EvaluatorEval.VariableRuns` | src/arvevaluator.c:789-796 | A known variable evaluates to its value; an unknown one gives UNKNOWN_VARIABLE with 0. |
| `Evaluator.PopWhileSpec` | src/arvevaluator.c:915-940 | Popping operators while a test holds leaves a bottom part of the stack whose top fails the test and sends every popped token, top first, to the output. |
| `Evaluator.ParseFrom` | src/arvevaluator.c:851-967 | parse_to_stacks fails only with SYNTAX_ERROR, PARENTHESES_MISMATCH or FORBIDDEN_RECURSION. |
| `Evaluator.Finish` | src/arvevaluator.c:1003-1039 | The end of parse_expression succeeds exactly when the RPN list is non-empty, and a failed parse gives its status with no list. |
| `Evaluator.ParseExpression` | src/arvevaluator.c:980-1040 | parse_expression reports SUCCESS exactly when it returns a non-empty RPN list (EMPTY_EXPRESSION otherwise, for a NULL or blank expression). |
| `Evaluator.Result` | src/arvevaluator.c:1099-1117 | A parse failure is reported with the value 0 and nothing is evaluated. |
| `Evaluator.PopWhileLoop` | src/arvevaluator.c:915-1014 | The popping loops compute PopWhile. |
| `Evaluator.ShuntToken` | src/arvevaluator.c:912-950 | The shunting step on one token moves operands, commas, operators and parentheses as Shunt says. |
| `Evaluator.ParseToStacks` | src/arvevaluator.c:851-967 | The parse loop, with constant substitution and sub-expressions parsed in parentheses, computes ParseFrom. |
| `Evaluator.FinishLoop` | src/arvevaluator.c:1003-1025 | The final popping loop and the reversal compute Finish. |
| `Evaluator.ParseExpressionMethod` | src/arvevaluator.c:980-1040 | parse_expression computes ParseExpression. |
| `Evaluator.Assign` | src/arvevaluator.c:1179-1238 | Replacing or removing a table entry sets the looked-up value of that name and no other. |
| `Evaluator.ArvEvaluator.constructor` | src/arvevaluator.c:1309-1333 | arv_evaluator_new starts with empty tables, the variables PI and E, and NOT_PARSED (EMPTY for a NULL expression, with SUCCESS as the parse state of the object's init). |
| `Evaluator.ArvEvaluator.SetExpression` | src/arvevaluator.c:1120-1137 | An equal expression changes nothing; another one is stored and marks the parse NOT_PARSED, or EMPTY_EXPRESSION for NULL. |
| `Evaluator.ArvEvaluator.SetSubExpression` | src/arvevaluator.c:1160-1185 | A NULL name or the same formula changes nothing; otherwise the formula is stored, or removed for NULL, and the parse is marked NOT_PARSED. |
| `Evaluator.ArvEvaluator.SetConstant` | src/arvevaluator.c:1216-1241 | The same for constants. |
| `Evaluator.ArvEvaluator.SetDoubleVariable` | src/arvevaluator.c:1261-1278 | The variable then reads as the double; an equal value leaves the table as it was; the parse is kept. |
| `Evaluator.ArvEvaluator.SetInt64Variable` | src/arvevaluator.c:1281-1298 | An entry that already reads as v is kept; otherwise the entry becomes arv_value_new_int64 (v) as written, through its `double` parameter, so it reads back as v whenever v has at most 53 bits; the parse is kept. |
| `Evaluator.ArvEvaluator.EvaluateAsInt64` | src/arvevaluator.c:1089-1117 | The expression is parsed once, when NOT_PARSED, and cached; the result is the evaluation of the expression (literals, variables and ABS as written), or 0 with the parse or evaluation error. |
| `Evaluator.FinishCases` | src/arvevaluator.c:1006-1016 | The final popping fails with PARENTHESES_MISMATCH exactly when a '(' is left on the stack, and otherwise appends the stack top first. |
| `Evaluator.ShuntUnmatched` | src/arvevaluator.c:914-945 | A comma or ')' fails exactly when no '(' is on the stack, and then with PARENTHESES_MISMATCH. |
| `Evaluator.PopsToParenthesis` | src/arvevaluator.c:915-940 | Popping up to a '(' empties the stack exactly when it holds no '('. |
| `Evaluator.ShapeClasses` | src/arvevaluator.c:275-316 | What may sit on the operator stack and what may reach the output, in terms of the token classes. |
| `Evaluator.PopKeepsShape` | src/arvevaluator.c:915-919 | Popping keeps only parentheses and operators on the stack and only values and operators in the output. |
| `Evaluator.PoppedEmittable` | src/arvevaluator.c:927-931 | Every popped token may go to the output. |
| `Evaluator.AllEmittable` | src/arvevaluator.c:1016 | Two outputs of emittable tokens concatenate to one. |
| `Evaluator.ShuntKeepsShape` | src/arvevaluator.c:912-950 | A shunting step keeps the stacks well shaped. |
| `Evaluator.ParseKeepsShape` | src/arvevaluator.c:851-967 | The whole parse, sub-expressions included, keeps them well shaped. |
| `Evaluator.RpnHasNoParentheses` | src/arvevaluator.c:980-1025 | A successful parse yields an RPN list with no comma and no parenthesis. |
| `EvaluatorExamples.DigitsEndAt` | src/arvevaluator.c:352-365 | A digit run ends at the first non-digit. |
| `EvaluatorExamples.DecimalToken` | src/arvevaluator.c:352-374 | A decimal literal with no fraction or exponent lexes to one int64 token, built through the `double` parameter, holding its value when it has at most 53 bits, and stops after its digits. |
| `EvaluatorExamples.LargeLiteralRounds` | src/arvevaluator.c:359-372 | The literal 9007199254740993 lexes to the constant 9007199254740992. |
| `EvaluatorExamples.SymbolTokenAt` | src/arvevaluator.c:431-505 | A one-character operator lexes to its token. |
| `EvaluatorExamples.EndToken` | src/arvevaluator.c:349-351 | The end of the string gives no token. |
| `EvaluatorExamples.LetterToken` | src/arvevaluator.c:375-430 | A single letter that is no keyword lexes to a variable. |
| `EvaluatorExamples.ShuntOperand` | src/arvevaluator.c:912-913 | An operand goes to the output. |
| `EvaluatorExamples.ShuntOperator` | src/arvevaluator.c:926-932 | An operator that does not yield to the top goes on the stack. |
| `EvaluatorExamples.ShuntLeftParenthesis` | src/arvevaluator.c:933-934 | '(' goes on the stack. |
| `EvaluatorExamples.ShuntRightParenthesis` | src/arvevaluator.c:935-947 | ')' pops the operators above its '(' and drops the pair. |
| `EvaluatorExamples.ShuntStep` | src/arvevaluator.c:862-960 | A shunted token lets the parse continue after it. |
| `EvaluatorExamples.EndStep` | src/arvevaluator.c:953-964 | The end of the string ends the parse with the stacks unchanged. |
| `EvaluatorExamples.FinishedParse` | src/arvevaluator.c:999-1025 | parse_expression finishes what parse_to_stacks leaves. |
| `EvaluatorExamples.PrecedenceStacks` | src/arvevaluator.c:851-967 | "24+2*8" leaves 24 2 8 in the output and + * on the stack. |
| `EvaluatorExamples.PrecedenceParse` | tests/evaluator.c:14 | "24+2*8" parses to 24 2 8 * +. |
| `EvaluatorExamples.PrecedenceEvaluation` | tests/evaluator.c:14 | "24+2*8" evaluates to 40. |
| `EvaluatorExamples.ParenthesesStacks` | src/arvevaluator.c:851-967 | "(24+2)*2" leaves 24 2 + 2 in the output and * on the stack. |
| `EvaluatorExamples.ParenthesesEvaluation` | tests/evaluator.c:13 | "(24+2)*2" parses to 24 2 + 2 * and evaluates to 52. |
| `EvaluatorExamples.NestedSubExpression` | src/arvevaluator.c:889-892 | A sub-expression named inside a sub-expression fails with FORBIDDEN_RECURSION. |
| `EvaluatorExamples.FailingSubExpression` | src/arvevaluator.c:894-902 | A failing sub-expression makes the whole parse fail with its status. |
| `EvaluatorExamples.RecursionInside` | src/arvevaluator.c:889-892 | With A := "A", the formula "(A)" fails inside the sub-expression. |
| `EvaluatorExamples.RecursionOutside` | src/arvevaluator.c:880-902 | The expression "A" with A := "A" fails with FORBIDDEN_RECURSION. |
| `EvaluatorExamples.RecursionEvaluation` | src/arvevaluator.c:980-1040 | Evaluating "A" with A := "A" gives FORBIDDEN_RECURSION and 0. |
| `ArvStr.Runs` | src/arvstr.c:68-84 | The maximal runs of legal characters are non-empty, hold no illegal character, and the last one ends with the last character when it is legal. |
| `ArvStr.JoinEmpty` | src/arvstr.c:86-89 | Joining non-empty runs is empty exactly when there are no runs. |
| `ArvStr.StrippedSnoc` | src/arvstr.c:68-84 | One more character: an illegal one adds nothing; a legal one is appended, after one replacement if it closes a gap between kept characters. |
| `ArvStr.StripWithNulDropsIllegal` | src/arvstr.c:74-77 | With a NUL replacement, the illegal characters are just removed (tests/misc.c:79-81). |
| `ArvStr.StripKeepsLegalString` | src/arvstr.c:68-84 | A string with no illegal character is kept as it is. |
| `ArvStr.StripNeverLonger` | src/arvstr.c:68-84 | The result is never longer than the input, and shorter when the input ends with an illegal character. |
| `ArvStr.JoinEnds` | src/arvstr.c:86-89 | A join starts with the first run's first character and ends with the last run's last. |
| `ArvStr.StripTrimsEnds` | src/arvstr.c:86-89 | The result neither starts nor ends with an illegal character. |
| `ArvStr.StrippedIllegalSuffix` | src/arvstr.c:73-78 | Illegal characters after any prefix add nothing to the result. |
| `ArvStr.StrippedLegalSuffix` | src/arvstr.c:73-82 | Legal characters after a prefix are appended, after one replacement when the prefix ends with an illegal character and something was kept before it. |
| `ArvStr.StrippedWord` | src/arvstr.c:68-89 | A legal word between runs of illegal characters strips to the word. |
| `ArvStr.StrippedTwoWords` | src/arvstr.c:68-89 | Two legal words with illegal characters around and between them strip to the words joined by one replacement (none for NUL). |
| `ArvStr.InTestIllegal` | tests/misc.c:42-44 | A character is in the test's illegal set exactly when it is 0x01-0x0f, 0x11-0x1f, space, '_' or '-'. |
| `ArvStr.TestIllegalChars` | tests/misc.c:42-44 | The same, for every character at once. |
| `ArvStr.TestStripWord` | tests/misc.c:42-45 | StrippedWord for the test's illegal set and replacement '-'. |
| `ArvStr.TestStripTwoWords` | tests/misc.c:42-44 | StrippedTwoWords for the test's illegal set. |
| `ArvStr.StripTableRow0` | tests/misc.c:51 | "\n\tHello\r\nworld!\n\t" strips to "Hello-world!". |
| `ArvStr.StripTableRow1` | tests/misc.c:52 | "\n\tHello" strips to "Hello". |
| `ArvStr.StripTableRow2` | tests/misc.c:53 | "Hello\r\t" strips to "Hello". |
| `ArvStr.StripTableRow3` | tests/misc.c:54 | "Hello\rworld!" strips to "Hello-world!". |
| `ArvStr.StripTableRow4` | tests/misc.c:55 | "Hello\r- -_\rworld!" strips to "Hello-world!": replacement characters in the illegal set are themselves illegal. |
| `ArvStr.StripTableEmpty` | tests/misc.c:56-60 | The empty string and the strings of illegal characters only strip to "". |
| `ArvStr.StripTableLegal` | tests/misc.c:61 | "Hétéroclite" has no illegal character and is kept. |
| `ArvStr.StripTableRows` | tests/misc.c:50-76 | Every row of the strip_strings table strips to the string the test expects. |
| `ArvStr.StripTableNul` | tests/misc.c:78-81 | "Hello\r\n world" with a NUL replacement strips to "Helloworld". |
| `ArvStr.IsIllegal` | src/arvstr.c:70-72 | The inner search finds c exactly when it is in the illegal set. |
| `ArvStr.StrippedHasNoNul` | src/arvstr.c:68-84 | Stripping a C string yields no NUL inside it. |
| `ArvStr.StripStepIllegal` | src/arvstr.c:73-78 | An illegal character writes one replacement right after a kept character, otherwise nothing. |
| `ArvStr.StripStepLegal` | src/arvstr.c:79-81 | A legal character is copied to the output position. |
| `ArvStr.StripStateLegal` | src/arvstr.c:79-82 | The copied character extends the stripped prefix. |
| `ArvStr.StripFinish` | src/arvstr.c:86-89 | Writing NUL after the last kept character leaves exactly the stripped string, with the rest of the buffer as it was. |
| `ArvStr.Strip` | src/arvstr.c:53-92 | A NULL string, or a NULL or empty illegal set, leaves the buffer unchanged; otherwise the buffer holds the stripped string and the same pointer is returned. |
| `ArvStr.SchemeEndIsScanEnd` | src/arvstr.c:111-118 | The scheme scan stops at the first character that is not a letter, digit, '+', '-' or '.'. |
| `ArvStr.IsUri` | src/arvstr.c:97-124 | is_uri holds exactly for a non-NULL string of length at least 4 whose scheme starts with a lower-case letter and is followed by "://". |
| `ArvStr.IsUriExamples` | tests/misc.c:91-95 | The unit test's three strings. |
| `ArvStr.DigitsEnd` | src/arvstr.c:177-180 | A digit scan ends at the end or at a non-digit. |
| `ArvStr.SignEnd` | src/arvstr.c:166-170 | Skipping a sign moves the cursor forwards. |
| `ArvStr.MantissaEnd` | src/arvstr.c:172-203 | A mantissa, when there is one, consumes at least one character. |
| `ArvStr.ExponentEnd` | src/arvstr.c:207-230 | An exponent part is optional and moves the cursor forwards or not at all. |
| `ArvStr.NumberEnd` | src/arvstr.c:152-237 | A parsed number consumes at least one character. |
| `ArvStr.SkipDigits` | src/arvstr.c:177-180 | The digit loop computes DigitsEnd. |
| `ArvStr.ParseMantissa` | src/arvstr.c:166-203 | The mantissa scan succeeds exactly when MantissaEnd does, and stops where it says. |
| `ArvStr.ParseExponent` | src/arvstr.c:207-230 | The exponent scan computes ExponentEnd. |
| `ArvStr.ParseDouble` | src/arvstr.c:152-237 | parse_double succeeds exactly when NumberEnd does, moves the cursor to its end, and leaves it on failure. |
| `ArvStr.ParseFailsWithoutDigits` | src/arvstr.c:184-203 | Parsing fails exactly when, after the sign, there is no digit and no '.' followed by a digit. |
| `ArvStr.ParseStopsAtNonNumber` | src/arvstr.c:177-225 | The cursor stops on a character that is not a digit. |
| `ArvStr.ParseDoubleSignedExamples` | tests/misc.c:128-141 | "-10.0" and "+10.0" are consumed to their end. |
| `ArvStr.ParseDoubleStopExamples` | tests/misc.c:143-146 | "11.0a" stops on 'a'; "1e+" stops after 1; ".5" is a number, "." and "-x" are not. |
| `ArvStr.ParseDoubleExponentExamples` | src/arvstr.c:207-230 | "1e3" and "2.5" are consumed to their end. |
| `ArvStr.SkipSeparators` | src/arvstr.h:57-62 | Skipping commas and spaces stops at the end or at another character. |
| `ArvStr.SkipCommaAndSpaces` | src/arvstr.h:57-62 | The skip loop computes SkipSeparators. |
| `ArvStr.ListParse` | src/arvstr.c:247-255 | At most n values are parsed and the cursor only moves forwards. |
| `ArvStr.ListParseAfter` | src/arvstr.c:253-254 | After one value, the count is at least 1. |
| `ArvStr.ListParseEmpty` | src/arvstr.c:247 | Asking for no values parses none. |
| `ArvStr.ListParseFail` | src/arvstr.c:248-251 | A first value that does not parse gives 0. |
| `ArvStr.ListParseStep` | src/arvstr.c:248-254 | A value that parses counts one and goes on after the separators. |
| `ArvStr.ParseListItem` | src/arvstr.c:248-254 | One loop iteration parses one value and skips the separators after it. |
| `ArvStr.ParseValues` | src/arvstr.c:247-255 | The loop counts the values ListParse counts, and ends where it ends when all are parsed. |
| `ArvStr.ParseDoubleList` | src/arvstr.c:240-256 | parse_double_list returns the count parsed; the cursor is restored when fewer than n parse. |
| `ArvStr.ParseDoubleListExample` | tests/misc.c:150-160 | " -10.0 +20.0   " gives two values and ends at the end of the string. |
| `Statistic.Inc` | src/arvmisc.c:215-219 | A guint64 increment adds one and wraps to 0 past the largest value. |
| `Statistic.EmptyTally` | src/arvmisc.c:150-155 | A reset histogram has n_bins zero bins, nothing counted, best INT_MAX, worst INT_MIN and last_seen_worst 0. |
| `Statistic.SumUpdate` | src/arvmisc.c:219 | Changing one bin changes the total by the difference. |
| `Statistic.Filled` | src/arvmisc.c:200-221 | One fill keeps the number of bins. |
| `Statistic.FillExtremes` | src/arvmisc.c:204-210 | best becomes the minimum and worst the maximum of the old value and the new one; the counter is recorded exactly when the new value is above the worst. |
| `Statistic.FillPlacesValue` | src/arvmisc.c:212-219 | A value below the offset counts in and_less, one at or past offset + n_bins·step in and_more, and any other in the bin k with offset + k·step ≤ value < offset + (k+1)·step; nothing else changes. |
| `Statistic.FillCountsOnce` | src/arvmisc.c:212-219 | Each fill counts the value exactly once. |
| `Statistic.FilledAll` | src/arvmisc.c:190-221 | A series of fills keeps the number of bins. |
| `Statistic.Values` | src/arvmisc.c:190 | The values of a series of fills, in order. |
| `Statistic.FilledAllExtremes` | src/arvmisc.c:204-210 | After a series from reset, best and worst bound every value and are values of the series; with none they stay INT_MAX and INT_MIN. |
| `Statistic.FilledAllLastSeenWorst` | src/arvmisc.c:207-210 | last_seen_worst is the counter of the first fill that reached the worst value. |
| `Statistic.FilledAllCounts` | src/arvmisc.c:212-219 | After n fills from reset, n values are counted in total. |
| `Statistic.Histogram.constructor` | src/arvmisc.c:114-121 | Each histogram gets a fresh array of n_bins bins. |
| `Statistic.Histogram.Reset` | src/arvmisc.c:150-155 | Resetting one histogram gives the empty tally. |
| `Statistic.ArvStatistic.constructor` | src/arvmisc.c:90-127 | A new statistic keeps its parameters and starts reset. |
| `Statistic.ArvStatistic.Reset` | src/arvmisc.c:138-157 | arv_statistic_reset sets the counter to 0 and every histogram to the empty tally. |
| `Statistic.ArvStatistic.Fill` | src/arvmisc.c:190-222 | A valid histogram id stores the counter and applies Filled to that histogram only; an id out of range returns FALSE and changes nothing. |
| `Statistic.NewStatistic` | src/arvmisc.c:90-127 | arv_statistic_new returns NULL exactly when a size or the step is 0, and otherwise a reset statistic. |
| `Statistic.FillStatistic` | src/arvmisc.c:190-222 | A NULL statistic returns FALSE; otherwise TRUE exactly for a histogram id in range, the counter is stored exactly on TRUE and kept on FALSE, that histogram is Filled and every other histogram keeps its state. |
| `Endianness.Copied` | src/arvmisc.c:427-477 | The copy always fills to_size bytes. |
| `Endianness.LeValueBound` | src/arvmisc.c:427-477 | n bytes hold a value below 2^(8n). |
| `Endianness.LeValueZeros` | src/arvmisc.c:443-467 | High zero bytes do not change a little-endian value. |
| `Endianness.LeValuePrefix` | src/arvmisc.c:441-464 | The low k bytes of a little-endian value are the value modulo 2^(8k). |
| `Endianness.ReversedConcat` | src/arvmisc.c:437-460 | Reversing a concatenation reverses and swaps the parts. |
| `Endianness.LowBytes` | src/arvmisc.c:437-476 | The low-order bytes, taken at the right end for each byte order, hold the value modulo 2^(8n). |
| `Endianness.ZeroExtended` | src/arvmisc.c:443-475 | Zero-padding the low bytes gives the value modulo 2^(8·to_size). |
| `Endianness.CopiedValue` | src/arvmisc.c:427-477 | In all four branches the destination, read in its byte order, holds the source value modulo 2^(8·to_size): truncation keeps the low-order bytes, widening zero-extends. |
| `Endianness.CopiedSameSize` | src/arvmisc.c:437-476 | At equal sizes the copy is the identity for the same order and a byte reversal across orders. |
| `Endianness.ZeroFill` | src/arvmisc.c:445-474 | The memset writes zeros there and nowhere else. |
| `Endianness.CopyForward` | src/arvmisc.c:463-475 | The memcpy copies the bytes there and nowhere else. |
| `Endianness.CopyReversed` | src/arvmisc.c:441-459 | The byte-swapping loops copy the bytes in reverse order there and nowhere else. |
| `Endianness.CopyLowBytes` | src/arvmisc.c:437-476 | Each branch's memcpy or byte-swapping loop writes the low-order n bytes of the source, in the destination's order, at the given place and nowhere else. |
| `Endianness.CopyToLittle` | src/arvmisc.c:437-468 | A copy to little endian writes Copied. |
| `Endianness.CopyToBig` | src/arvmisc.c:449-476 | A copy to big endian writes Copied. |
| `Endianness.CopyMemoryWithEndianness` | src/arvmisc.c:427-477 | With both buffers, the destination holds Copied; a NULL source leaves it unchanged. |
| `ArvValue.Ulp` | src/arvmisc.c:408-409 | The spacing of doubles near n is at least 1. |
| `ArvValue.DoubleToInt64` | src/arvmisc.c:402 | The (gint64) cast truncates toward zero, and gives INT64_MIN when the result does not fit (x86). |
| `ArvValue.SetInt64` | src/arvmisc.c:383-388 | The value then holds that int64. |
| `ArvValue.SetDouble` | src/arvmisc.c:390-395 | The value then holds that double. |
| `ArvValue.NewDouble` | src/arvmisc.c:325-332 | arv_value_new_double holds the double. |
| `ArvValue.NewInt64AsWritten` | src/arvmisc.c:335-342 | arv_value_new_int64, whose parameter is a double, holds an int64. |
| `ArvValue.NewInt64` | src/arvmisc.c:335-342 | The evidently intended constructor holds exactly the int64 given. |
| `ArvValue.RoundIsNearest` | src/arvmisc.c:408-409 | The int64-to-double conversion rounds to a nearest multiple of the spacing. |
| `ArvValue.UlpBelow` | src/arvmisc.c:408-409 | Below 2^53 the spacing is 1. |
| `ArvValue.UlpAtMost` | src/arvmisc.c:408-409 | The spacing never exceeds the number. |
| `ArvValue.IntToDoubleExact` | src/arvmisc.c:408-409 | Integers of magnitude at most 2^53 convert exactly. |
| `ArvValue.IntToDoubleZero` | src/arvmisc.c:408-409 | Only 0 converts to 0.0. |
| `ArvValue.SetGetRoundTrip` | src/arvmisc.c:383-424 | Set then get gives the value back and the type it was set with; an int64 of at most 53 bits reads back exactly as a double. |
| `ArvValue.GetInt64OfDouble` | src/arvmisc.c:397-403 | get_int64 of a non-negative double in range is its floor. |
| `ArvValue.NewInt64AgreesBelow53Bits` | src/arvmisc.c:335-342 | Through the double parameter, values of at most 53 bits are kept. |
| `ArvValue.NewInt64AsWrittenLosesPrecision` | src/arvmisc.c:335-342 | 2^53 + 1 comes back as 2^53, and INT64_MAX as INT64_MIN. |
| `DomNode.Node.constructor` | src/arvdomnode.c:690-693 | A new node has no parent, no siblings and no children. |
| `DomNode.IndexOf` | src/arvdomnode.c:539-541 | The position of the first occurrence of a child in the list. |
| `DomNode.IndexOfDistinct` | src/arvdomnode.c:539-541 | In a list without repeats, the position of the k-th child is k. |
| `DomNode.WithoutElements` | src/arvdomnode.c:551-563 | Removing a child keeps the list without repeats, drops exactly that child and shortens the list by one when it was there. |
| `DomNode.WithoutAppended` | src/arvdomnode.c:608-616 | Removing the child just appended gives the list back. |
| `DomNode.ReplacedLast` | src/arvdomnode.c:508-509 | Replacing the last child is removing it and appending the new one. |
| `DomNode.ReplacedInner` | src/arvdomnode.c:499-511 | Replacing an inner child is removing it and inserting the new one before its old successor. |
| `DomNode.IndexOfAt` | src/arvdomnode.c:539-541 | The first position holding a child is its index. |
| `DomNode.InsertedBeforePlaces` | src/arvdomnode.c:417-426 | Insertion adds one child, right before ref_child, and removing it gives the list back. |
| `DomNode.InsertedBeforeDistinct` | src/arvdomnode.c:417-426 | Insertion keeps the list without repeats. |
| `DomNode.GetLength` | src/arvdomnode.c:89-103 | The child list's length is the number of children, 0 with no parent. |
| `DomNode.GetItem` | src/arvdomnode.c:70-87 | Item i is the i-th child, or NULL past the end or with no parent. |
| `DomNode.FindChild` | src/arvdomnode.c:539-544 | The search along the siblings finds old_child exactly when it is a child. |
| `DomNode.LinkedWithout` | src/arvdomnode.c:551-559 | Relinking the neighbours of child k links exactly the list without it. |
| `DomNode.Unlink` | src/arvdomnode.c:551-563 | Unlinking child k leaves the list without it and old_child with no parent and no siblings. |
| `DomNode.RemoveChild` | src/arvdomnode.c:527-568 | A NULL or a node that is not a child returns NULL and changes nothing; a child is removed, detached and returned. |
| `DomNode.LinkedAppended` | src/arvdomnode.c:608-616 | The new links make new_child the last child. |
| `DomNode.Link` | src/arvdomnode.c:608-616 | Linking appends new_child to the list. |
| `DomNode.AppendChild` | src/arvdomnode.c:582-626 | NULL changes nothing; new_child is first removed from self if it is a child; then it becomes the last child when can_append_child allows, and is otherwise refused with NULL. |
| `DomNode.LinkedInsertedAt` | src/arvdomnode.c:417-426 | The new links place new_child at position k. |
| `DomNode.LinkBefore` | src/arvdomnode.c:417-426 | Linking places new_child just before ref_child. |
| `DomNode.InsertBeforeChild` | src/arvdomnode.c:384-436 | With a ref_child: new_child is first removed from self; it is inserted exactly when ref_child is a child of self and can_append_child allows. |
| `DomNode.InsertBefore` | src/arvdomnode.c:377-436 | As written, a NULL ref_child appends new_child, then removes it again and returns NULL. |
| `DomNode.InsertBeforeCorrected` | src/arvdomnode.c:377-383 | With the evident return after the append, a NULL ref_child appends new_child and returns it. |
| `DomNode.Successor` | src/arvdomnode.c:499 | The next sibling, if any, is a child. |
| `DomNode.ReplacedByInsertion` | src/arvdomnode.c:499-511 | Removing old_child and then adding new_child before its old successor, or at the end, is replacing one by the other (or removing old_child when the append is refused). |
| `DomNode.ReplaceLinked` | src/arvdomnode.c:499-513 | The remove and insert steps of replace_child. |
| `DomNode.ReplaceOld` | src/arvdomnode.c:474-513 | A NULL or non-child old_child returns NULL; otherwise it is replaced, detached and returned. |
| `DomNode.ReplaceChild` | src/arvdomnode.c:456-514 | A NULL new_child removes old_child; otherwise new_child is first removed from self, and old_child, if still a child, is replaced by it and returned detached. |
| `DomNode.ReplacedChildrenPlaces` | src/arvdomnode.c:456-514 | The children after replace_child, spelled out by case. |
| `DomNode.ReplacedInPlaces` | src/arvdomnode.c:474-513 | The same when new_child is not a child. |
| `DomNode.InsertedChildrenPlaces` | src/arvdomnode.c:377-436 | The children after insert_before have no repeats, differ only in new_child, hold it exactly when the insertion happened, and then hold it last (NULL ref) or right before ref_child. |
| `DomNode.AppendLeavesOtherParent` | src/arvdomnode.c:597-598 | Appending a child of another node leaves that node's first and last pointers on it, since remove_child is called on self. |
| `DomNode.TakeFromParent` | src/arvdomnode.c:527-568 | Removing new_child from its own parent's list links that list without it, detaches new_child and leaves self's list as it was. |
| `DomNode.MoveFromParent` | src/arvdomnode.c:582-626 | The corrected append for a node with another parent: the old parent's list loses new_child, and self's list gains it at its end when can_append_child allows. |
| `DomNode.AppendChildCorrected` | src/arvdomnode.c:582-626 | append_child with new_child removed from its own parent: as written when that parent is self or none; otherwise the old parent's list is linked without new_child. |
| `DomNode.AppendCorrectedMovesChild` | src/arvdomnode.c:597-598 | With the correction, the old parent of the appended node is left with no children. |
| `GcRegister.BitOfMask` | src/arvgcregister.c:351-354 | Bit i of the mask is set exactly for lsb ≤ i ≤ msb (all bits when the span reaches 63). |
| `GcRegister.BitOfMaskedGet` | src/arvgcregister.c:351-356 | Bit i of the read value is bit i + lsb of the register inside the field, and 0 above it. |
| `GcRegister.MaskedGetField` | src/arvgcregister.c:351-356 | The masked read is the bit field ⌊v / 2^lsb⌋ mod 2^(msb − lsb + 1). |
| `GcRegister.BitOfMaskedSet` | src/arvgcregister.c:398-403 | The masked write changes only the bits inside the mask, which take the low bits of the new value. |
| `GcRegister.MaskedRoundTrip` | src/arvgcregister.c:351-403 | Reading back a masked write gives the value modulo 2^(field width). |
| `GcRegister.MaskedSetOfGet` | src/arvgcregister.c:351-403 | Writing back what was read leaves the register unchanged. |
| `GcRegister.HostBits` | src/arvgcregister.c:343-396 | On a little-endian host, lsb and msb are swapped for a big-endian register. |
| `GcRegister.LeBytesValue` | src/arvgcregister.c:337-338 | The 8-byte image of a gint64 on a little-endian host holds its value. |
| `GcRegister.ImageValue` | src/arvgcregister.c:418-419 | Copying the image into the cache stores the value modulo 2^(8·cache_size) in the register's byte order. |
| `GcRegister.WideReadBack` | src/arvgcregister.c:337-356 | A cache of at least 8 bytes reads back the stored value through the mask. |
| `GcRegister.NarrowReadBack` | src/arvgcregister.c:337-338 | A narrower cache reads back the stored value truncated to its size. |
| `GcRegister.IntegerRoundTrip` | src/arvgcregister.c:327-422 | set_integer_value then get_integer_value gives the value back, modulo the field width for a MaskedInteger. |
| `GcRegister.NarrowIntegerRoundTrip` | src/arvgcregister.c:327-422 | With a cache under 8 bytes, the value comes back truncated to the cache size. |
| `GcRegister.Fitted` | src/arvgcregister.c:156-175 | Cutting or zero-padding gives exactly the target size. |
| `GcRegister.FittedContents` | src/arvgcregister.c:156-175 | The common prefix is copied and the rest is zero. |
| `GcRegister.FittedRoundTrip` | src/arvgcregister.c:150-180 | set then get with the same lengths gives the buffer back when it fits in the cache, and its cut, zero-padded, when it does not. |
| `GcRegister.AddressSumPrepended` | src/arvgcregister.c:184-198 | An address prepended by add_element (lines 42-44) contributes its value to the sum. |
| `GcRegister.WrapAdd` | src/arvgcregister.c:194-195 | Adding into a guint64 wraps as the exact sum does. |
| `GcRegister.Node.constructor` | src/arvgcregister.c:281-293 | A new register is a 4-byte, zeroed, little-endian one with bits 0 to 31 and no addresses. |
| `GcRegister.Node.AddElement` | src/arvgcregister.c:38-91 | Address and pAddress are prepended; Length and pLength replace the length; Endianess is big only for "BigEndian"; LSB, MSB and Bit set the bit numbers; nothing else changes. |
| `GcRegister.Node.GetLength` | src/arvgcregister.c:201-210 | The length is the constant or the referenced node's value, as a guint64. |
| `GcRegister.Node.GetAddress` | src/arvgcregister.c:184-198 | The address is the wrapping guint64 sum of all address contributions. |
| `GcRegister.Node.Get` | src/arvgcregister.c:150-164 | The buffer receives the cache, cut or zero-padded to length, and nothing past length is written. |
| `GcRegister.Node.Set` | src/arvgcregister.c:167-181 | The cache receives the buffer, cut or zero-padded to the cache size. |
| `GcRegister.Node.GetIntegerValue` | src/arvgcregister.c:327-371 | The value is the cache read in the register's byte order, masked for a MaskedInteger. |
| `GcRegister.Node.SetIntegerValue` | src/arvgcregister.c:374-422 | The cache receives the value, merged into the current bits through the mask for a MaskedInteger. |
| `Common.OrDefault` | src/arvgcintregnode.c:124-155 | A property child, when present, gives its value (the Sign of an IntReg, the LSB, MSB, Sign and Endianess of a MaskedIntReg); otherwise the default. |
| `GcIntReg.GetMin` | src/arvgcintregnode.c:113-141 | get_min reports an error exactly when the length lookup fails; an unsigned register's minimum is 0. |
| `GcIntReg.GetMax` | src/arvgcintregnode.c:144-174 | get_max reports an error exactly when the length lookup fails, and then returns INT64_MAX, as it does for a length of 8 bytes or more. |
| `GcIntReg.GetInc` | src/arvgcintregnode.c:176-180 | The increment is 1: positive and dividing every value. |
| `GcIntReg.ShiftOfOne` | src/arvgcintregnode.c:135-168 | (gint64) 1 << k is 2^k for k ≤ 62. |
| `GcIntReg.ShiftOfOneTo63` | src/arvgcintregnode.c:135 | 1 << 63 is INT64_MIN, and negating it wraps to itself. |
| `GcIntReg.FallbackBounds` | src/arvgcintregnode.c:127-161 | On a failed length lookup the bounds are 0 or INT64_MIN, and INT64_MAX. |
| `GcIntReg.SignedMin` | src/arvgcintregnode.c:132-135 | A signed register of n ≤ 8 bytes has minimum −2^(8n−1); a longer one INT64_MIN. |
| `GcIntReg.ShortSignedMin` | src/arvgcintregnode.c:135 | The same for n ≤ 7. |
| `GcIntReg.NegatedShift` | src/arvgcintregnode.c:135 | −(1 << k) is −2^k for k ≤ 62. |
| `GcIntReg.ShortMax` | src/arvgcintregnode.c:163-168 | Below 8 bytes, the maximum is 2^(8n) − 1 unsigned (also with no Sign) and 2^(8n−1) − 1 signed. |
| `GcIntReg.UnsignedShortMax` | src/arvgcintregnode.c:166-167 | The unsigned case. |
| `GcIntReg.SignedShortMax` | src/arvgcintregnode.c:168 | The signed case. |
| `GcIntReg.ShiftedMax` | src/arvgcintregnode.c:167-168 | (1 << k) − 1 is 2^k − 1. |
| `GcIntReg.BoundsAreRange` | src/arvgcintregnode.c:113-174 | Below 8 bytes, x lies between get_min and get_max exactly when it is representable in n bytes with the register's signedness. |
| `GcIntReg.WideBounds` | src/arvgcintregnode.c:132-164 | From 8 bytes on, the bounds are those of a gint64 (0 when unsigned). |
| `GcMaskedIntReg.MaskedIntRegNode.constructor` | src/arvgcmaskedintregnode.c:196-237 | A new node has no property children. |
| `GcMaskedIntReg.MaskedIntRegNode.PostNewChild` | src/arvgcmaskedintregnode.c:58-99 | LSB, MSB and Bit set the bit properties (Bit both), Sign, Endianess and Unit set theirs, pSelected is prepended, and any other child is handed on; nothing else changes. |
| `GcMaskedIntReg.MaskedIntRegNode.GetField` | src/arvgcmaskedintregnode.c:136-142 | The field is lsb 0 and msb 31 unless set, unsigned and little endian by default. |
| `GcMaskedIntReg.MaskedIntRegNode.GetMin` | src/arvgcmaskedintregnode.c:131-151 | get_min is as written: 0 unsigned, −(1 << span) signed, in int arithmetic. |
| `GcMaskedIntReg.MaskedIntRegNode.GetMax` | src/arvgcmaskedintregnode.c:153-175 | get_max is as written: (1 << span) − 1 signed, (1 << (span + 1)) − 1 unsigned, in int arithmetic. |
| `GcMaskedIntReg.MaskedIntRegNode.GetUnit` | src/arvgcmaskedintregnode.c:177-186 | The unit is the Unit property's, or none. |
| `GcMaskedIntReg.IntShiftOfOne` | src/arvgcmaskedintregnode.c:146-173 | The int 1 << k is 2^k for k ≤ 30. |
| `GcMaskedIntReg.IntShiftOfOneWraps` | src/arvgcmaskedintregnode.c:172-173 | On x86, int 1 << 31 is −2^31 and 1 << 32 is 1 (count masked to 5 bits). |
| `GcMaskedIntReg.AsWrittenNarrow` | src/arvgcmaskedintregnode.c:144-175 | For a span up to 29, the bounds are −2^span … 2^span − 1 signed and 0 … 2^(span+1) − 1 unsigned. |
| `GcMaskedIntReg.AsWrittenSigned32` | src/arvgcmaskedintregnode.c:146-169 | A signed 32-bit field gets INT32_MIN … INT32_MAX. |
| `GcMaskedIntReg.AsWrittenUnsigned31` | src/arvgcmaskedintregnode.c:172-173 | Unsigned fields of 30 or 31 bits get their full range. |
| `GcMaskedIntReg.DefaultMaxAsWritten` | src/arvgcmaskedintregnode.c:161-173 | The default field (bits 0 to 31, unsigned) gets maximum 0, from (1 << 32) − 1. |
| `GcMaskedIntReg.DefaultNodeMaxBelowItsValues` | src/arvgcmaskedintregnode.c:153-175 | A node with no properties reports maximum 0 while its register can read 0xffffffff. |
| `GcMaskedIntReg.FullDefaultField` | src/arvgcmaskedintregnode.c:108-109 | Reading all ones through bits 0 to 31 gives 0xffffffff. |
| `GcMaskedIntReg.CorrectedUnsigned` | src/arvgcmaskedintregnode.c:171-173 | With 64-bit shifts, an unsigned field of w bits gets 0 … 2^w − 1. |
| `GcMaskedIntReg.CorrectedUnsigned63` | src/arvgcmaskedintregnode.c:173 | A 63-bit unsigned field gets 2^63 − 1. |
| `GcMaskedIntReg.CorrectedSigned` | src/arvgcmaskedintregnode.c:144-169 | With 64-bit shifts, a signed field gets −2^span … 2^span − 1. |
| `GcMaskedIntReg.CorrectedAgrees` | src/arvgcmaskedintregnode.c:131-175 | Where the int shifts do not overflow, the corrected bounds are the written ones. |
| `GcMaskedIntReg.AsWrittenNarrow30` | src/arvgcmaskedintregnode.c:146-169 | A signed span of 30 gets −2^30 … 2^30 − 1. |
| `GcMaskedIntReg.SignedAsWritten` | src/arvgcmaskedintregnode.c:146-169 | The signed bounds are −(1 << span) and (1 << span) − 1 while the shift stays positive. |
| `GcMaskedIntReg.UnsignedAsWritten` | src/arvgcmaskedintregnode.c:172-173 | The unsigned bounds are 0 and (1 << (span+1)) − 1 while the shift stays positive. |
| `GcMaskedIntReg.CorrectedBoundsMaskedGet` | src/arvgcmaskedintregnode.c:101-175 | Every value the masked read can give lies within the corrected bounds. |
| `GcMaskedIntReg.DefaultMaxCorrected` | src/arvgcmaskedintregnode.c:161-173 | The corrected maximum of the default field is 0xffffffff. |
| `GcMaskedIntReg.BigEndianSwapsEnds` | src/arvgcmaskedintregnode.c:145-173 | A big-endian field of lsb, msb has the bounds of a little-endian one with the ends swapped. |
| `GcRegisterDescription.ParseInteger` | src/arvgcregisterdescriptionnode.c:50-54 | g_ascii_strtoll gives 0 with no digit after the spaces and sign, and its sign follows the text's. |
| `GcRegisterDescription.ParseVersion` | src/arvgcregisterdescriptionnode.c:50-54 | The parsed value is stored in a guint, wrapping a negative one modulo 2^32. |
| `GcRegisterDescription.Parts` | src/arvgcregisterdescriptionnode.c:80-93 | The version as the sequence major, minor, subminor. |
| `GcRegisterDescription.NameSpaceOf` | src/arvgcfeaturenode.c:146-151 | The feature node sets the standard name space exactly for the value "Standard" and the custom one for any other value. |
| `GcRegisterDescription.NameSpaceText` | src/arvgcfeaturenode.c:162-168 | The name space reads as "Standard" or "Custom", and that text sets it back to the same name space. |
| `GcRegisterDescription.RegisterDescriptionNode.constructor` | src/arvgcregisterdescriptionnode.c:106-112 | A new node has version 0.0.0, no model name and no feature name; its name space is STANDARD, the zero of the zero-filled private part (arvgcfeaturenode.c:408-413 does not set it). |
| `GcRegisterDescription.RegisterDescriptionNode.SetAttribute` | src/arvgcregisterdescriptionnode.c:41-57 | ModelName and the three Schema*Version attributes set their field; the rest go to the feature node (arvgcfeaturenode.c:131-152), where Name sets the name and NameSpace the name space, and every other attribute changes nothing; after it, ModelName and Name read back the value, and NameSpace reads back its folded text. |
| `GcRegisterDescription.RegisterDescriptionNode.GetAttribute` | src/arvgcregisterdescriptionnode.c:59-68 | ModelName reads the model name; the feature node (arvgcfeaturenode.c:155-172) answers Name with the name and NameSpace with the text of the name space; every other name, the version attributes included, reads NULL. |
| `GcRegisterDescription.RegisterDescriptionNode.Version` | src/arvgcregisterdescriptionnode.c:109-111 | The node's version fields. |
| `GcRegisterDescription.RegisterDescriptionNode.CheckSchemaVersion` | src/arvgcregisterdescriptionnode.c:72-94 | check_schema_version is the comparison as written. |
| `GcRegisterDescription.AsWrittenCases` | src/arvgcregisterdescriptionnode.c:80-93 | A lower major fails and a higher one passes; at equal major any different minor fails; at equal major and minor the subminor must be at least the required one. |
| `GcRegisterDescription.CorrectedIsOrder` | src/arvgcregisterdescriptionnode.c:80-93 | The corrected check is "version ≥ required" in lexicographic order. |
| `GcRegisterDescription.AsWrittenAgainstOrder` | src/arvgcregisterdescriptionnode.c:85-88 | The written check is that order except that a higher minor at equal major fails. |
| `GcRegisterDescription.AsWrittenRefusesLaterMinor` | src/arvgcregisterdescriptionnode.c:87-88 | 1.2.0 is refused for 1.1.0 although it is later; 2.0.0 is accepted; the corrected check accepts 1.2.0. |
| `GcRegisterDescription.LexTotal` | src/arvgcregisterdescriptionnode.c:80-93 | The order is reflexive and total. |
| `GcRegisterDescription.LexTransitive` | src/arvgcregisterdescriptionnode.c:80-93 | The order is transitive. |
| `GcRegisterDescription.LexAntisymmetric` | src/arvgcregisterdescriptionnode.c:80-93 | The order is antisymmetric. |
| `GcRegisterDescription.CorrectedMonotone` | src/arvgcregisterdescriptionnode.c:80-93 | A later version passes every check an earlier one passes. |
| `GcRegisterDescription.CorrectedReflexive` | src/arvgcregisterdescriptionnode.c:80-93 | Every version passes a check for itself, and every version passes 0.0.0. |
| `GcRegisterDescription.FreshNodeVersion` | src/arvgcregisterdescriptionnode.c:106-112 | A node before its attributes are set passes only a check for 0.0.0. |
| `GcRegisterDescription.NameSpaceRoundTrip` | src/arvgcfeaturenode.c:146-168 | NameSpace reads back the value it was set to exactly when that is "Standard" or "Custom"; any other value reads back as "Custom". |
| `GcRegisterDescription.FeatureAttributeExamples` | src/arvgcfeaturenode.c:155-172 | "Foo" and SchemaMajorVersion read NULL on any node, and NameSpace set to "Bar" reads "Custom". |
| `GcRegisterDescription.ParseDecimalVersions` | src/arvgcregisterdescriptionnode.c:50-54 | " 1" gives 1 and "-1" gives 0xffffffff. |
| `GcRegisterDescription.ParseOtherVersions` | src/arvgcregisterdescriptionnode.c:50-54 | "0x10" gives 16 (base 0) and "" gives 0. |
| `GentlBuf.ErrorCode` | src/gentl/GenTL_v1_6.h:158-174 | Only GC_ERR_SUCCESS is 0; the others are the negative GenTL codes. |
| `GentlBuf.StrLen` | src/gentl/private-buf.c:33-38 | strlen counts the bytes before the first NUL. |
| `GentlBuf.StringListEnd` | src/gentl/private-buf.c:37-39 | The string-list scan stops on the NUL that follows the last string. |
| `GentlBuf.Encode` | src/gentl/private-buf.c:34-40 | A string list in memory is its strings, each NUL-terminated, then one more NUL. |
| `GentlBuf.StringListSize` | src/gentl/private-buf.c:34-40 | The scan loop computes StringListEnd. |
| `GentlBuf.BufSize` | src/gentl/private-buf.c:26-64 | gentl_buf_size computes BufSizeOf. |
| `GentlBuf.SizeCell.constructor` | src/gentl/private-buf.c:68 | A size_t cell holding v. |
| `GentlBuf.TypeCell.constructor` | src/gentl/private-buf.c:68 | An INFO_DATATYPE cell holding t. |
| `GentlBuf.CopyResult` | src/gentl/private-buf.c:93-154 | The copy fails with INVALID_PARAMETER exactly for UNKNOWN and with NOT_IMPLEMENTED exactly for STRINGLIST, BUFFER and codes out of the enumeration. |
| `GentlBuf.Filled` | src/gentl/private-buf.c:100-148 | The first n bytes come from the source and the others are kept. |
| `GentlBuf.ToBuf` | src/gentl/private-buf.c:67-155 | A NULL size gives INVALID_PARAMETER and touches nothing; piType receives the type; a NULL destination only reports the size; a size too small gives BUFFER_TOO_SMALL and keeps it; otherwise the size is set, the result is CopyResult and the value is copied for the types the code copies. |
| `GentlBuf.CopyInto` | src/gentl/private-buf.c:100-148 | The copy writes the first n bytes and keeps the rest. |
| `GentlBuf.FixedSizes` | src/gentl/private-buf.c:41-62 | The fixed sizes: 2, 4 and 8 for the integers and FLOAT64, 1 for BOOL8, 8 for PTR, SIZET and PTRDIFF, and 0 for UNKNOWN, BUFFER and any other code. |
| `GentlBuf.StrLenOf` | src/gentl/private-buf.c:33 | strlen of a string followed by NUL is its length. |
| `GentlBuf.StringSize` | src/gentl/private-buf.c:32-33 | A STRING takes its length plus the NUL. |
| `GentlBuf.EncodedStringList` | src/gentl/private-buf.c:37-39 | On an encoded list, the scan ends at the final NUL. |
| `GentlBuf.EncodedAt` | src/gentl/private-buf.c:37-39 | The same at any position. |
| `GentlBuf.SkipString` | src/gentl/private-buf.c:38 | One step of the scan skips one string and its NUL. |
| `GentlBuf.StringListSizeAsWritten` | src/gentl/private-buf.c:34-40 | As written, a STRINGLIST's size leaves out the final NUL. |
| `GentlBuf.StringListSizeCorrected` | src/gentl/private-buf.c:34-40 | The corrected size ends just after a NUL. |
| `GentlBuf.StringListSizeCorrectedExact` | src/gentl/private-buf.c:34-40 | The corrected size is the whole encoding, final NUL included. |
| `GentlBuf.StringListExample` | src/gentl/private-buf.c:34-40 | "a", "b" (bytes 61 00 62 00 00) gives 4 as written and 5 corrected. |
| `GentlBuf.PtrAsWritten` | src/gentl/private-buf.c:132-135 | PTR reports success and 8 bytes but only assigns the local dst, so nothing is copied. |
| `GentlBuf.ToBufCorrected` | src/gentl/private-buf.c:67-155 | gentl_to_buf with PTR stored through dst: every successful copy fills the buffer with the source's BufSizeOf bytes, and a PTR value's 8 bytes reach the buffer. |
| `GentlBuf.AsWrittenMissesOnlyPtr` | src/gentl/private-buf.c:93-153 | PTR is the only type that reports success without copying. |
| `GentlBuf.OfCode` | src/gentl/GenTL_v1_6.h:243-257 | The codes 0 to 14 are the named INFO_DATATYPE constants; exactly the other codes are Custom, holding the code. |
| `GentlBuf.CodeRoundTrip` | src/gentl/GenTL_v1_6.h:243-257 | Every code reads back as itself, through a datatype that is never a Custom spelling of a named code. |
| `GentlBuf.OfCodeRoundTrip` | src/gentl/GenTL_v1_6.h:243-257 | Every datatype that is not a Custom spelling of a named code reads back from its code. |
| `V4l2Misc.PixelFormatFromV4l2` | src/arvv4l2misc.c:25-36 | arv_pixel_format_from_v4l2 returns the GenICam format of the first table entry with the code, or 0. |
| `V4l2Misc.PixelFormatToV4l2` | src/arvv4l2misc.c:38-50 | arv_pixel_format_to_v4l2 returns the V4L2 code of the first entry with the format, or 0. |
| `V4l2Misc.GenicamOfAbsent` | src/arvv4l2misc.c:33-35 | A code in no entry gives 0. |
| `V4l2Misc.GenicamOfAt` | src/arvv4l2misc.c:29-32 | The first entry with the code gives its format. |
| `V4l2Misc.V4l2OfAbsent` | src/arvv4l2misc.c:47-49 | A format in no entry gives 0. |
| `V4l2Misc.V4l2OfAt` | src/arvv4l2misc.c:42-46 | The first entry with the format gives its code. |
| `V4l2Misc.RoundTrips` | src/arvv4l2misc.c:25-50 | In a one-to-one table the two searches are inverse on every entry. |
| `V4l2Misc.PixelFormatMap` | src/arvv4l2misc.c:12-23 | YUYV maps to YUV_422_YUYV_PACKED and back, and every other code maps to 0 either way. |
| `V4l2Misc.MapRoundTrips` | src/arvv4l2misc.c:12-50 | Every code the table maps comes back from its GenICam format. |

## Left out

- The stream thread's sockets, timeouts, statistics counters and thread start/stop (`src/arvgvstream.c`): I/O and concurrency. The packet loop is modelled over a given packet sequence.
- GVSP packet validation (`arv_gvsp_packet_is_valid`) and the `*_to_string` / debug dumps of GVSP, GVCP, UVCP and UVSP packets: logging, and validation against a packet size the pre-decoded model does not carry.
- Floating point:
  - the evaluator's double tokens, double arithmetic, `/`, `**` and the transcendental functions;
  - `arv_evaluator_evaluate_as_double`;
  - the value `arv_str_parse_double` computes (only its cursor and success are modelled);
  - the rounding of double arithmetic: ArvValue's doubles are reals, and only the conversions between gint64 and double are written out bit-exactly.
- The token count and the garbage list of `parse_to_stacks`, and `arv_evaluator_token_debug`: memory management and logging.
- The evaluator's GObject boilerplate (`finalize`, `class_init`) and the GError messages of `arv_evaluator_set_error`: they carry no state the model reads.
- `arv_str_to_uri`: it builds a file URI from the working directory (filesystem). `arv_g_string_append_hex_dump`: text formatting.
- `arv_decompress` and the zlib inflate path of `arv_zip_get_file`: compression is outside the model. Only the stored (method 0) copy is modelled.
- `arv_statistic_set_name` and `arv_statistic_to_string`: text labels and formatting.
- The DOM node class hooks other than `can_append_child`, which is a parameter. `post_new_child`, `pre_remove_child`, `arv_dom_node_changed` and the owner-document lookup belong to subclasses or notify observers; none of them changes the sibling list.
- The V4L2 ioctl wrapper and the media-device helpers of `src/arvv4l2misc.c` (lines 52-112): device I/O.
- `GcRegister.Node.AddElement`: AccessMode, Cacheable, pPort, PollingTime and Sign are stored by the source but never read by the modelled operations (only the port I/O uses them), so the model does not keep them.
- The register node's `_read_cache` / `_write_cache` and the port node it talks to: device I/O. Get and set act on the cache alone. `_update_cache_size` runs only inside those two and is left out with them, so the cache keeps its size.
- `src/arvgcfeaturenode.c` is modelled only for the attributes it handles for the register description node (Name and NameSpace, lines 131-172). Its other operations, the property nodes and the node lookup of ArvGc are not part of this model. The int and masked-int register nodes receive the values they would look up (the register length or its error, the sign, the bit positions, the byte order) as parameters.
- The GenTL C entry points that call `gentl_to_buf` (`gc.c`, `tl.c`, `if.c`, `dev.c`, `ds.c`): thin wrappers over Aravis objects.
- Evaluator.ArvEvaluator.SetInt64Variable: the variable is promised to read back as v only when v has at most 53 bits, because arv_value_new_int64 takes a `double` (Findings row src/arvmisc.c:335-342); above that it holds the rounded value.
- DomNode.AppendChildCorrected: the corrected removal is modelled when the old parent is self, or a node outside self's list whose own list holds neither self nor a child of self; moving a node between nodes whose lists overlap so (a sibling of self, or a child of self's child) is not modelled. `insert_before` (lines 386-387) and `replace_child` (lines 471-472) make the same `remove_child (self, new_child)` call and are modelled only as written.
- `Evaluator.ParseExpression`: its own contract states only that success goes with a non-empty RPN. The exact RPN is stated by `Evaluator.ParseToStacks` and `Evaluator.Finish`, and the worked examples pin it down on concrete expressions.
- GcRegisterDescription.RegisterDescriptionNode.SetAttribute: setting Name also registers the node with its ArvGc document (arvgcfeaturenode.c:142-145), which is outside the model; only the stored name is modelled. The debug message for an unknown attribute is logging.
- DomNode.AppendChild, AppendChildCorrected, LinkBefore, InsertBeforeChild, InsertBefore, InsertBeforeCorrected and ReplaceChild require new_child to differ from self. The source does not check it (its own TODOs at arvdomnode.c:370-374 and 451-453 say so); inserting a node into itself is not modelled.

## Findings

| source | as written | input that shows it | evidently intended | confidence | as-written member | corrected member |
|---|---|---|---|---|---|---|
| src/arvmisc.c:335-342 | `arv_value_new_int64` takes its gint64 argument as a `double`, so the value is rounded to 53 bits and converted back | 2^53 + 1 is stored as 2^53; INT64_MAX becomes 2^63, which converts back to INT64_MIN on x86 | the value holds exactly the gint64 given | high, not executed | `ArvValue.NewInt64AsWrittenLosesPrecision` | `ArvValue.NewInt64` |
| src/arvevaluator.c:221-228 | `arv_evaluator_token_new_int64` also takes a `double` parameter, and the lexer passes it the parsed gint64 literal (lines 359 and 371) | the literal 9007199254740993 (2^53 + 1) becomes the constant 2^53 | the token holds the parsed gint64 exactly | high, not executed | `EvaluatorLexer.NewInt64AsWrittenRounds` | `EvaluatorToken.NewInt64` |
| src/arvevaluator.c:748-749 | ABS on an int64 operand calls `abs`, which takes a C `int`, so the operand is cut to 32 bits first | abs(4294967296) gives 0; abs(3000000000) gives 1294967296 | the 64-bit absolute value (`llabs`) | high, not executed | `EvaluatorEval.AbsAsWrittenTruncates` | `EvaluatorEval.ApplyCorrected` |
| src/arvdomnode.c:381-382 | with a NULL ref_child, `insert_before` appends new_child but does not return. It then calls `remove_child (self, new_child)` (lines 386-387), which takes the just-appended new_child out again, and the `ARV_IS_DOM_NODE (ref_child)` test (lines 395-399) then fails for the NULL ref_child and returns NULL | any insert_before (self, child, NULL) | append new_child and return it | high, not executed | `DomNode.InsertBefore` | `DomNode.InsertBeforeCorrected` |
| src/arvdomnode.c:597-598 | when new_child has a parent, `append_child` calls `arv_dom_node_remove_child (self, new_child)`, which only looks in self's list | a node n that is the only child of p, appended to another node: p's first_child and last_child still point to n, whose parent is now self | remove new_child from `new_child->parent_node` | high, not executed | `DomNode.AppendLeavesOtherParent` | `DomNode.AppendChildCorrected` |
| src/arvgcmaskedintregnode.c:171-173 | the unsigned maximum is `(1 << (msb - lsb + 1)) - 1` with a C `int` 1 | the default field, bits 0 to 31 unsigned: the shift count 32 is taken modulo 32 on x86, so the maximum is 0, below every value the register can hold | 2^32 − 1, computed on gint64 | high, not executed | `GcMaskedIntReg.DefaultNodeMaxBelowItsValues` | `GcMaskedIntReg.CorrectedBoundsMaskedGet` |
| src/arvgcregisterdescriptionnode.c:87-88 | with equal major versions, a larger minor version also returns FALSE | a 1.2.0 description checked against required 1.1.0 is refused | a later version passes: lexicographic "at least" | medium (the code is consistent with a deliberate "same minor only" rule), not executed | `GcRegisterDescription.AsWrittenRefusesLaterMinor` | `GcRegisterDescription.CorrectedIsOrder` |
| src/gentl/private-buf.c:132-135 | the PTR case assigns the local `dst` and copies nothing, yet reports 8 bytes and success | gentl_to_buf of a PTR value into an 8-byte buffer: the buffer is unchanged | the pointer value is copied into the buffer | high, not executed | `GentlBuf.PtrAsWritten` | `GentlBuf.ToBufCorrected` |
| src/gentl/private-buf.c:34-40 | the STRINGLIST size stops at the terminating empty string and leaves out its NUL | the list "a\0\0" is given size 2, not 3 | the size covers the whole encoding, final NUL included | medium (the source marks the case as unchecked), not executed | `GentlBuf.StringListSizeAsWritten` | `GentlBuf.StringListSizeCorrectedExact` |
