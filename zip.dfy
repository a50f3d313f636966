// The zip archive reader of arvzip.c: the end-of-central-directory record
// is found by a backward scan, the central directory is listed by walking
// its entries, and a stored file is copied out of the archive. The archive
// is a byte sequence; a pointer into it is an index. The host is
// little-endian, so GUINT32_FROM_LE_PTR is a little-endian read. Where the
// C code would read past the end of the buffer (undefined behaviour) the
// model does not invent bytes: the read gives EntryOutside, and the walk
// of the directory stops at that entry as it does at a missing signature,
// with nothing reported to the caller. An entry whose 46-byte header or
// name runs past the buffer is refused as a whole, even where g_strndup
// would have stopped at a NUL inside the buffer.
module Zip {
  import opened Common

  const END_OF_DIRECTORY_SIGNATURE: seq<byte> := [0x50, 0x4b, 0x05, 0x06]
  const CENTRAL_SIGNATURE: uint32 := 0x02014b50
  const LOCAL_SIGNATURE: uint32 := 0x04034b50
  /** The fixed part of a central-directory entry (0x2e bytes). */
  const CENTRAL_HEADER_SIZE := 0x2e
  /** The fixed part of a local file header. */
  const LOCAL_HEADER_SIZE := 30

  /** ArvZipFile: a name and the sizes and header offset of one file. */
  datatype ZipFile = ZipFile(name: seq<byte>, compressedSize: uint32, uncompressedSize: uint32, offset: uint32)

  /** ArvZip, as arv_zip_new leaves it. */
  datatype ArvZip = ArvZip(
    buffer: seq<byte>,
    files: seq<ZipFile>,
    headerSize: uint64,
    directoryPosition: int32,
    directorySize: uint32,
    directoryOffset: uint32,
    nFiles: uint16)

  // ---------------------------------------------------------------------
  // The backward scan for the end-of-central-directory record

  predicate SignatureAt(buffer: seq<byte>, i: int)
  {
    0 <= i && i + 4 <= |buffer| && buffer[i..i + 4] == END_OF_DIRECTORY_SIGNATURE
  }

  /** The loop counter's first value: buffer_size - 4 computed in size_t and
      stored in an int. */
  function ScanStart(size: uint64): int32
  {
    ToI32(ToU64(size - 4))
  }

  /** The scan never starts past the last four bytes. */
  lemma ScanStartInside(size: uint64)
    ensures ScanStart(size) <= 0 || ScanStart(size) + 4 <= size
  {
    if size >= 4 {
      assert ToU64(size - 4) == size - 4;
    } else {
      assert ToU64(size - 4) == 0x1_0000_0000_0000_0000 + size - 4;
      assert ToU64(size - 4) % 0x1_0000_0000 == 0x1_0000_0000 + size - 4;
    }
  }

  /** The highest position in 1 .. from that holds the signature; position
      0 is never examined. */
  function DirectoryFrom(buffer: seq<byte>, from: int): (r: Option<nat>)
    requires from <= 0 || from + 4 <= |buffer|
    ensures r.Some? ==> (1 <= r.value <= from && SignatureAt(buffer, r.value)
      && forall j :: r.value < j <= from ==> !SignatureAt(buffer, j))
    ensures r.None? ==> forall j :: 1 <= j <= from ==> !SignatureAt(buffer, j)
    decreases if from > 0 then from else 0
  {
    if from <= 0 then None
    else if SignatureAt(buffer, from) then Some(from)
    else DirectoryFrom(buffer, from - 1)
  }

  function DirectoryPosition(buffer: seq<byte>): (r: Option<nat>)
    requires |buffer| <= UINT64_MAX
    ensures r.Some? ==> r.value < 0x8000_0000 && SignatureAt(buffer, r.value)
  {
    ScanStartInside(|buffer|);
    DirectoryFrom(buffer, ScanStart(|buffer|))
  }

  /** The scan loop of arv_zip_new. */
  method FindDirectory(buffer: seq<byte>) returns (position: Option<nat>)
    requires |buffer| <= UINT64_MAX
    ensures position == DirectoryPosition(buffer)
  {
    ScanStartInside(|buffer|);
    var i: int := ScanStart(|buffer|);
    while i > 0
      invariant i <= 0 || i + 4 <= |buffer|
      invariant DirectoryFrom(buffer, i) == DirectoryPosition(buffer)
      decreases i
    {
      if buffer[i] == 0x50 && buffer[i + 1] == 0x4b && buffer[i + 2] == 0x05 && buffer[i + 3] == 0x06 {
        assert buffer[i..i + 4] == END_OF_DIRECTORY_SIGNATURE;
        return Some(i);
      }
      assert !SignatureAt(buffer, i);
      i := i - 1;
    }
    return None;
  }

  // ---------------------------------------------------------------------
  // Central-directory entries

  /** g_strndup: at most n bytes, up to the first NUL. */
  function CString(s: seq<byte>): (r: seq<byte>)
    ensures |r| <= |s| && r == s[..|r|]
    ensures forall i :: 0 <= i < |r| ==> r[i] != 0
    ensures |r| == |s| || s[|r|] == 0
  {
    if |s| == 0 || s[0] == 0 then [] else [s[0]] + CString(s[1..])
  }

  datatype Entry =
    | Central(file: ZipFile, length: nat)
    | NotCentral
    | EntryOutside

  /** The entry at byte `at`: the file it describes and the entry's full
      length (fixed part, name, extra field and comment). */
  function EntryAt(buffer: seq<byte>, at: nat): (e: Entry)
    ensures e.NotCentral? <==> at + 4 <= |buffer| && Le32(buffer, at) != CENTRAL_SIGNATURE
    ensures e.Central? ==> (at + CENTRAL_HEADER_SIZE <= |buffer|
      && at + CENTRAL_HEADER_SIZE + Le16(buffer, at + 28) <= |buffer|
      && Le32(buffer, at) == CENTRAL_SIGNATURE
      && e.length == CENTRAL_HEADER_SIZE + Le16(buffer, at + 28) + Le16(buffer, at + 30) + Le16(buffer, at + 32))
  {
    if at + 4 > |buffer| then EntryOutside
    else if Le32(buffer, at) != CENTRAL_SIGNATURE then NotCentral
    else if at + CENTRAL_HEADER_SIZE > |buffer| then EntryOutside
    else
      var nameLength := Le16(buffer, at + 28);
      if at + CENTRAL_HEADER_SIZE + nameLength > |buffer| then EntryOutside
      else
        var name := CString(buffer[at + CENTRAL_HEADER_SIZE..at + CENTRAL_HEADER_SIZE + nameLength]);
        var file := ZipFile(name, Le32(buffer, at + 20), Le32(buffer, at + 24), Le32(buffer, at + 42));
        Central(file, CENTRAL_HEADER_SIZE + nameLength + Le16(buffer, at + 30) + Le16(buffer, at + 32))
  }

  /** Entries read from the archive's buffer. */
  function Reader(buffer: seq<byte>): nat -> Entry { (at: nat) => EntryAt(buffer, at) }

  /** The files the list walk meets, in directory order: at most n, from
      address `at` on, each entry followed by the next, stopping at the
      first position that holds no entry. */
  function Entries(read: nat -> Entry, at: uint64, n: nat): (r: seq<ZipFile>)
    ensures |r| <= n
    decreases n
  {
    if n == 0 then []
    else match read(at)
      case Central(file, length) => [file] + Entries(read, ToU64(at + length), n - 1)
      case _ => []
  }

  /** The address buffer + header_size + offset, in 64-bit arithmetic. */
  function Address(headerSize: uint64, offset: int): uint64
  {
    ToU64(headerSize + offset)
  }

  lemma AddressStep(headerSize: uint64, offset: int, length: nat)
    ensures Address(headerSize, offset + length) == ToU64(Address(headerSize, offset) + length)
  {
    var m := 0x1_0000_0000_0000_0000;
    var a := headerSize + offset;
    var q := a / m;
    assert a == q * m + ToU64(a);
    assert a + length == ToU64(a) + length + q * m;
    assert (ToU64(a) + length + q * m) % m == (ToU64(a) + length) % m;
  }

  /** The loop of arv_zip_build_file_list, for any reader of entries:
      each entry read is prepended, and the offset grows by its length. */
  method Walk(read: nat -> Entry, headerSize: uint64, directoryOffset: uint32, nFiles: uint16) returns (files: seq<ZipFile>)
    ensures files == Reversed(Entries(read, Address(headerSize, directoryOffset), nFiles))
  {
    files := [];
    ghost var listed: seq<ZipFile> := [];
    var offset: int := directoryOffset;
    var i := 0;
    while i < nFiles
      invariant 0 <= i <= nFiles
      invariant files == Reversed(listed)
      invariant Entries(read, Address(headerSize, directoryOffset), nFiles) == listed + Entries(read, Address(headerSize, offset), nFiles - i)
    {
      var at := Address(headerSize, offset);
      var e := read(at);
      if !e.Central? {
        assert listed + [] == listed;
        return;
      }
      AddressStep(headerSize, offset, e.length);
      ghost var rest := Entries(read, Address(headerSize, offset + e.length), nFiles - i - 1);
      assert listed + ([e.file] + rest) == (listed + [e.file]) + rest;
      ReversedSnoc(listed, e.file);
      listed := listed + [e.file];
      files := [e.file] + files;
      offset := offset + e.length;
      i := i + 1;
    }
    assert listed + [] == listed;
  }

  /** The list arv_zip_build_file_list builds: the directory's entries,
      last first. */
  function FileList(buffer: seq<byte>, headerSize: uint64, directoryOffset: uint32, nFiles: uint16): seq<ZipFile>
  {
    Reversed(Entries(Reader(buffer), Address(headerSize, directoryOffset), nFiles))
  }

  method BuildFileList(buffer: seq<byte>, headerSize: uint64, directoryOffset: uint32, nFiles: uint16) returns (files: seq<ZipFile>)
    ensures files == FileList(buffer, headerSize, directoryOffset, nFiles)
  {
    files := Walk(Reader(buffer), headerSize, directoryOffset, nFiles);
  }

  // ---------------------------------------------------------------------
  // arv_zip_new

  datatype Opening =
    | Opened(zip: ArvZip)
    /** NULL: no buffer, or an empty one. */
    | Refused
    /** The end-of-directory record runs past the end of the buffer. */
    | DirectoryOutside

  /** What arv_zip_new builds from a buffer. */
  function ZipOf(buffer: Option<seq<byte>>): (r: Opening)
    requires buffer.Some? ==> |buffer.value| <= UINT64_MAX
    ensures r.Refused? <==> buffer.None? || buffer.value == []
  {
    if buffer.None? || buffer.value == [] then Refused
    else
      match DirectoryPosition(buffer.value)
      case None => Opened(ArvZip(buffer.value, [], 0, 0, 0, 0, 0))
      case Some(p) => OpenAt(buffer.value, p)
  }

  /** arv_zip_new once the record is found at p: the entry counts at bytes
      8 and 10, the directory's size and offset at bytes 12 and 16. */
  function OpenAt(b: seq<byte>, p: nat): (r: Opening)
    requires p < 0x8000_0000
    ensures r.Opened? ==> r.zip.buffer == b && |r.zip.files| <= r.zip.nFiles
  {
    if p + 12 > |b| then DirectoryOutside
    else
      var n := Le16(b, p + 10);
      if Le16(b, p + 8) != n then Opened(ArvZip(b, [], 0, p, 0, 0, 0))
      else if p + 20 > |b| then DirectoryOutside
      else
        var size, offset := Le32(b, p + 12), Le32(b, p + 16);
        var headerSize := ToU64(p - (offset as int + size));
        Opened(ArvZip(b, FileList(b, headerSize, offset, n), headerSize, p, size, offset, n))
  }

  method NewZip(buffer: Option<seq<byte>>) returns (r: Opening)
    requires buffer.Some? ==> |buffer.value| <= UINT64_MAX
    ensures r == ZipOf(buffer)
  {
    if buffer.None? || buffer.value == [] {
      return Refused;
    }
    var b := buffer.value;
    var found := FindDirectory(b);
    if found.None? {
      return Opened(ArvZip(b, [], 0, 0, 0, 0, 0));
    }
    r := OpenDirectory(b, found.value);
  }

  /** The part of arv_zip_new after the scan. */
  method OpenDirectory(b: seq<byte>, p: nat) returns (r: Opening)
    requires p < 0x8000_0000
    ensures r == OpenAt(b, p)
  {
    if p + 12 > |b| {
      return DirectoryOutside;
    }
    var n := Le16(b, p + 10);
    if Le16(b, p + 8) != n {
      return Opened(ArvZip(b, [], 0, p, 0, 0, 0));
    }
    if p + 20 > |b| {
      return DirectoryOutside;
    }
    var size, offset := Le32(b, p + 12), Le32(b, p + 16);
    var headerSize := ToU64(p - (offset as int + size));
    var files := BuildFileList(b, headerSize, offset, n);
    return Opened(ArvZip(b, files, headerSize, p, size, offset, n));
  }

  /** Without the record the archive lists nothing. */
  lemma ZipWithoutDirectory(buffer: seq<byte>)
    requires 0 < |buffer| <= UINT64_MAX && DirectoryPosition(buffer).None?
    ensures ZipOf(Some(buffer)) == Opened(ArvZip(buffer, [], 0, 0, 0, 0, 0))
  {
  }

  /** When the two entry counts of the record differ, nothing is listed
      and n_files is 0. */
  lemma ZipCountMismatch(b: seq<byte>, p: nat)
    requires p < 0x8000_0000 && p + 12 <= |b| && Le16(b, p + 8) != Le16(b, p + 10)
    ensures OpenAt(b, p).Opened? && OpenAt(b, p).zip.files == [] && OpenAt(b, p).zip.nFiles == 0
  {
  }

  /** Otherwise the archive starts header_size bytes before the offset the
      directory gives for itself, and the list is the directory walked from
      that offset, last entry first. */
  lemma ZipListed(b: seq<byte>, p: nat)
    requires p < 0x8000_0000 && p + 20 <= |b| && Le16(b, p + 8) == Le16(b, p + 10)
    ensures var r := OpenAt(b, p);
      r.Opened? && r.zip.directoryPosition == p && r.zip.nFiles == Le16(b, p + 10)
      && r.zip.headerSize == ToU64(p - (r.zip.directoryOffset + r.zip.directorySize))
      && Reversed(r.zip.files) == Entries(Reader(b), Address(r.zip.headerSize, r.zip.directoryOffset), r.zip.nFiles)
  {
    var r := OpenAt(b, p);
    ReversedReversed(Entries(Reader(b), Address(r.zip.headerSize, r.zip.directoryOffset), r.zip.nFiles));
  }

  // ---------------------------------------------------------------------
  // arv_zip_find_file

  /** The first file of the list with the given name. */
  function Find(files: seq<ZipFile>, name: seq<byte>): (r: Option<ZipFile>)
    ensures r.None? <==> forall i :: 0 <= i < |files| ==> files[i].name != name
    ensures r.Some? ==> r.value.name == name
  {
    if |files| == 0 then None
    else if files[0].name == name then Some(files[0])
    else
      var r := Find(files[1..], name);
      assert forall i :: 1 <= i < |files| ==> files[1..][i - 1] == files[i];
      r
  }

  /** The file found is at the first position holding the name. */
  lemma {:induction false} FindPosition(files: seq<ZipFile>, name: seq<byte>) returns (k: nat)
    requires Find(files, name).Some?
    ensures k < |files| && files[k] == Find(files, name).value
    ensures forall j :: 0 <= j < k ==> files[j].name != name
  {
    if files[0].name == name {
      k := 0;
    } else {
      var k' := FindPosition(files[1..], name);
      k := k' + 1;
      assert files[k] == files[1..][k'];
      forall j | 0 <= j < k
        ensures files[j].name != name
      {
        if j > 0 {
          assert files[j] == files[1..][j - 1];
        }
      }
    }
  }

  method FindFile(zip: ArvZip, name: seq<byte>) returns (r: Option<ZipFile>)
    ensures r == Find(zip.files, name)
  {
    var files := zip.files;
    while files != []
      invariant Find(files, name) == Find(zip.files, name)
      decreases |files|
    {
      if files[0].name == name {
        return Some(files[0]);
      }
      files := files[1..];
    }
    return None;
  }

  /** Since the list is the directory backwards, the file found is the
      last entry of the directory with that name. */
  lemma FindsLastEntry(entries: seq<ZipFile>, name: seq<byte>)
    requires Find(Reversed(entries), name).Some?
    ensures exists i :: (0 <= i < |entries| && entries[i] == Find(Reversed(entries), name).value
      && forall j :: i < j < |entries| ==> entries[j].name != name)
  {
    var rev := Reversed(entries);
    var k := FindPosition(rev, name);
    var i := |entries| - 1 - k;
    assert entries[i] == rev[k];
    forall j | i < j < |entries|
      ensures entries[j].name != name
    {
      assert rev[|entries| - 1 - j] == entries[j];
    }
  }

  /** Nothing is found exactly when no entry has the name. */
  lemma FindsNothing(entries: seq<ZipFile>, name: seq<byte>)
    ensures Find(Reversed(entries), name).None? <==> forall i :: 0 <= i < |entries| ==> entries[i].name != name
  {
    var rev := Reversed(entries);
    if Find(rev, name).None? {
      forall i | 0 <= i < |entries|
        ensures entries[i].name != name
      {
        assert rev[|entries| - 1 - i] == entries[i];
      }
    }
  }

  // ---------------------------------------------------------------------
  // arv_zip_get_file_data and arv_zip_get_file

  datatype Position =
    | Position(value: int64)
    /** The local header runs past the end of the buffer. */
    | PositionOutside

  /** Where a file's data starts: past its local header, whose name and
      extra field lengths are at bytes 26 and 28; -1 without the local
      header signature. */
  function FileData(zip: ArvZip, file: ZipFile): (r: Position)
    ensures var at := ToU64(file.offset + zip.headerSize);
      r.Position? && at + 4 <= |zip.buffer| && Le32(zip.buffer, at) != LOCAL_SIGNATURE ==> r.value == -1
    ensures var at := ToU64(file.offset + zip.headerSize);
      r.Position? && at + 4 <= |zip.buffer| && Le32(zip.buffer, at) == LOCAL_SIGNATURE ==>
        at + LOCAL_HEADER_SIZE <= |zip.buffer|
        && r.value == ToI64(at + LOCAL_HEADER_SIZE + Le16(zip.buffer, at + 26) + Le16(zip.buffer, at + 28))
  {
    var at := ToU64(file.offset + zip.headerSize);
    if at + 4 > |zip.buffer| then PositionOutside
    else if Le32(zip.buffer, at) != LOCAL_SIGNATURE then Position(-1)
    else if at + LOCAL_HEADER_SIZE > |zip.buffer| then PositionOutside
    else
      DataPositionWraps(file.offset + zip.headerSize, Le16(zip.buffer, at + 26) + Le16(zip.buffer, at + 28) + LOCAL_HEADER_SIZE);
      Position(ToI64(file.offset + zip.headerSize + Le16(zip.buffer, at + 26) + Le16(zip.buffer, at + 28) + LOCAL_HEADER_SIZE))
  }

  /** The sum is computed in size_t: reducing the first part first changes
      nothing. */
  lemma DataPositionWraps(a: int, b: int)
    ensures ToI64(a + b) == ToI64(ToU64(a) + b)
  {
    var m := 0x1_0000_0000_0000_0000;
    var q := a / m;
    assert a == q * m + ToU64(a);
    assert a + b == ToU64(a) + b + q * m;
    assert (ToU64(a) + b + q * m) % m == (ToU64(a) + b) % m;
  }

  datatype Contents =
    /** NULL with size 0. */
    | NoFile
    /** A stored file: its bytes, copied. */
    | Stored(data: seq<byte>)
    /** A compressed file: the bytes zlib inflates, and the size of the
        output buffer. */
    | Deflated(compressed: seq<byte>, size: uint32)
    /** The file's bytes run past the end of the buffer. */
    | ContentsOutside

  /** The size arv_zip_get_file reports. */
  function ContentsSize(c: Contents): nat
  {
    match c
    case Stored(data) => |data|
    case Deflated(_, size) => size
    case _ => 0
  }

  /** arv_zip_get_file: found by name; a file of size 0 gives NULL as well,
      since g_malloc (0) returns NULL. */
  function GetFile(zip: ArvZip, name: seq<byte>): (r: Contents)
    ensures Find(zip.files, name).None? ==> r == NoFile
    ensures r.Stored? ==> var file := Find(zip.files, name).value;
      file.compressedSize >= file.uncompressedSize > 0 && |r.data| == file.uncompressedSize
      && FileData(zip, file).Position?
      && var start := FileData(zip, file).value;
      0 <= start && start + |r.data| <= |zip.buffer| && r.data == zip.buffer[start..start + |r.data|]
  {
    match Find(zip.files, name)
    case None => NoFile
    case Some(file) =>
      match FileData(zip, file)
      case PositionOutside => ContentsOutside
      case Position(start) =>
        if start < 0 || file.uncompressedSize == 0 then NoFile
        else if file.compressedSize < file.uncompressedSize then
          if start + file.compressedSize > |zip.buffer| then ContentsOutside
          else Deflated(zip.buffer[start..start + file.compressedSize], file.uncompressedSize)
        else if start + file.uncompressedSize > |zip.buffer| then ContentsOutside
        else Stored(zip.buffer[start..start + file.uncompressedSize])
  }

  /** arv_zip_get_file with the stored path's memcpy as a copy loop. */
  method GetFileCopy(zip: ArvZip, name: seq<byte>) returns (r: Contents, size: nat)
    ensures r == GetFile(zip, name) && size == ContentsSize(r)
  {
    var found := FindFile(zip, name);
    if found.None? {
      return NoFile, 0;
    }
    var file := found.value;
    var position := FileData(zip, file);
    if position.PositionOutside? {
      return ContentsOutside, 0;
    }
    var start := position.value;
    if start < 0 || file.uncompressedSize == 0 {
      return NoFile, 0;
    }
    if file.compressedSize < file.uncompressedSize {
      if start + file.compressedSize > |zip.buffer| {
        return ContentsOutside, 0;
      }
      r := Deflated(zip.buffer[start..start + file.compressedSize], file.uncompressedSize);
      return r, file.uncompressedSize;
    }
    if start + file.uncompressedSize > |zip.buffer| {
      return ContentsOutside, 0;
    }
    var data := CopyBytes(zip.buffer, start, file.uncompressedSize);
    return Stored(data), file.uncompressedSize;
  }

  /** memcpy of n bytes from position start into a new buffer. */
  method CopyBytes(buffer: seq<byte>, start: nat, n: nat) returns (data: seq<byte>)
    requires start + n <= |buffer|
    ensures data == buffer[start..start + n]
  {
    var output := new byte[n];
    var i := 0;
    while i < n
      invariant 0 <= i <= n
      invariant output[..i] == buffer[start..start + i]
    {
      output[i] := buffer[start + i];
      i := i + 1;
    }
    assert output[..] == output[..i];
    data := output[..];
  }

  // ---------------------------------------------------------------------
  // Central-directory entries written and read back

  /** A central-directory entry for file, with the given extra field and
      comment; the fields the reader skips are zero. */
  function EncodeEntry(file: ZipFile, extra: seq<byte>, comment: seq<byte>): (r: seq<byte>)
    requires |file.name| < 0x1_0000 && |extra| < 0x1_0000 && |comment| < 0x1_0000
    ensures |r| == CENTRAL_HEADER_SIZE + |file.name| + |extra| + |comment|
  {
    EncodeLe32(CENTRAL_SIGNATURE) + (Zeros(16)
    + (EncodeLe32(file.compressedSize) + (EncodeLe32(file.uncompressedSize)
    + (EncodeLe16(|file.name|) + (EncodeLe16(|extra|) + (EncodeLe16(|comment|)
    + (Zeros(8) + (EncodeLe32(file.offset)
    + (file.name + (extra + comment))))))))))
  }

  /** Where each field of an encoded entry is. */
  lemma EncodedFields(file: ZipFile, extra: seq<byte>, comment: seq<byte>)
    requires |file.name| < 0x1_0000 && |extra| < 0x1_0000 && |comment| < 0x1_0000
    ensures var e := EncodeEntry(file, extra, comment);
      e[0..4] == EncodeLe32(CENTRAL_SIGNATURE)
      && e[20..24] == EncodeLe32(file.compressedSize) && e[24..28] == EncodeLe32(file.uncompressedSize)
      && e[28..30] == EncodeLe16(|file.name|) && e[30..32] == EncodeLe16(|extra|) && e[32..34] == EncodeLe16(|comment|)
      && e[42..46] == EncodeLe32(file.offset) && e[46..46 + |file.name|] == file.name
  {
    var e := EncodeEntry(file, extra, comment);
    var t4 := e[4..];
    assert t4 == Zeros(16)
      + (EncodeLe32(file.compressedSize) + (EncodeLe32(file.uncompressedSize)
      + (EncodeLe16(|file.name|) + (EncodeLe16(|extra|) + (EncodeLe16(|comment|)
      + (Zeros(8) + (EncodeLe32(file.offset) + (file.name + (extra + comment)))))))));
    var t20 := t4[16..];
    assert e[20..24] == t20[..4];
    var t24 := t20[4..];
    assert e[24..28] == t24[..4];
    var t28 := t24[4..];
    assert e[28..30] == t28[..2];
    var t30 := t28[2..];
    assert e[30..32] == t30[..2];
    var t32 := t30[2..];
    assert e[32..34] == t32[..2];
    var t42 := t32[10..];
    assert t42 == EncodeLe32(file.offset) + (file.name + (extra + comment));
    assert e[42..46] == t42[..4];
    var t46 := t42[4..];
    assert e[46..46 + |file.name|] == t46[..|file.name|];
  }

  /** A field of a sequence placed in the buffer is found in the buffer. */
  lemma FieldAt(buffer: seq<byte>, at: nat, e: seq<byte>, k: nat, f: seq<byte>)
    requires at + |e| <= |buffer| && buffer[at..at + |e|] == e
    requires k + |f| <= |e| && e[k..k + |f|] == f
    ensures buffer[at + k..at + k + |f|] == f
  {
    forall j | 0 <= j < |f|
      ensures buffer[at + k..at + k + |f|][j] == f[j]
    {
      assert buffer[at + k + j] == buffer[at..at + |e|][k + j];
    }
  }

  /** The fields of an encoded entry read back from the buffer. */
  lemma EntryFieldsRoundTrip(buffer: seq<byte>, at: nat, file: ZipFile, extra: seq<byte>, comment: seq<byte>)
    requires |file.name| < 0x1_0000 && |extra| < 0x1_0000 && |comment| < 0x1_0000
    requires var e := EncodeEntry(file, extra, comment);
      at + |e| <= |buffer| && buffer[at..at + |e|] == e
    ensures Le32(buffer, at) == CENTRAL_SIGNATURE
    ensures Le32(buffer, at + 20) == file.compressedSize && Le32(buffer, at + 24) == file.uncompressedSize
    ensures Le16(buffer, at + 28) == |file.name| && Le16(buffer, at + 30) == |extra| && Le16(buffer, at + 32) == |comment|
    ensures Le32(buffer, at + 42) == file.offset
    ensures buffer[at + CENTRAL_HEADER_SIZE..at + CENTRAL_HEADER_SIZE + |file.name|] == file.name
  {
    var e := EncodeEntry(file, extra, comment);
    EncodedFields(file, extra, comment);
    FieldAt(buffer, at, e, 0, EncodeLe32(CENTRAL_SIGNATURE));
    Le32OfEncode(buffer, at, CENTRAL_SIGNATURE);
    FieldAt(buffer, at, e, 20, EncodeLe32(file.compressedSize));
    Le32OfEncode(buffer, at + 20, file.compressedSize);
    FieldAt(buffer, at, e, 24, EncodeLe32(file.uncompressedSize));
    Le32OfEncode(buffer, at + 24, file.uncompressedSize);
    FieldAt(buffer, at, e, 28, EncodeLe16(|file.name|));
    Le16OfEncode(buffer, at + 28, |file.name|);
    FieldAt(buffer, at, e, 30, EncodeLe16(|extra|));
    Le16OfEncode(buffer, at + 30, |extra|);
    FieldAt(buffer, at, e, 32, EncodeLe16(|comment|));
    Le16OfEncode(buffer, at + 32, |comment|);
    FieldAt(buffer, at, e, 42, EncodeLe32(file.offset));
    Le32OfEncode(buffer, at + 42, file.offset);
    FieldAt(buffer, at, e, 46, file.name);
  }

  /** An encoded entry, wherever it sits in the buffer, reads back as its
      file and its length, provided the name holds no NUL. */
  lemma EntryRoundTrip(buffer: seq<byte>, at: nat, file: ZipFile, extra: seq<byte>, comment: seq<byte>)
    requires |file.name| < 0x1_0000 && |extra| < 0x1_0000 && |comment| < 0x1_0000
    requires forall i :: 0 <= i < |file.name| ==> file.name[i] != 0
    requires var e := EncodeEntry(file, extra, comment);
      at + |e| <= |buffer| && buffer[at..at + |e|] == e
    ensures EntryAt(buffer, at) == Central(file, |EncodeEntry(file, extra, comment)|)
  {
    EntryFieldsRoundTrip(buffer, at, file, extra, comment);
    CStringOfText(file.name);
  }

  /** A name without NUL is copied whole. */
  lemma {:induction false} CStringOfText(s: seq<byte>)
    requires forall i :: 0 <= i < |s| ==> s[i] != 0
    ensures CString(s) == s
  {
    if |s| > 0 {
      CStringOfText(s[1..]);
    }
  }
}
