/** The stored-only ZIP writer of scripts/generate-executive-card-downloads.ts against a reader that
    follows sections 4.3.7, 4.3.12 and 4.3.16 of the PKWARE APPNOTE. */
module Zip {
  import opened Wrappers
  import Crc32

  /** A byte as a number. */
  type Byte = n: int | 0 <= n < 256

  /** A file to pack: its relative name in UTF-8 and its contents. */
  datatype File = File(name: seq<Byte>, data: seq<Byte>)

  // ---------------------------------------------------------------- little-endian numbers

  function U16(v: nat): (r: seq<Byte>)
    ensures |r| == 2
  {
    [v % 256, v / 256 % 256]
  }

  function U32(v: nat): (r: seq<Byte>)
    ensures |r| == 4
  {
    U16(v % 0x1_0000) + U16(v / 0x1_0000)
  }

  function Le16(b: seq<Byte>, at: nat): nat
    requires at + 2 <= |b|
  {
    b[at] as int + 256 * (b[at + 1] as int)
  }

  function Le32(b: seq<Byte>, at: nat): nat
    requires at + 4 <= |b|
  {
    Le16(b, at) + 0x1_0000 * Le16(b, at + 2)
  }

  lemma Le16Reads(b: seq<Byte>, at: nat, v: nat)
    requires at + 2 <= |b| && b[at..at + 2] == U16(v) && v < 0x1_0000
    ensures Le16(b, at) == v
  {
    assert b[at] == b[at..at + 2][0] && b[at + 1] == b[at..at + 2][1];
  }

  lemma Le32Reads(b: seq<Byte>, at: nat, v: nat)
    requires at + 4 <= |b| && b[at..at + 4] == U32(v) && v < 0x1_0000_0000
    ensures Le32(b, at) == v
  {
    assert b[at..at + 2] == b[at..at + 4][..2] == U16(v % 0x1_0000);
    assert b[at + 2..at + 4] == b[at..at + 4][2..] == U16(v / 0x1_0000);
    Le16Reads(b, at, v % 0x1_0000);
    Le16Reads(b, at + 2, v / 0x1_0000);
  }

  /** `writeUInt16LE`: out-of-range values are refused and leave the buffer alone. */
  method WriteUInt16LE(buffer: array<Byte>, value: int, offset: nat) returns (ok: bool)
    requires offset + 2 <= buffer.Length
    modifies buffer
    ensures ok <==> 0 <= value < 0x1_0000
    ensures ok ==> buffer[..offset + 2] == old(buffer[..offset]) + U16(value)
    ensures ok ==> buffer[offset + 2..] == old(buffer[offset + 2..])
    ensures !ok ==> buffer[..] == old(buffer[..])
  {
    ok := 0 <= value < 0x1_0000;
    if ok {
      buffer[offset] := value % 256;
      buffer[offset + 1] := value / 256;
    }
  }

  /** `writeUInt32LE`. */
  method WriteUInt32LE(buffer: array<Byte>, value: int, offset: nat) returns (ok: bool)
    requires offset + 4 <= buffer.Length
    modifies buffer
    ensures ok <==> 0 <= value < 0x1_0000_0000
    ensures ok ==> buffer[..offset + 4] == old(buffer[..offset]) + U32(value)
    ensures ok ==> buffer[offset + 4..] == old(buffer[offset + 4..])
    ensures !ok ==> buffer[..] == old(buffer[..])
  {
    ok := 0 <= value < 0x1_0000_0000;
    if ok {
      var low := WriteUInt16LE(buffer, value % 0x1_0000, offset);
      var high := WriteUInt16LE(buffer, value / 0x1_0000, offset + 2);
    }
  }

  // ---------------------------------------------------------------- the layout

  /** The same bytes as bit vectors, which is what the checksum works on. */
  function AsBits(data: seq<Byte>): seq<Crc32.Byte> {
    seq(|data|, i requires 0 <= i < |data| => data[i] as bv8)
  }

  function Sum(data: seq<Byte>): (r: nat)
    ensures r < 0x1_0000_0000
  {
    Crc32.Value(Crc32.Checksum(AsBits(data)))
  }

  /** Section 4.3.7: a stored file's local header, without its name. */
  function LocalHeader(f: File): (r: seq<Byte>)
    ensures |r| == 30
  {
    [0x50, 0x4b, 3, 4, 20, 0, 0, 0, 0, 0, 0, 0, 0, 0]
    + U32(Sum(f.data)) + U32(|f.data|) + U32(|f.data|) + U16(|f.name|) + U16(0)
  }

  /** Section 4.3.12: a stored file's directory header, without its name. */
  function CentralHeader(f: File, offset: nat): (r: seq<Byte>)
    ensures |r| == 46
  {
    [0x50, 0x4b, 1, 2, 20, 0, 20, 0, 0, 0, 0, 0, 0, 0, 0, 0]
    + U32(Sum(f.data)) + U32(|f.data|) + U32(|f.data|) + U16(|f.name|)
    + [0, 0, 0, 0, 0, 0, 0, 0, 0, 0, 0, 0] + U32(offset)
  }

  /** Section 4.3.16: the end record. */
  function EndRecord(count: nat, size: nat, offset: nat): (r: seq<Byte>)
    ensures |r| == 22
  {
    [0x50, 0x4b, 5, 6, 0, 0, 0, 0] + U16(count) + U16(count) + U32(size) + U32(offset) + [0, 0]
  }

  function LocalEntry(f: File): seq<Byte> {
    LocalHeader(f) + f.name + f.data
  }

  function CentralEntry(f: File, offset: nat): seq<Byte> {
    CentralHeader(f, offset) + f.name
  }

  /** The local part of an archive. */
  function Locals(files: seq<File>): seq<Byte>
    decreases |files|
  {
    if files == [] then []
    else Locals(files[..|files| - 1]) + LocalEntry(files[|files| - 1])
  }

  /** The directory: every entry stores where its local header starts. */
  function Centrals(files: seq<File>): seq<Byte>
    decreases |files|
  {
    if files == [] then []
    else
      var rest := files[..|files| - 1];
      Centrals(rest) + CentralEntry(files[|files| - 1], |Locals(rest)|)
  }

  function ZipBytes(files: seq<File>): seq<Byte> {
    Locals(files) + Centrals(files) + EndRecord(|files|, |Centrals(files)|, |Locals(files)|)
  }

  /** Everything the format's 16- and 32-bit fields must hold. */
  predicate Fits(files: seq<File>) {
    && |files| < 0x1_0000
    && (forall k :: 0 <= k < |files| ==> |files[k].name| < 0x1_0000)
    && |Locals(files)| < 0x1_0000_0000
    && |Centrals(files)| < 0x1_0000_0000
  }

  // ---------------------------------------------------------------- the writer

  datatype RangeError = RangeError

  lemma LocalFrontBytes()
    ensures U32(0x04034b50) + U16(20) + U16(0) + U16(0) + U16(0) + U16(0)
         == [0x50, 0x4b, 3, 4, 20, 0, 0, 0, 0, 0, 0, 0, 0, 0]
  {
  }

  method WriteLocalFront(header: array<Byte>)
    requires header.Length == 30
    modifies header
    ensures header[..14] == [0x50, 0x4b, 3, 4, 20, 0, 0, 0, 0, 0, 0, 0, 0, 0]
  {
    var ok := WriteUInt32LE(header, 0x04034b50, 0);
    ok := WriteUInt16LE(header, 20, 4);
    ok := WriteUInt16LE(header, 0, 6);
    ok := WriteUInt16LE(header, 0, 8);
    ok := WriteUInt16LE(header, 0, 10);
    ok := WriteUInt16LE(header, 0, 12);
    LocalFrontBytes();
  }

  method LocalHeaderFor(f: File, checksum: int) returns (header: array<Byte>, ok: bool)
    requires checksum == Sum(f.data)
    ensures fresh(header)
    ensures ok <==> |f.data| < 0x1_0000_0000 && |f.name| < 0x1_0000
    ensures ok ==> header[..] == LocalHeader(f)
  {
    header := new Byte[30](_ => 0);
    WriteLocalFront(header);
    ok := WriteUInt32LE(header, checksum, 14);
    ok := WriteUInt32LE(header, |f.data|, 18);
    if !ok { return; }
    ok := WriteUInt32LE(header, |f.data|, 22);
    ok := WriteUInt16LE(header, |f.name|, 26);
    if !ok { return; }
    ok := WriteUInt16LE(header, 0, 28);
    assert header[..] == header[..30];
  }

  lemma CentralFrontBytes()
    ensures U32(0x02014b50) + U16(20) + U16(20) + U16(0) + U16(0) + U16(0) + U16(0)
         == [0x50, 0x4b, 1, 2, 20, 0, 20, 0, 0, 0, 0, 0, 0, 0, 0, 0]
  {
  }

  method WriteCentralFront(header: array<Byte>)
    requires header.Length == 46
    modifies header
    ensures header[..16] == [0x50, 0x4b, 1, 2, 20, 0, 20, 0, 0, 0, 0, 0, 0, 0, 0, 0]
  {
    var ok := WriteUInt32LE(header, 0x02014b50, 0);
    ok := WriteUInt16LE(header, 20, 4);
    ok := WriteUInt16LE(header, 20, 6);
    ok := WriteUInt16LE(header, 0, 8);
    ok := WriteUInt16LE(header, 0, 10);
    ok := WriteUInt16LE(header, 0, 12);
    ok := WriteUInt16LE(header, 0, 14);
    CentralFrontBytes();
  }

  lemma CentralGapBytes(front: seq<Byte>)
    ensures front + U16(0) + U16(0) + U16(0) + U16(0) + U32(0) == front + [0, 0, 0, 0, 0, 0, 0, 0, 0, 0, 0, 0]
  {
  }

  method WriteCentralGap(header: array<Byte>)
    requires header.Length == 46
    modifies header
    ensures header[..42] == old(header[..30]) + [0, 0, 0, 0, 0, 0, 0, 0, 0, 0, 0, 0]
  {
    ghost var front := header[..30];
    var ok := WriteUInt16LE(header, 0, 30);
    ok := WriteUInt16LE(header, 0, 32);
    ok := WriteUInt16LE(header, 0, 34);
    ok := WriteUInt16LE(header, 0, 36);
    ok := WriteUInt32LE(header, 0, 38);
    CentralGapBytes(front);
  }

  method CentralHeaderFor(f: File, checksum: int, offset: nat) returns (header: array<Byte>, ok: bool)
    requires checksum == Sum(f.data)
    ensures fresh(header)
    ensures ok <==> |f.data| < 0x1_0000_0000 && |f.name| < 0x1_0000 && offset < 0x1_0000_0000
    ensures ok ==> header[..] == CentralHeader(f, offset)
  {
    header := new Byte[46](_ => 0);
    WriteCentralFront(header);
    ok := WriteUInt32LE(header, checksum, 16);
    ok := WriteUInt32LE(header, |f.data|, 20);
    if !ok { return; }
    ok := WriteUInt32LE(header, |f.data|, 24);
    ok := WriteUInt16LE(header, |f.name|, 28);
    if !ok { return; }
    WriteCentralGap(header);
    ok := WriteUInt32LE(header, offset, 42);
    if !ok { return; }
    assert header[..] == header[..46];
  }

  method EndRecordFor(count: nat, size: nat, offset: nat) returns (end: array<Byte>, ok: bool)
    ensures fresh(end)
    ensures ok <==> count < 0x1_0000 && size < 0x1_0000_0000 && offset < 0x1_0000_0000
    ensures ok ==> end[..] == EndRecord(count, size, offset)
  {
    end := new Byte[22](_ => 0);
    ok := WriteUInt32LE(end, 0x06054b50, 0);
    ok := WriteUInt16LE(end, 0, 4);
    ok := WriteUInt16LE(end, 0, 6);
    assert end[..8] == [0x50, 0x4b, 5, 6, 0, 0, 0, 0];
    ok := WriteUInt16LE(end, count, 8);
    if !ok { return; }
    ok := WriteUInt16LE(end, count, 10);
    ok := WriteUInt32LE(end, size, 12);
    if !ok { return; }
    ok := WriteUInt32LE(end, offset, 16);
    if !ok { return; }
    ok := WriteUInt16LE(end, 0, 20);
    assert end[..] == end[..22];
  }

  /** `Buffer.concat`. */
  function Concat(parts: seq<seq<Byte>>): seq<Byte>
    decreases |parts|
  {
    if parts == [] then [] else Concat(parts[..|parts| - 1]) + parts[|parts| - 1]
  }

  lemma ConcatPush(parts: seq<seq<Byte>>, part: seq<Byte>)
    ensures Concat(parts + [part]) == Concat(parts) + part
  {
    assert (parts + [part])[..|parts|] == parts;
  }

  lemma EntriesGrow(files: seq<File>, i: nat)
    requires i < |files|
    ensures Locals(files[..i + 1]) == Locals(files[..i]) + LocalEntry(files[i])
    ensures Centrals(files[..i + 1]) == Centrals(files[..i]) + CentralEntry(files[i], |Locals(files[..i])|)
  {
    assert files[..i + 1][..i] == files[..i];
  }

  /** The archive's parts grow from left to right, so early parts fit when the whole does. */
  lemma {:induction false} PartsArePrefixes(files: seq<File>, k: nat)
    requires k <= |files|
    ensures Locals(files[..k]) <= Locals(files) && Centrals(files[..k]) <= Centrals(files)
    decreases |files| - k
  {
    if k == |files| {
      assert files[..k] == files;
    } else {
      PartsArePrefixes(files, k + 1);
      EntriesGrow(files, k);
    }
  }

  /** A file whose headers cannot be written makes the archive not fit. */
  lemma MisfitShows(files: seq<File>, i: nat)
    requires i < |files|
    requires |files[i].data| >= 0x1_0000_0000 || |files[i].name| >= 0x1_0000 || |Locals(files[..i])| >= 0x1_0000_0000
    ensures !Fits(files)
  {
    PartsArePrefixes(files, i);
    PartsArePrefixes(files, i + 1);
    EntriesGrow(files, i);
  }

  lemma Regroup(front: seq<Byte>, a: seq<Byte>, b: seq<Byte>)
    ensures front + a + b == front + (a + b)
  {
  }

  lemma ConcatPushTwo(parts: seq<seq<Byte>>, a: seq<Byte>, b: seq<Byte>)
    ensures Concat(parts + [a] + [b]) == Concat(parts) + (a + b)
  {
    ConcatPush(parts, a);
    ConcatPush(parts + [a], b);
    Regroup(Concat(parts), a, b);
  }

  lemma ConcatPushThree(parts: seq<seq<Byte>>, a: seq<Byte>, b: seq<Byte>, c: seq<Byte>)
    ensures Concat(parts + [a] + [b] + [c]) == Concat(parts) + (a + b + c)
  {
    ConcatPushTwo(parts, a, b);
    ConcatPush(parts + [a] + [b], c);
    Regroup(Concat(parts), a + b, c);
  }

  /** The parts and the offset after i files. */
  ghost predicate Packed(files: seq<File>, i: nat, localParts: seq<seq<Byte>>, centralParts: seq<seq<Byte>>,
          offset: nat) {
    && i <= |files|
    && Concat(localParts) == Locals(files[..i])
    && Concat(centralParts) == Centrals(files[..i])
    && offset == |Locals(files[..i])|
    && forall k :: 0 <= k < i ==> |files[k].name| < 0x1_0000
  }

  lemma PackedStep(files: seq<File>, i: nat, localParts: seq<seq<Byte>>, centralParts: seq<seq<Byte>>, offset: nat)
    requires i < |files| && Packed(files, i, localParts, centralParts, offset) && |files[i].name| < 0x1_0000
    ensures var f := files[i];
      Packed(files, i + 1, localParts + [LocalHeader(f)] + [f.name] + [f.data],
             centralParts + [CentralHeader(f, offset)] + [f.name], offset + 30 + |f.name| + |f.data|)
  {
    var f := files[i];
    ConcatPushThree(localParts, LocalHeader(f), f.name, f.data);
    ConcatPushTwo(centralParts, CentralHeader(f, offset), f.name);
    EntriesGrow(files, i);
  }

  lemma PackedAll(files: seq<File>, localParts: seq<seq<Byte>>, centralParts: seq<seq<Byte>>, offset: nat)
    requires Packed(files, |files|, localParts, centralParts, offset)
    ensures Concat(localParts) == Locals(files) && Concat(centralParts) == Centrals(files)
    ensures Fits(files) <==> |files| < 0x1_0000 && |Centrals(files)| < 0x1_0000_0000 && |Locals(files)| < 0x1_0000_0000
  {
    assert files[..|files|] == files;
  }

  /** The body of `createZip`'s loop: the two headers of one file. */
  method FileHeaders(f: File, offset: nat, table: seq<Crc32.Word>)
    returns (localHeader: seq<Byte>, centralHeader: seq<Byte>, ok: bool)
    requires Crc32.IsCrcTable(table)
    ensures ok <==> |f.data| < 0x1_0000_0000 && |f.name| < 0x1_0000 && offset < 0x1_0000_0000
    ensures ok ==> localHeader == LocalHeader(f) && centralHeader == CentralHeader(f, offset)
  {
    localHeader, centralHeader := [], [];
    var crc := Crc32.Crc32(table, AsBits(f.data));
    var checksum := Crc32.Value(crc);
    var local, localFits := LocalHeaderFor(f, checksum);
    if !localFits { return localHeader, centralHeader, false; }
    localHeader := local[..];
    var central, centralFits := CentralHeaderFor(f, checksum, offset);
    if !centralFits { return localHeader, centralHeader, false; }
    centralHeader := central[..];
    ok := true;
  }

  /** One round of the loop: the parts of file i, or the range error that stops it. */
  method PackFile(files: seq<File>, i: nat, localParts: seq<seq<Byte>>, centralParts: seq<seq<Byte>>, offset: nat,
                  table: seq<Crc32.Word>)
    returns (locals: seq<seq<Byte>>, centrals: seq<seq<Byte>>, next: nat, ok: bool)
    requires Crc32.IsCrcTable(table) && i < |files| && Packed(files, i, localParts, centralParts, offset)
    ensures ok ==> Packed(files, i + 1, locals, centrals, next)
    ensures !ok ==> !Fits(files)
  {
    var f := files[i];
    var localHeader, centralHeader;
    localHeader, centralHeader, ok := FileHeaders(f, offset, table);
    locals := localParts + [localHeader] + [f.name] + [f.data];
    centrals := centralParts + [centralHeader] + [f.name];
    next := offset + |localHeader| + |f.name| + |f.data|;
    if ok {
      PackedStep(files, i, localParts, centralParts, offset);
    } else {
      MisfitShows(files, i);
    }
  }

  method Finish(files: seq<File>, localParts: seq<seq<Byte>>, centralParts: seq<seq<Byte>>, ghost offset: nat)
    returns (r: Result<seq<Byte>, RangeError>)
    requires Packed(files, |files|, localParts, centralParts, offset)
    ensures r == if Fits(files) then Ok(ZipBytes(files)) else Err(RangeError)
  {
    PackedAll(files, localParts, centralParts, offset);
    var centralDirectory := Concat(centralParts);
    var localData := Concat(localParts);
    var end, ok := EndRecordFor(|files|, |centralDirectory|, |localData|);
    r := if ok then Ok(localData + centralDirectory + end[..]) else Err(RangeError);
  }

  lemma NothingPacked(files: seq<File>)
    ensures Packed(files, 0, [], [], 0)
  {
  }

  /** `createZip`, from the files' names and contents to the archive's bytes. */
  method CreateZip(files: seq<File>, table: seq<Crc32.Word>) returns (r: Result<seq<Byte>, RangeError>)
    requires Crc32.IsCrcTable(table)
    ensures r == if Fits(files) then Ok(ZipBytes(files)) else Err(RangeError)
  {
    var localParts: seq<seq<Byte>>, centralParts: seq<seq<Byte>> := [], [];
    var offset: nat, i: nat := 0, 0;
    NothingPacked(files);
    while i < |files|
      invariant i <= |files| && Packed(files, i, localParts, centralParts, offset)
    {
      var ok;
      localParts, centralParts, offset, ok := PackFile(files, i, localParts, centralParts, offset, table);
      if !ok {
        return Err(RangeError);
      }
      i := i + 1;
    }
    r := Finish(files, localParts, centralParts, offset);
  }

  // ---------------------------------------------------------------- the reader

  datatype Entry = Entry(name: seq<Byte>, data: seq<Byte>, checksum: nat)

  datatype ReadError = BadEnd | BadDirectory | BadLocal | BadChecksum

  /** A local header this reader supports: version 2.0, no flags, stored, and numbers that repeat the
      directory's. */
  predicate LocalAgrees(b: seq<Byte>, at: nat, size: nat, checksum: nat) {
    && at + 30 <= |b| && Le32(b, at) == 0x04034b50
    && Le16(b, at + 4) == 20 && Le16(b, at + 6) == 0 && Le16(b, at + 8) == 0
    && Le32(b, at + 14) == checksum && Le32(b, at + 18) == size && Le32(b, at + 22) == size
  }

  /** A directory header this reader supports: version 2.0 needed, no flags, stored, on the first disk. */
  predicate CentralSupported(b: seq<Byte>, at: nat) {
    && at + 46 <= |b| && Le32(b, at) == 0x02014b50
    && Le16(b, at + 6) == 20 && Le16(b, at + 8) == 0 && Le16(b, at + 10) == 0
    && Le32(b, at + 20) == Le32(b, at + 24) && Le16(b, at + 34) == 0
  }

  /** The stored contents behind a local header, which must repeat the directory's name. */
  function ReadLocal(b: seq<Byte>, at: nat, size: nat, checksum: nat, name: seq<Byte>): Result<seq<Byte>, ReadError> {
    if !LocalAgrees(b, at, size, checksum) then Err(BadLocal)
    else
      var nameEnd := at + 30 + Le16(b, at + 26);
      var start := nameEnd + Le16(b, at + 28);
      if start + size > |b| || b[at + 30..nameEnd] != name then Err(BadLocal)
      else Ok(b[start..start + size])
  }

  function ReadEntry(b: seq<Byte>, at: nat): Result<Entry, ReadError> {
    if !CentralSupported(b, at) || at + 46 + Le16(b, at + 28) > |b| then Err(BadDirectory)
    else
      var name := b[at + 46..at + 46 + Le16(b, at + 28)];
      var checksum := Le32(b, at + 16);
      match ReadLocal(b, Le32(b, at + 42), Le32(b, at + 24), checksum, name)
      case Err(e) => Err(e)
      case Ok(data) => if Sum(data) == checksum then Ok(Entry(name, data, checksum)) else Err(BadChecksum)
  }

  function ReadDirectory(b: seq<Byte>, at: nat, count: nat): Result<seq<Entry>, ReadError>
    decreases count
  {
    if count == 0 then Ok([])
    else if at + 46 > |b| then Err(BadDirectory)
    else
      var next := at + 46 + Le16(b, at + 28) + Le16(b, at + 30) + Le16(b, at + 32);
      match ReadEntry(b, at)
      case Err(e) => Err(e)
      case Ok(entry) =>
        match ReadDirectory(b, next, count - 1)
        case Err(e) => Err(e)
        case Ok(rest) => Ok([entry] + rest)
  }

  /** Where the directory starts and how many entries it has. */
  function ReadEnd(b: seq<Byte>): Result<(nat, nat), ReadError> {
    if |b| < 22 then Err(BadEnd)
    else
      var at := |b| - 22;
      var offset, count := Le32(b, at + 16), Le16(b, at + 10);
      if Le32(b, at) != 0x06054b50 || Le16(b, at + 4) != 0 || Le16(b, at + 6) != 0 || Le16(b, at + 20) != 0 || Le16(b, at + 8) != count || offset + Le32(b, at + 12) != at
      then Err(BadEnd)
      else Ok((offset, count))
  }

  /** From the end record to the directory to each local header. */
  function ReadZip(b: seq<Byte>): Result<seq<Entry>, ReadError> {
    match ReadEnd(b)
    case Err(e) => Err(e)
    case Ok((offset, count)) => ReadDirectory(b, offset, count)
  }

  // ---------------------------------------------------------------- round trip

  /** x stands in b at the given place. */
  predicate StandsAt(b: seq<Byte>, at: nat, x: seq<Byte>) {
    at + |x| <= |b| && b[at..at + |x|] == x
  }

  lemma Peel(b: seq<Byte>, at: nat, x: seq<Byte>, y: seq<Byte>)
    requires StandsAt(b, at, x + y)
    ensures StandsAt(b, at, x) && StandsAt(b, at + |x|, y)
  {
    assert b[at..at + |x + y|][..|x|] == (x + y)[..|x|] == x;
    assert b[at..at + |x + y|][|x|..] == (x + y)[|x|..] == y;
  }

  lemma PeelShort(b: seq<Byte>, at: nat, x: seq<Byte>, v: nat)
    requires StandsAt(b, at, x + U16(v)) && v < 0x1_0000
    ensures StandsAt(b, at, x) && at + |x| + 2 <= |b| && Le16(b, at + |x|) == v
  {
    Peel(b, at, x, U16(v));
    Le16Reads(b, at + |x|, v);
  }

  lemma PeelLong(b: seq<Byte>, at: nat, x: seq<Byte>, v: nat)
    requires StandsAt(b, at, x + U32(v)) && v < 0x1_0000_0000
    ensures StandsAt(b, at, x) && at + |x| + 4 <= |b| && Le32(b, at + |x|) == v
  {
    Peel(b, at, x, U32(v));
    Le32Reads(b, at + |x|, v);
  }

  lemma ByteStands(b: seq<Byte>, at: nat, x: seq<Byte>, k: nat)
    requires StandsAt(b, at, x) && k < |x|
    ensures b[at + k] == x[k]
  {
    assert b[at..at + |x|][k] == x[k];
  }

  lemma ShortStands(b: seq<Byte>, at: nat, x: seq<Byte>, k: nat)
    requires StandsAt(b, at, x) && k + 2 <= |x|
    ensures Le16(b, at + k) == Le16(x, k)
  {
    ByteStands(b, at, x, k);
    ByteStands(b, at, x, k + 1);
  }

  lemma LongStands(b: seq<Byte>, at: nat, x: seq<Byte>, k: nat)
    requires StandsAt(b, at, x) && k + 4 <= |x|
    ensures Le32(b, at + k) == Le32(x, k)
  {
    ShortStands(b, at, x, k);
    ShortStands(b, at, x, k + 2);
  }

  lemma LocalFields(b: seq<Byte>, at: nat, f: File)
    requires StandsAt(b, at, LocalHeader(f)) && |f.name| < 0x1_0000 && |f.data| < 0x1_0000_0000
    ensures LocalAgrees(b, at, |f.data|, Sum(f.data))
    ensures Le16(b, at + 26) == |f.name| && Le16(b, at + 28) == 0
  {
    hide Sum;
    var n := |f.data|;
    var front: seq<Byte> := [0x50, 0x4b, 3, 4, 20, 0, 0, 0, 0, 0, 0, 0, 0, 0];
    PeelShort(b, at, front + U32(Sum(f.data)) + U32(n) + U32(n) + U16(|f.name|), 0);
    PeelShort(b, at, front + U32(Sum(f.data)) + U32(n) + U32(n), |f.name|);
    PeelLong(b, at, front + U32(Sum(f.data)) + U32(n), n);
    PeelLong(b, at, front + U32(Sum(f.data)), n);
    PeelLong(b, at, front, Sum(f.data));
    LocalConstants(b, at);
  }

  lemma LocalConstants(b: seq<Byte>, at: nat)
    requires StandsAt(b, at, [0x50, 0x4b, 3, 4, 20, 0, 0, 0, 0, 0, 0, 0, 0, 0])
    ensures Le32(b, at) == 0x04034b50 && Le16(b, at + 4) == 20 && Le16(b, at + 6) == 0 && Le16(b, at + 8) == 0
  {
    var front: seq<Byte> := [0x50, 0x4b, 3, 4, 20, 0, 0, 0, 0, 0, 0, 0, 0, 0];
    LongStands(b, at, front, 0);
    ShortStands(b, at, front, 4);
    ShortStands(b, at, front, 6);
    ShortStands(b, at, front, 8);
  }

  lemma CentralNumbers(b: seq<Byte>, at: nat, f: File, offset: nat)
    requires StandsAt(b, at, CentralHeader(f, offset)) && |f.name| < 0x1_0000 && |f.data| < 0x1_0000_0000 && offset < 0x1_0000_0000
    ensures StandsAt(b, at, [0x50, 0x4b, 1, 2, 20, 0, 20, 0, 0, 0, 0, 0, 0, 0, 0, 0])
    ensures StandsAt(b, at + 30, [0, 0, 0, 0, 0, 0, 0, 0, 0, 0, 0, 0])
    ensures at + 46 <= |b| && Le32(b, at + 16) == Sum(f.data)
    ensures Le32(b, at + 20) == |f.data| && Le32(b, at + 24) == |f.data|
    ensures Le16(b, at + 28) == |f.name| && Le32(b, at + 42) == offset
  {
    var n := |f.data|;
    var front: seq<Byte> := [0x50, 0x4b, 1, 2, 20, 0, 20, 0, 0, 0, 0, 0, 0, 0, 0, 0];
    var gap: seq<Byte> := [0, 0, 0, 0, 0, 0, 0, 0, 0, 0, 0, 0];
    var numbers := front + U32(Sum(f.data)) + U32(n) + U32(n) + U16(|f.name|);
    PeelLong(b, at, numbers + gap, offset);
    Peel(b, at, numbers, gap);
    PeelShort(b, at, front + U32(Sum(f.data)) + U32(n) + U32(n), |f.name|);
    PeelLong(b, at, front + U32(Sum(f.data)) + U32(n), n);
    PeelLong(b, at, front + U32(Sum(f.data)), n);
    PeelLong(b, at, front, Sum(f.data));
  }

  lemma CentralConstants(b: seq<Byte>, at: nat)
    requires StandsAt(b, at, [0x50, 0x4b, 1, 2, 20, 0, 20, 0, 0, 0, 0, 0, 0, 0, 0, 0])
    requires StandsAt(b, at + 30, [0, 0, 0, 0, 0, 0, 0, 0, 0, 0, 0, 0])
    ensures Le32(b, at) == 0x02014b50 && Le16(b, at + 6) == 20 && Le16(b, at + 8) == 0 && Le16(b, at + 10) == 0
    ensures Le16(b, at + 30) == 0 && Le16(b, at + 32) == 0 && Le16(b, at + 34) == 0
  {
    var front: seq<Byte> := [0x50, 0x4b, 1, 2, 20, 0, 20, 0, 0, 0, 0, 0, 0, 0, 0, 0];
    var gap: seq<Byte> := [0, 0, 0, 0, 0, 0, 0, 0, 0, 0, 0, 0];
    LongStands(b, at, front, 0);
    ShortStands(b, at, front, 6);
    ShortStands(b, at, front, 8);
    ShortStands(b, at, front, 10);
    ShortStands(b, at + 30, gap, 0);
    ShortStands(b, at + 30, gap, 2);
    ShortStands(b, at + 30, gap, 4);
  }

  lemma EndFields(b: seq<Byte>, at: nat, count: nat, size: nat, offset: nat)
    requires StandsAt(b, at, EndRecord(count, size, offset)) && count < 0x1_0000 && size < 0x1_0000_0000 && offset < 0x1_0000_0000
    ensures Le32(b, at) == 0x06054b50 && Le16(b, at + 4) == 0 && Le16(b, at + 6) == 0 && Le16(b, at + 20) == 0
    ensures Le16(b, at + 8) == count && Le16(b, at + 10) == count
    ensures Le32(b, at + 12) == size && Le32(b, at + 16) == offset
  {
    var front: seq<Byte> := [0x50, 0x4b, 5, 6, 0, 0, 0, 0];
    var counts := front + U16(count) + U16(count);
    Peel(b, at, counts + U32(size) + U32(offset), [0, 0]);
    ShortStands(b, at + 20, [0, 0], 0);
    PeelLong(b, at, counts + U32(size), offset);
    PeelLong(b, at, counts, size);
    PeelShort(b, at, front + U16(count), count);
    PeelShort(b, at, front, count);
    LongStands(b, at, front, 0);
    ShortStands(b, at, front, 4);
    ShortStands(b, at, front, 6);
  }

  function EntryOf(f: File): Entry {
    Entry(f.name, f.data, Sum(f.data))
  }

  function Entries(files: seq<File>): seq<Entry> {
    seq(|files|, k requires 0 <= k < |files| => EntryOf(files[k]))
  }

  lemma LocalReads(b: seq<Byte>, at: nat, f: File)
    requires StandsAt(b, at, LocalEntry(f)) && |f.name| < 0x1_0000 && |f.data| < 0x1_0000_0000
    ensures ReadLocal(b, at, |f.data|, Sum(f.data), f.name) == Ok(f.data)
  {
    hide LocalHeader, Sum;
    Peel(b, at, LocalHeader(f) + f.name, f.data);
    Peel(b, at, LocalHeader(f), f.name);
    LocalFields(b, at, f);
  }

  lemma EntryReads(b: seq<Byte>, at: nat, f: File, offset: nat)
    requires StandsAt(b, at, CentralEntry(f, offset)) && StandsAt(b, offset, LocalEntry(f))
    requires |f.name| < 0x1_0000 && |f.data| < 0x1_0000_0000 && offset < 0x1_0000_0000
    ensures at + 46 + |f.name| <= |b| && ReadEntry(b, at) == Ok(EntryOf(f))
    ensures at + 46 + Le16(b, at + 28) + Le16(b, at + 30) + Le16(b, at + 32) == at + |CentralEntry(f, offset)|
  {
    Peel(b, at, CentralHeader(f, offset), f.name);
    CentralNumbers(b, at, f, offset);
    CentralConstants(b, at);
    LocalReads(b, offset, f);
  }

  lemma PrefixStands(b: seq<Byte>, at: nat, x: seq<Byte>, y: seq<Byte>, z: seq<Byte>)
    requires StandsAt(b, at, z) && x + y <= z
    ensures StandsAt(b, at + |x|, y)
  {
    assert z == x + y + z[|x + y|..];
    Peel(b, at, x + y, z[|x + y|..]);
    Peel(b, at, x, y);
  }

  lemma EntryStands(b: seq<Byte>, files: seq<File>, k: nat)
    requires k < |files| && StandsAt(b, 0, Locals(files)) && StandsAt(b, |Locals(files)|, Centrals(files))
    ensures StandsAt(b, |Locals(files[..k])|, LocalEntry(files[k]))
    ensures StandsAt(b, |Locals(files)| + |Centrals(files[..k])|, CentralEntry(files[k], |Locals(files[..k])|))
  {
    hide LocalEntry, CentralEntry;
    EntriesGrow(files, k);
    PartsArePrefixes(files, k + 1);
    PrefixStands(b, 0, Locals(files[..k]), LocalEntry(files[k]), Locals(files));
    PrefixStands(b, |Locals(files)|, Centrals(files[..k]), CentralEntry(files[k], |Locals(files[..k])|), Centrals(files));
  }

  lemma EntryFits(files: seq<File>, k: nat)
    requires k < |files| && Fits(files)
    ensures |files[k].name| < 0x1_0000 && |files[k].data| < 0x1_0000_0000 && |Locals(files[..k])| < 0x1_0000_0000
  {
    EntriesGrow(files, k);
    PartsArePrefixes(files, k + 1);
  }

  lemma DirectoryStep(b: seq<Byte>, at: nat, count: nat, entry: Entry, next: nat, rest: seq<Entry>)
    requires count > 0 && at + 46 <= |b| && ReadEntry(b, at) == Ok(entry)
    requires next == at + 46 + Le16(b, at + 28) + Le16(b, at + 30) + Le16(b, at + 32)
    requires ReadDirectory(b, next, count - 1) == Ok(rest)
    ensures ReadDirectory(b, at, count) == Ok([entry] + rest)
  {
  }

  lemma DirectoryEntry(b: seq<Byte>, at: nat, f: File, offset: nat, count: nat, rest: seq<Entry>)
    requires StandsAt(b, at, CentralEntry(f, offset)) && StandsAt(b, offset, LocalEntry(f))
    requires |f.name| < 0x1_0000 && |f.data| < 0x1_0000_0000 && offset < 0x1_0000_0000
    requires ReadDirectory(b, at + |CentralEntry(f, offset)|, count) == Ok(rest)
    ensures ReadDirectory(b, at, count + 1) == Ok([EntryOf(f)] + rest)
  {
    hide StandsAt, LocalEntry, CentralEntry, ReadEntry, ReadDirectory;
    EntryReads(b, at, f, offset);
    DirectoryStep(b, at, count + 1, EntryOf(f), at + |CentralEntry(f, offset)|, rest);
  }

  lemma EntriesHead(files: seq<File>, k: nat)
    requires k < |files|
    ensures Entries(files[k..]) == [EntryOf(files[k])] + Entries(files[k + 1..])
  {
  }

  lemma NothingLeft(b: seq<Byte>, at: nat, files: seq<File>)
    ensures ReadDirectory(b, at, 0) == Ok(Entries(files[|files|..]))
  {
    assert files[|files|..] == [] && Entries([]) == [];
  }

  lemma {:induction false} DirectoryReads(b: seq<Byte>, files: seq<File>, k: nat)
    requires k <= |files| && Fits(files)
    requires StandsAt(b, 0, Locals(files)) && StandsAt(b, |Locals(files)|, Centrals(files))
    ensures ReadDirectory(b, |Locals(files)| + |Centrals(files[..k])|, |files| - k) == Ok(Entries(files[k..]))
    decreases |files| - k
  {
    hide *;
    if k == |files| {
      NothingLeft(b, |Locals(files)| + |Centrals(files[..k])|, files);
    } else {
      DirectoryReads(b, files, k + 1);
      EntriesGrow(files, k);
      EntryStands(b, files, k);
      EntryFits(files, k);
      DirectoryEntry(b, |Locals(files)| + |Centrals(files[..k])|, files[k], |Locals(files[..k])|, |files| - k - 1,
                     Entries(files[k + 1..]));
      EntriesHead(files, k);
    }
  }

  lemma ThreePartsStand(x: seq<Byte>, y: seq<Byte>, z: seq<Byte>)
    ensures StandsAt(x + y + z, 0, x) && StandsAt(x + y + z, |x|, y) && StandsAt(x + y + z, |x| + |y|, z)
  {
    Peel(x + y + z, 0, x + y, z);
    Peel(x + y + z, 0, x, y);
  }

  lemma EndReads(b: seq<Byte>, count: nat, size: nat, offset: nat)
    requires |b| == offset + size + 22 && StandsAt(b, offset + size, EndRecord(count, size, offset))
    requires count < 0x1_0000 && size < 0x1_0000_0000 && offset < 0x1_0000_0000
    ensures ReadEnd(b) == Ok((offset, count))
  {
    EndFields(b, offset + size, count, size, offset);
  }

  /** Reading a written archive recovers every name, its contents and its checksum, in order. */
  lemma ZipRoundTrip(files: seq<File>)
    requires Fits(files)
    ensures ReadZip(ZipBytes(files)) == Ok(Entries(files))
  {
    hide EndRecord, StandsAt, ReadEnd, ReadDirectory, Sum;
    var end := EndRecord(|files|, |Centrals(files)|, |Locals(files)|);
    ThreePartsStand(Locals(files), Centrals(files), end);
    EndReads(ZipBytes(files), |files|, |Centrals(files)|, |Locals(files)|);
    DirectoryReads(ZipBytes(files), files, 0);
    assert files[..0] == [] && files[0..] == files;
  }

  /** No two packages share an archive. */
  lemma ZipInjective(a: seq<File>, b: seq<File>)
    requires Fits(a) && Fits(b) && ZipBytes(a) == ZipBytes(b)
    ensures a == b
  {
    ZipRoundTrip(a);
    ZipRoundTrip(b);
    assert Entries(a) == Entries(b) && |a| == |b|;
    forall k | 0 <= k < |a|
      ensures a[k] == b[k]
    {
      assert Entries(a)[k] == EntryOf(a[k]) && Entries(b)[k] == EntryOf(b[k]);
    }
  }
}
