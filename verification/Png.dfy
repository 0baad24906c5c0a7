/** The PNG writer of scripts/generate-executive-card-downloads.ts: chunk framing and pixel layout
    (sections 3 and 4.1 of RFC 2083). Compression is a given function. */
module Png {
  import opened Wrappers
  import Crc32
  import opened Zip

  datatype Rgba = Rgba(red: Byte, green: Byte, blue: Byte, alpha: Byte)

  // ---------------------------------------------------------------- big-endian numbers

  function U32BE(v: nat): (r: seq<Byte>)
    ensures |r| == 4
  {
    [v / 0x100_0000 % 256, v / 0x1_0000 % 256, v / 256 % 256, v % 256]
  }

  function Be32(b: seq<Byte>, at: nat): nat
    requires at + 4 <= |b|
  {
    0x100_0000 * (b[at] as int) + 0x1_0000 * (b[at + 1] as int) + 256 * (b[at + 2] as int) + (b[at + 3] as int)
  }

  lemma Digits(v: nat)
    requires v < 0x1_0000_0000
    ensures v == 0x100_0000 * (v / 0x100_0000 % 256) + 0x1_0000 * (v / 0x1_0000 % 256) + 256 * (v / 256 % 256) + v % 256
  {
    var a, b := v / 256, v / 256 / 256;
    assert v / 0x1_0000 == b && v / 0x100_0000 == b / 256;
    assert v == 256 * a + v % 256 && a == 256 * b + a % 256 && b == 256 * (b / 256) + b % 256;
  }

  lemma Be32Reads(b: seq<Byte>, at: nat, v: nat)
    requires StandsAt(b, at, U32BE(v)) && v < 0x1_0000_0000
    ensures Be32(b, at) == v
  {
    hide StandsAt;
    ByteStands(b, at, U32BE(v), 0);
    ByteStands(b, at, U32BE(v), 1);
    ByteStands(b, at, U32BE(v), 2);
    ByteStands(b, at, U32BE(v), 3);
    assert StandsAt(b, at, U32BE(v));
    Digits(v);
    StandsInside(b, at, U32BE(v));
  }

  lemma StandsInside(b: seq<Byte>, at: nat, x: seq<Byte>)
    requires StandsAt(b, at, x)
    ensures at + |x| <= |b|
  {
  }

  /** `writeUInt32BE`. */
  method WriteUInt32BE(buffer: array<Byte>, value: int, offset: nat) returns (ok: bool)
    requires offset + 4 <= buffer.Length
    modifies buffer
    ensures ok <==> 0 <= value < 0x1_0000_0000
    ensures ok ==> buffer[..] == old(buffer[..offset]) + U32BE(value) + old(buffer[offset + 4..])
    ensures !ok ==> buffer[..] == old(buffer[..])
  {
    ok := 0 <= value < 0x1_0000_0000;
    if ok {
      buffer[offset] := value / 0x100_0000 % 256;
      buffer[offset + 1] := value / 0x1_0000 % 256;
      buffer[offset + 2] := value / 256 % 256;
      buffer[offset + 3] := value % 256;
    }
  }

  // ---------------------------------------------------------------- chunks

  datatype Chunk = Chunk(kind: seq<Byte>, data: seq<Byte>)

  function ChunkBytes(c: Chunk): seq<Byte> {
    U32BE(|c.data|) + c.kind + c.data + U32BE(Sum(c.kind + c.data))
  }

  function ChunksBytes(chunks: seq<Chunk>): seq<Byte>
    decreases |chunks|
  {
    if chunks == [] then [] else ChunkBytes(chunks[0]) + ChunksBytes(chunks[1..])
  }

  predicate ChunkFits(c: Chunk) {
    |c.kind| == 4 && |c.data| < 0x1_0000_0000
  }

  /** `pngChunk`. */
  method PngChunk(kind: seq<Byte>, data: seq<Byte>, table: seq<Crc32.Word>) returns (r: Result<seq<Byte>, RangeError>)
    requires Crc32.IsCrcTable(table) && |kind| == 4
    ensures r == if |data| < 0x1_0000_0000 then Ok(ChunkBytes(Chunk(kind, data))) else Err(RangeError)
  {
    hide Crc32.Checksum, Crc32.IsCrcTable, Crc32.Value, U32BE;
    var length := new Byte[4](_ => 0);
    var checksum := new Byte[4](_ => 0);
    var fits := WriteUInt32BE(length, |data|, 0);
    if !fits {
      return Err(RangeError);
    }
    var crc := Crc32.Crc32(table, AsBits(kind + data));
    var ok := WriteUInt32BE(checksum, Crc32.Value(crc), 0);
    assert length[..] == U32BE(|data|) && checksum[..] == U32BE(Sum(kind + data));
    r := Ok(length[..] + kind + data + checksum[..]);
  }

  datatype PngError = BadSignature | Truncated | BadCrc

  function ReadChunk(b: seq<Byte>, at: nat): Result<Chunk, PngError> {
    if at + 12 > |b| || at + 12 + Be32(b, at) > |b| then Err(Truncated)
    else
      var kind, data := b[at + 4..at + 8], b[at + 8..at + 8 + Be32(b, at)];
      if Be32(b, at + 8 + |data|) != Sum(kind + data) then Err(BadCrc) else Ok(Chunk(kind, data))
  }

  function ReadChunks(b: seq<Byte>, at: nat): Result<seq<Chunk>, PngError>
    decreases |b| - at
  {
    if at >= |b| then Ok([])
    else
      match ReadChunk(b, at)
      case Err(e) => Err(e)
      case Ok(chunk) =>
        match ReadChunks(b, at + 12 + |chunk.data|)
        case Err(e) => Err(e)
        case Ok(rest) => Ok([chunk] + rest)
  }

  const SIGNATURE: seq<Byte> := [0x89, 0x50, 0x4e, 0x47, 0x0d, 0x0a, 0x1a, 0x0a]

  function ReadPng(b: seq<Byte>): Result<seq<Chunk>, PngError> {
    if |b| < 8 || b[..8] != SIGNATURE then Err(BadSignature) else ReadChunks(b, 8)
  }

  lemma ChunkReads(b: seq<Byte>, at: nat, c: Chunk)
    requires StandsAt(b, at, ChunkBytes(c)) && ChunkFits(c)
    ensures ReadChunk(b, at) == Ok(c) && at + 12 + |c.data| <= |b|
  {
    hide Sum;
    var n, sum := |c.data|, Sum(c.kind + c.data);
    Peel(b, at, U32BE(n) + c.kind + c.data, U32BE(sum));
    Peel(b, at, U32BE(n) + c.kind, c.data);
    Peel(b, at, U32BE(n), c.kind);
    Be32Reads(b, at, n);
    Be32Reads(b, at + 8 + n, sum);
  }

  lemma {:induction false} ChunksRead(b: seq<Byte>, at: nat, chunks: seq<Chunk>)
    requires StandsAt(b, at, ChunksBytes(chunks)) && at + |ChunksBytes(chunks)| == |b|
    requires forall i :: 0 <= i < |chunks| ==> ChunkFits(chunks[i])
    ensures ReadChunks(b, at) == Ok(chunks)
    decreases |chunks|
  {
    hide ChunkBytes, ReadChunk, StandsAt;
    if chunks != [] {
      Peel(b, at, ChunkBytes(chunks[0]), ChunksBytes(chunks[1..]));
      ChunkReads(b, at, chunks[0]);
      ChunkLength(chunks[0]);
      ChunksRead(b, at + 12 + |chunks[0].data|, chunks[1..]);
      assert [chunks[0]] + chunks[1..] == chunks;
    }
  }

  lemma ChunkLength(c: Chunk)
    requires ChunkFits(c)
    ensures |ChunkBytes(c)| == 12 + |c.data|
  {
  }

  // ---------------------------------------------------------------- pixels

  function PixelBytes(p: Rgba): (r: seq<Byte>)
    ensures |r| == 4
  {
    [p.red, p.green, p.blue, p.alpha]
  }

  /** The first n pixels of a row. */
  function Pixels(paint: (nat, nat) -> Rgba, y: nat, n: nat): (r: seq<Byte>)
    ensures |r| == 4 * n
    decreases n
  {
    if n == 0 then [] else Pixels(paint, y, n - 1) + PixelBytes(paint(n - 1, y))
  }

  /** A row: filter type none, then its pixels. */
  function Row(paint: (nat, nat) -> Rgba, width: nat, y: nat): (r: seq<Byte>)
    ensures |r| == 4 * width + 1
  {
    [0] + Pixels(paint, y, width)
  }

  function Rows(paint: (nat, nat) -> Rgba, width: nat, n: nat): (r: seq<Byte>)
    ensures |r| == n * (4 * width + 1)
    decreases n
  {
    if n == 0 then []
    else
      Distribute(n - 1, 4 * width + 1);
      Rows(paint, width, n - 1) + Row(paint, width, n - 1)
  }

  lemma Distribute(n: nat, k: nat)
    ensures (n + 1) * k == n * k + k
  {
  }

  method WritePixel(raw: array<Byte>, pixelOffset: nat, pixel: Rgba)
    requires pixelOffset + 4 <= raw.Length
    modifies raw
    ensures raw[..pixelOffset + 4] == old(raw[..pixelOffset]) + PixelBytes(pixel)
  {
    raw[pixelOffset] := pixel.red;
    raw[pixelOffset + 1] := pixel.green;
    raw[pixelOffset + 2] := pixel.blue;
    raw[pixelOffset + 3] := pixel.alpha;
  }

  /** One row of the nested loops, written in place. */
  method WriteRow(raw: array<Byte>, paint: (nat, nat) -> Rgba, width: nat, y: nat, rowOffset: nat)
    requires rowOffset + 4 * width + 1 <= raw.Length
    modifies raw
    ensures raw[..rowOffset + 4 * width + 1] == old(raw[..rowOffset]) + Row(paint, width, y)
  {
    hide Pixels, PixelBytes;
    assert Pixels(paint, y, 0) == [];
    ghost var before := raw[..rowOffset];
    raw[rowOffset] := 0;
    var x := 0;
    assert raw[..rowOffset + 1] == before + [0] + Pixels(paint, y, 0);
    while x < width
      invariant 0 <= x <= width
      invariant raw[..rowOffset + 1 + 4 * x] == before + [0] + Pixels(paint, y, x)
    {
      var pixelOffset := rowOffset + 1 + x * 4;
      var pixel := paint(x, y);
      WritePixel(raw, pixelOffset, pixel);
      PixelAppended(before, paint, y, x);
      x := x + 1;
    }
    assert before + [0] + Pixels(paint, y, width) == before + Row(paint, width, y);
  }

  lemma PixelAppended(before: seq<Byte>, paint: (nat, nat) -> Rgba, y: nat, x: nat)
    ensures before + [0] + Pixels(paint, y, x) + PixelBytes(paint(x, y)) == before + [0] + Pixels(paint, y, x + 1)
  {
  }

  /** The raw image of `createPng`: nested loops over rows and pixels, in place. */
  method RawImage(width: nat, height: nat, paint: (nat, nat) -> Rgba) returns (raw: array<Byte>)
    ensures fresh(raw) && raw[..] == Rows(paint, width, height)
  {
    hide Row;
    var stride := width * 4 + 1;
    raw := new Byte[stride * height](_ => 0);
    var y, rowOffset: nat := 0, 0;
    while y < height
      invariant 0 <= y <= height && rowOffset == y * stride && raw.Length == stride * height
      invariant rowOffset <= raw.Length && raw[..rowOffset] == Rows(paint, width, y)
    {
      RowInside(y, height, stride);
      WriteRow(raw, paint, width, y, rowOffset);
      RowAppended(paint, width, y);
      Distribute(y, stride);
      y := y + 1;
      rowOffset := rowOffset + stride;
    }
    assert raw[..] == raw[..rowOffset];
  }

  lemma RowAppended(paint: (nat, nat) -> Rgba, width: nat, y: nat)
    ensures Rows(paint, width, y + 1) == Rows(paint, width, y) + Row(paint, width, y)
  {
  }

  lemma RowInside(y: nat, height: nat, stride: nat)
    requires y < height
    ensures y * stride + stride <= stride * height
  {
    Distribute(y, stride);
    assert (y + 1) * stride <= height * stride;
  }

  /** Where a row starts. */
  function RowOffset(width: nat, y: nat): nat {
    y * (4 * width + 1)
  }

  lemma RowsLength(paint: (nat, nat) -> Rgba, width: nat, n: nat)
    ensures |Rows(paint, width, n)| == RowOffset(width, n)
  {
  }

  /** Every pixel is found where the format puts it, and every row starts with filter type none. */
  lemma {:induction false} PixelInPlace(paint: (nat, nat) -> Rgba, width: nat, height: nat, x: nat, y: nat)
    requires x < width && y < height
    ensures StandsAt(Rows(paint, width, height), RowOffset(width, y) + 1 + 4 * x, PixelBytes(paint(x, y)))
    ensures StandsAt(Rows(paint, width, height), RowOffset(width, y), [0])
    decreases height
  {
    hide StandsAt, Rows, Row, PixelBytes, RowOffset;
    var before, row := Rows(paint, width, height - 1), Row(paint, width, height - 1);
    RowAppended(paint, width, height - 1);
    if y == height - 1 {
      RowsLength(paint, width, y);
      PixelInRow(paint, width, y, x);
      StandsBehind(before, row, 1 + 4 * x, PixelBytes(paint(x, y)));
      StandsBehind(before, row, 0, [0]);
    } else {
      PixelInPlace(paint, width, height - 1, x, y);
      StandsBefore(before, row, RowOffset(width, y) + 1 + 4 * x, PixelBytes(paint(x, y)));
      StandsBefore(before, row, RowOffset(width, y), [0]);
    }
  }

  /** A reader of the raw image finds the painted colour of each pixel: red, green, blue and alpha in turn. */
  lemma PixelReads(paint: (nat, nat) -> Rgba, width: nat, height: nat, x: nat, y: nat)
    requires x < width && y < height
    ensures var raw, at := Rows(paint, width, height), y * (4 * width + 1) + 1 + 4 * x;
      && at + 4 <= |raw| && raw[y * (4 * width + 1)] == 0
      && raw[at] == paint(x, y).red && raw[at + 1] == paint(x, y).green
      && raw[at + 2] == paint(x, y).blue && raw[at + 3] == paint(x, y).alpha
  {
    hide Rows;
    var raw, p := Rows(paint, width, height), PixelBytes(paint(x, y));
    PixelInPlace(paint, width, height, x, y);
    var at := RowOffset(width, y) + 1 + 4 * x;
    ByteStands(raw, at, p, 0);
    ByteStands(raw, at, p, 1);
    ByteStands(raw, at, p, 2);
    ByteStands(raw, at, p, 3);
    ByteStands(raw, RowOffset(width, y), [0], 0);
  }

  lemma StandsBehind(front: seq<Byte>, b: seq<Byte>, at: nat, x: seq<Byte>)
    requires StandsAt(b, at, x)
    ensures StandsAt(front + b, |front| + at, x)
  {
    assert (front + b)[|front| + at..|front| + at + |x|] == b[at..at + |x|];
  }

  lemma StandsBefore(b: seq<Byte>, back: seq<Byte>, at: nat, x: seq<Byte>)
    requires StandsAt(b, at, x)
    ensures StandsAt(b + back, at, x)
  {
    assert (b + back)[at..at + |x|] == b[at..at + |x|];
  }

  lemma {:induction false} PixelAmong(paint: (nat, nat) -> Rgba, y: nat, x: nat, n: nat)
    requires x < n
    ensures StandsAt(Pixels(paint, y, n), 4 * x, PixelBytes(paint(x, y)))
    decreases n
  {
    hide StandsAt, PixelBytes;
    var before, last := Pixels(paint, y, n - 1), PixelBytes(paint(n - 1, y));
    assert Pixels(paint, y, n) == before + last;
    if x == n - 1 {
      WholeStands(last);
      StandsBehind(before, last, 0, last);
    } else {
      PixelAmong(paint, y, x, n - 1);
      StandsBefore(before, last, 4 * x, PixelBytes(paint(x, y)));
    }
  }

  lemma PixelInRow(paint: (nat, nat) -> Rgba, width: nat, y: nat, x: nat)
    requires x < width
    ensures StandsAt(Row(paint, width, y), 1 + 4 * x, PixelBytes(paint(x, y)))
    ensures StandsAt(Row(paint, width, y), 0, [0])
  {
    hide StandsAt, PixelBytes;
    PixelAmong(paint, y, x, width);
    StandsBehind([0], Pixels(paint, y, width), 4 * x, PixelBytes(paint(x, y)));
    WholeStands([0]);
    StandsBefore([0], Pixels(paint, y, width), 0, [0]);
  }

  // ---------------------------------------------------------------- the file

  const IHDR: seq<Byte> := [0x49, 0x48, 0x44, 0x52]
  const IDAT: seq<Byte> := [0x49, 0x44, 0x41, 0x54]
  const IEND: seq<Byte> := [0x49, 0x45, 0x4e, 0x44]

  /** Width, height, eight bits a sample, truecolour with alpha, and the three zero methods. */
  function HeaderData(width: nat, height: nat): seq<Byte> {
    U32BE(width) + U32BE(height) + [8, 6, 0, 0, 0]
  }

  function ImageChunks(width: nat, height: nat, compressed: seq<Byte>): seq<Chunk> {
    [Chunk(IHDR, HeaderData(width, height)), Chunk(IDAT, compressed), Chunk(IEND, [])]
  }

  function PngBytes(width: nat, height: nat, compressed: seq<Byte>): seq<Byte> {
    SIGNATURE + ChunksBytes(ImageChunks(width, height, compressed))
  }

  method HeaderFor(width: nat, height: nat) returns (header: array<Byte>, ok: bool)
    ensures fresh(header) && (ok <==> width < 0x1_0000_0000 && height < 0x1_0000_0000)
    ensures ok ==> header[..] == HeaderData(width, height)
  {
    header := new Byte[13](_ => 0);
    ok := WriteUInt32BE(header, width, 0);
    if !ok { return; }
    ok := WriteUInt32BE(header, height, 4);
    if !ok { return; }
    header[8] := 8;
    header[9] := 6;
  }

  /** `createPng`. */
  method CreatePng(width: nat, height: nat, paint: (nat, nat) -> Rgba, deflate: seq<Byte> -> seq<Byte>,
          table: seq<Crc32.Word>)
    returns (r: Result<seq<Byte>, RangeError>)
    requires Crc32.IsCrcTable(table)
    ensures var compressed := deflate(Rows(paint, width, height));
      r == if width < 0x1_0000_0000 && height < 0x1_0000_0000 && |compressed| < 0x1_0000_0000
           then Ok(PngBytes(width, height, compressed)) else Err(RangeError)
  {
    hide Rows, ChunkBytes, HeaderData, Crc32.IsCrcTable;
    var header, fits := HeaderFor(width, height);
    if !fits {
      return Err(RangeError);
    }
    var raw := RawImage(width, height, paint);
    var first := PngChunk(IHDR, header[..], table);
    var compressed := deflate(raw[..]);
    var second := PngChunk(IDAT, compressed, table);
    if second.Err? {
      return Err(RangeError);
    }
    var third := PngChunk(IEND, [], table);
    HeaderLength(width, height);
    ThreeChunks(width, height, compressed);
    r := Ok(SIGNATURE + first.value + second.value + third.value);
  }

  lemma HeaderLength(width: nat, height: nat)
    ensures |HeaderData(width, height)| == 13
  {
  }

  lemma ThreeChunks(width: nat, height: nat, compressed: seq<Byte>)
    ensures PngBytes(width, height, compressed)
         == SIGNATURE + ChunkBytes(Chunk(IHDR, HeaderData(width, height))) + ChunkBytes(Chunk(IDAT, compressed))
            + ChunkBytes(Chunk(IEND, []))
  {
    hide ChunkBytes, HeaderData;
    var c := ImageChunks(width, height, compressed);
    assert c[1..] == [c[1], c[2]] && c[1..][1..] == [c[2]] && [c[2]][1..] == [];
    assert ChunksBytes([c[2]]) == ChunkBytes(c[2]) + [];
    assert ChunksBytes(c[1..]) == ChunkBytes(c[1]) + ChunksBytes([c[2]]);
  }

  /** Reading a written file gives back its size, its compressed image and nothing else, checksums verified. */
  lemma PngRoundTrip(width: nat, height: nat, compressed: seq<Byte>)
    requires width < 0x1_0000_0000 && height < 0x1_0000_0000 && |compressed| < 0x1_0000_0000
    ensures var r := ReadPng(PngBytes(width, height, compressed));
      && r.Ok? && |r.value| == 3
      && r.value[0].kind == IHDR && |r.value[0].data| == 13
      && Be32(r.value[0].data, 0) == width && Be32(r.value[0].data, 4) == height
      && r.value[0].data[8] == 8 && r.value[0].data[9] == 6
      && r.value[0].data[10] == 0 && r.value[0].data[11] == 0 && r.value[0].data[12] == 0
      && r.value[1] == Chunk(IDAT, compressed) && r.value[2] == Chunk(IEND, [])
  {
    hide ChunkBytes, ChunksBytes, ReadChunks, Be32, StandsAt, U32BE;
    var chunks := ImageChunks(width, height, compressed);
    var b := PngBytes(width, height, compressed);
    HeaderLength(width, height);
    SignatureStands(ChunksBytes(chunks));
    ChunksRead(b, 8, chunks);
    var data := HeaderData(width, height);
    WholeStands(data);
    Peel(data, 0, U32BE(width) + U32BE(height), [8, 6, 0, 0, 0]);
    Peel(data, 0, U32BE(width), U32BE(height));
    Be32Reads(data, 0, width);
    Be32Reads(data, 4, height);
    FormatBytes(data);
  }

  /** Eight bits a sample, truecolour with alpha, and the only compression, filter and interlace methods used. */
  lemma FormatBytes(data: seq<Byte>)
    requires |data| == 13 && StandsAt(data, 8, [8, 6, 0, 0, 0])
    ensures data[8] == 8 && data[9] == 6 && data[10] == 0 && data[11] == 0 && data[12] == 0
  {
    ByteStands(data, 8, [8, 6, 0, 0, 0], 0);
    ByteStands(data, 8, [8, 6, 0, 0, 0], 1);
    ByteStands(data, 8, [8, 6, 0, 0, 0], 2);
    ByteStands(data, 8, [8, 6, 0, 0, 0], 3);
    ByteStands(data, 8, [8, 6, 0, 0, 0], 4);
  }

  lemma WholeStands(b: seq<Byte>)
    ensures StandsAt(b, 0, b)
  {
  }

  lemma SignatureStands(rest: seq<Byte>)
    ensures (SIGNATURE + rest)[..8] == SIGNATURE && StandsAt(SIGNATURE + rest, 8, rest)
  {
  }
}
