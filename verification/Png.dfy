/** A PNG writer that stores its pixels uncompressed (xtask/src/png.rs), proved
    against a decoder written from the standards: RFC 2083 for the file, RFC
    1950 for the zlib stream and RFC 1951 for the stored blocks in it. */
module Png {
  import opened Text
  import opened Checksums

  type u32 = x: int | 0 <= x < 0x1_0000_0000

  datatype Rgb = Rgb(r: byte, g: byte, b: byte)

  // ---- What the writer writes ----

  /** A number as four bytes, most significant first. */
  function BigEndian(n: u32): (bytes: seq<byte>)
    ensures |bytes| == 4
  {
    [n / 0x100_0000, n / 0x1_0000 % 256, n / 256 % 256, n % 256]
  }

  function ReadBigEndian(bytes: seq<byte>): u32
    requires |bytes| == 4
  {
    TwoBytes(bytes[3], bytes[2]) + 0x1_0000 * TwoBytes(bytes[1], bytes[0])
  }

  function ByteOf(c: bv32): byte {
    ((c & 0xff) as bv8) as int
  }

  function CrcBytes(c: bv32): (bytes: seq<byte>)
    ensures |bytes| == 4
  {
    [ByteOf(c >> 24), ByteOf(c >> 16), ByteOf(c >> 8), ByteOf(c)]
  }

  /** One chunk. A length that does not fit 32 bits is cut down to them. */
  function ChunkBytes(kind: seq<byte>, payload: seq<byte>): seq<byte> {
    BigEndian(|payload| % 0x1_0000_0000) + kind + payload + CrcBytes(Crc(kind + payload))
  }

  /** The most bytes a stored block holds: its length has 16 bits. */
  const MAX := 65535

  /** A number of two bytes, given least significant first. */
  function TwoBytes(low: int, high: int): int {
    low + 256 * high
  }

  function LittleEndian16(n: int): (bytes: seq<byte>)
    requires 0 <= n < 65536
    ensures |bytes| == 2
  {
    [n % 256, n / 256]
  }

  function StoredBlock(data: seq<byte>, last: bool): seq<byte>
    requires |data| <= MAX
  {
    [if last then 1 else 0] + LittleEndian16(|data|) + LittleEndian16(MAX - |data|) + data
  }

  /** As many whole blocks as it takes, the last of them marked, and one empty
      block for no data. */
  function Blocks(data: seq<byte>): seq<byte> {
    if |data| <= MAX then StoredBlock(data, true) else StoredBlock(data[..MAX], false) + Blocks(data[MAX..])
  }

  function ZlibStored(data: seq<byte>): seq<byte> {
    [0x78, 0x01] + Blocks(data) + BigEndian(Adler(data))
  }

  /** The rest of scanline `y`, from column `x`. */
  function RowFrom(width: u32, y: u32, x: u32, paint: (u32, u32) -> Rgb): seq<byte>
    requires x <= width
    decreases width - x
  {
    if x == width then [] else [paint(x, y).r, paint(x, y).g, paint(x, y).b] + RowFrom(width, y, x + 1, paint)
  }

  /** The scanlines from `y` on, each with filter type 0 at its head. */
  function RawFrom(width: u32, height: u32, y: u32, paint: (u32, u32) -> Rgb): seq<byte>
    requires y <= height
    decreases height - y
  {
    if y == height then [] else [0] + RowFrom(width, y, 0, paint) + RawFrom(width, height, y + 1, paint)
  }

  const SIGNATURE: seq<byte> := [0x89, 0x50, 0x4e, 0x47, 0x0d, 0x0a, 0x1a, 0x0a]
  const IHDR: seq<byte> := [0x49, 0x48, 0x44, 0x52]
  const IDAT: seq<byte> := [0x49, 0x44, 0x41, 0x54]
  const IEND: seq<byte> := [0x49, 0x45, 0x4e, 0x44]
  /** 8 bits a sample, truecolour, deflate, filter method 0, not interlaced. */
  const SHAPE: seq<byte> := [8, 2, 0, 0, 0]

  function Header(width: u32, height: u32): (h: seq<byte>)
    ensures |h| == 13
  {
    BigEndian(width) + BigEndian(height) + SHAPE
  }

  function PngBytes(width: u32, height: u32, paint: (u32, u32) -> Rgb): seq<byte> {
    SIGNATURE + (ChunkBytes(IHDR, Header(width, height)) +
    (ChunkBytes(IDAT, ZlibStored(RawFrom(width, height, 0, paint))) + ChunkBytes(IEND, [])))
  }

  // ---- The writer ----

  method Chunk(out: seq<byte>, kind: seq<byte>, payload: seq<byte>) returns (grown: seq<byte>)
    ensures grown == out + ChunkBytes(kind, payload)
  {
    hide CrcFold;
    hide CrcBytes;
    hide BigEndian;
    grown := out + BigEndian(|payload| % 0x1_0000_0000);
    grown := grown + kind;
    grown := grown + payload;
    var crc := new Crc32();
    crc.Write(kind);
    crc.Write(payload);
    CrcFoldJoins(0xffff_ffff, kind, payload);
    var sum := crc.Finish();
    assert sum == Crc(kind + payload);
    grown := grown + CrcBytes(sum);
  }

  lemma BlockAppends(out: seq<byte>, block: seq<byte>, last: bool)
    requires |block| <= MAX
    ensures out + [if last then 1 else 0] + LittleEndian16(|block|) + LittleEndian16(MAX - |block|) + block ==
            out + StoredBlock(block, last)
  {
  }

  lemma NoData()
    ensures Blocks([]) == [1, 0, 0, 0xff, 0xff]
  {
  }

  lemma FirstBlock(data: seq<byte>, at: nat, to: nat)
    requires at < |data| && to == if at + MAX < |data| then at + MAX else |data|
    ensures Blocks(data[at..]) ==
            StoredBlock(data[at..to], to == |data|) + (if to == |data| then [] else Blocks(data[to..]))
  {
    var rest := data[at..];
    hide StoredBlock;
    if |rest| > MAX {
      assert rest[..MAX] == data[at..to] && rest[MAX..] == data[to..];
    } else {
      assert data[at..to] == rest;
    }
  }

  method WriteZlibStored(data: seq<byte>) returns (out: seq<byte>)
    ensures out == ZlibStored(data)
  {
    hide StoredBlock;
    hide Blocks;
    out := [0x78, 0x01];
    if data == [] {
      out := out + [1, 0, 0, 0xff, 0xff];
      NoData();
    }
    var at := 0;
    while at < |data|
      invariant 0 <= at <= |data|
      invariant at < |data| ==> out + Blocks(data[at..]) == [0x78, 0x01] + Blocks(data)
      invariant at == |data| ==> out == [0x78, 0x01] + Blocks(data)
    {
      var to := if at + MAX < |data| then at + MAX else |data|;
      var block := data[at..to];
      FirstBlock(data, at, to);
      BlockAppends(out, block, to == |data|);
      out := out + [if to == |data| then 1 else 0];
      out := out + LittleEndian16(|block|);
      out := out + LittleEndian16(MAX - |block|);
      out := out + block;
      at := to;
    }
    var sum := Adler32(data);
    out := out + BigEndian(sum);
  }

  method Draw(width: u32, height: u32, paint: (u32, u32) -> Rgb) returns (raw: seq<byte>)
    ensures raw == RawFrom(width, height, 0, paint)
  {
    raw := [];
    var y := 0;
    while y < height
      invariant 0 <= y <= height
      invariant raw + RawFrom(width, height, y, paint) == RawFrom(width, height, 0, paint)
    {
      ghost var row, more := RowFrom(width, y, 0, paint), RawFrom(width, height, y + 1, paint);
      ghost var done := raw + [0] + row;
      Joins(raw, [0] + row, more);
      Joins(raw, [0], row);
      raw := raw + [0];
      var x := 0;
      while x < width
        invariant 0 <= x <= width
        invariant raw + RowFrom(width, y, x, paint) == done
      {
        var colour := paint(x, y);
        Joins(raw, [colour.r, colour.g, colour.b], RowFrom(width, y, x + 1, paint));
        raw := raw + [colour.r, colour.g, colour.b];
        x := x + 1;
      }
      assert raw + [] == raw;
      y := y + 1;
    }
    assert raw + [] == raw;
  }

  lemma Joins(a: seq<byte>, b: seq<byte>, c: seq<byte>)
    ensures a + b + c == a + (b + c)
  {
  }

  method Encode(width: u32, height: u32, paint: (u32, u32) -> Rgb) returns (out: seq<byte>)
    ensures out == PngBytes(width, height, paint)
  {
    hide ChunkBytes;
    hide ZlibStored;
    hide RawFrom;
    var raw := Draw(width, height, paint);
    var header := BigEndian(width);
    header := header + BigEndian(height);
    header := header + SHAPE;
    out := SIGNATURE;
    out := Chunk(out, IHDR, header);
    var stream := WriteZlibStored(raw);
    out := Chunk(out, IDAT, stream);
    out := Chunk(out, IEND, []);
  }

  // ---- The decoder ----

  datatype Image = Image(width: u32, height: u32, rows: seq<seq<Rgb>>)

  datatype ChunkRead = ChunkRead(kind: seq<byte>, payload: seq<byte>, rest: seq<byte>)

  function Wide(b: byte): bv32 {
    (b as bv8) as bv32
  }

  /** A register's four bytes, most significant first, put together. */
  function ReadRegister(bytes: seq<byte>): bv32
    requires |bytes| == 4
  {
    (Wide(bytes[0]) << 24) | (Wide(bytes[1]) << 16) | (Wide(bytes[2]) << 8) | Wide(bytes[3])
  }

  lemma ByteBack(b: bv8)
    ensures (b as int) as bv8 == b
  {
  }

  lemma WideByte(c: bv32)
    ensures Wide(ByteOf(c)) == c & 0xff
  {
    ByteBack((c & 0xff) as bv8);
  }

  lemma RegisterReadsBack(c: bv32)
    ensures ReadRegister(CrcBytes(c)) == c
  {
    WideByte(c >> 24);
    WideByte(c >> 16);
    WideByte(c >> 8);
    WideByte(c);
    hide Wide, ByteOf;
  }

  /** RFC 2083 section 3.2: a length of at most 2^31-1, a kind, so many bytes,
      and the CRC of the kind and the bytes. */
  function ReadChunk(file: seq<byte>): (r: Option<ChunkRead>)
    ensures r.Some? ==> |file| == |r.value.payload| + |r.value.rest| + 12
  {
    if |file| < 12 then None else
    var length := ReadBigEndian(file[..4]);
    if length >= 0x8000_0000 || |file| < 12 + length then None else
    var kind, payload := file[4..8], file[8..8 + length];
    if ReadRegister(file[8 + length..12 + length]) != Crc(kind + payload) then None
    else Some(ChunkRead(kind, payload, file[12 + length..]))
  }

  /** RFC 1951 section 3.2.4: stored blocks up to the one marked last, each
      with its length and the length's complement. */
  function ReadBlocks(stream: seq<byte>): Option<(seq<byte>, seq<byte>)>
    decreases |stream|
  {
    if |stream| < 5 || stream[0] / 2 % 4 != 0 then None else
    var length := TwoBytes(stream[1], stream[2]);
    if stream[3] != 255 - stream[1] || stream[4] != 255 - stream[2] || |stream| < 5 + length then None else
    var data, rest := stream[5..5 + length], stream[5 + length..];
    if stream[0] % 2 == 1 then Some((data, rest))
    else match ReadBlocks(rest)
      case None => None
      case Some((more, after)) => Some((data + more, after))
  }

  /** RFC 1950 section 2.2: the header's checks, the blocks, and Adler-32. */
  function ReadZlib(stream: seq<byte>): Option<seq<byte>> {
    if |stream| < 2 || TwoBytes(stream[1], stream[0]) % 31 != 0 then None else
    if stream[0] % 16 != 8 || stream[0] / 16 > 7 || stream[1] / 32 % 2 != 0 then None else
    match ReadBlocks(stream[2..])
    case None => None
    case Some((data, check)) =>
      if |check| == 4 && ReadBigEndian(check) == Adler(data) then Some(data) else None
  }

  /** The IDAT chunks' bytes, joined, up to an empty IEND that ends the file:
      each chunk of them takes twelve bytes more, and so does the end. */
  function ReadData(file: seq<byte>): (data: Option<seq<byte>>)
    ensures data.Some? ==> |file| >= 12 && (|file| == 12 || |data.value| + 24 <= |file|) && |data.value| + 12 <= |file|
    decreases |file|
  {
    match ReadChunk(file)
    case None => None
    case Some(chunk) =>
      if chunk.kind == [73, 68, 65, 84] then Joined(chunk.payload, ReadData(chunk.rest))
      else if chunk.kind == [73, 69, 78, 68] && chunk.payload == [] && chunk.rest == [] then Some([])
      else None
  }

  function Joined(payload: seq<byte>, more: Option<seq<byte>>): Option<seq<byte>> {
    match more
    case None => None
    case Some(data) => Some(payload + data)
  }

  function Pixels(row: seq<byte>, width: nat): Option<seq<Rgb>>
    decreases width
  {
    if width == 0 then (if row == [] then Some([]) else None)
    else if |row| < 3 then None
    else match Pixels(row[3..], width - 1)
      case None => None
      case Some(more) => Some([Rgb(row[0], row[1], row[2])] + more)
  }

  /** The scanlines, all with filter type 0. */
  function Scanlines(raw: seq<byte>, width: nat, height: nat): Option<seq<seq<Rgb>>>
    decreases height
  {
    if height == 0 then (if raw == [] then Some([]) else None)
    else if |raw| < 1 + 3 * width || raw[0] != 0 then None
    else match (Pixels(raw[1..1 + 3 * width], width), Scanlines(raw[1 + 3 * width..], width, height - 1))
      case (Some(row), Some(more)) => Some([row] + more)
      case _ => None
  }

  /** RFC 2083 section 4.1.1: dimensions from 1 to 2^31-1. */
  predicate GoodSize(n: u32) {
    1 <= n < 0x8000_0000
  }

  /** RFC 2083 sections 3.1 and 4.1.1: the file's first eight bytes, and a header
      of 8 bits a sample, truecolour, deflate, filter method 0, not interlaced. */
  function Decode(file: seq<byte>): Option<Image> {
    if |file| < 8 || file[..8] != [137, 80, 78, 71, 13, 10, 26, 10] then None else
    match ReadChunk(file[8..])
    case None => None
    case Some(header) =>
      if header.kind != [73, 72, 68, 82] || |header.payload| != 13 then None else
      if header.payload[8..] != [8, 2, 0, 0, 0] then None else
      var width, height := ReadBigEndian(header.payload[..4]), ReadBigEndian(header.payload[4..8]);
      if !GoodSize(width) || !GoodSize(height) then None else
      match ReadData(header.rest)
      case None => None
      case Some(stream) =>
        match ReadZlib(stream)
        case None => None
        case Some(raw) =>
          match Scanlines(raw, width, height)
          case None => None
          case Some(rows) => Some(Image(width, height, rows))
  }

  /** The picture that was painted. */
  function Painted(width: u32, height: u32, paint: (u32, u32) -> Rgb): (image: Image)
    ensures image.width == width && image.height == height && |image.rows| == height
    ensures forall y :: 0 <= y < height ==> |image.rows[y]| == width
    ensures forall y, x :: 0 <= y < height && 0 <= x < width ==> image.rows[y][x] == paint(x, y)
  {
    Image(width, height,
      seq(height, y requires 0 <= y < height => seq(width, x requires 0 <= x < width => paint(x, y))))
  }

  // ---- Each reader undoes its writer ----

  lemma NumberReadsBack(n: u32)
    ensures ReadBigEndian(BigEndian(n)) == n
  {
    var high := n / 0x1_0000;
    assert n == high * 0x1_0000 + n % 0x1_0000;
    assert n / 0x100_0000 == high / 256;
    assert n / 256 % 256 == n % 0x1_0000 / 256 && n % 256 == n % 0x1_0000 % 256;
  }

  lemma ChunkReadsBack(kind: seq<byte>, payload: seq<byte>, rest: seq<byte>)
    requires |kind| == 4
    ensures |payload| < 0x8000_0000 ==>
              ReadChunk(ChunkBytes(kind, payload) + rest) == Some(ChunkRead(kind, payload, rest))
    ensures |payload| % 0x1_0000_0000 >= 0x8000_0000 ==> ReadChunk(ChunkBytes(kind, payload) + rest) == None
    ensures ReadChunk(ChunkBytes(kind, payload) + rest).Some? ==>
            |ReadChunk(ChunkBytes(kind, payload) + rest).value.payload| == |payload| % 0x1_0000_0000
  {
    hide Crc;
    hide CrcBytes;
    hide BigEndian;
    hide ReadBigEndian;
    hide ReadRegister;
    var file := ChunkBytes(kind, payload) + rest;
    var length := |payload| % 0x1_0000_0000;
    NumberReadsBack(length);
    assert file[..4] == BigEndian(length);
    if |payload| < 0x8000_0000 {
      assert file[4..8] == kind;
      assert file[8..8 + length] == payload;
      assert file[8 + length..12 + length] == CrcBytes(Crc(kind + payload));
      RegisterReadsBack(Crc(kind + payload));
      assert file[12 + length..] == rest;
    }
  }

  /** The bytes of a number's complement are its bytes' complements. */
  lemma Complements(n: int)
    requires 0 <= n < 65536
    ensures LittleEndian16(MAX - n)[0] == 255 - LittleEndian16(n)[0]
    ensures LittleEndian16(MAX - n)[1] == 255 - LittleEndian16(n)[1]
  {
  }

  lemma BlockParts(data: seq<byte>, last: bool, rest: seq<byte>)
    requires |data| <= MAX
    ensures var stream := StoredBlock(data, last) + rest;
            && |stream| == 5 + |data| + |rest| && stream[0] == (if last then 1 else 0)
            && stream[1] == LittleEndian16(|data|)[0] && stream[2] == LittleEndian16(|data|)[1]
            && stream[3] == LittleEndian16(MAX - |data|)[0] && stream[4] == LittleEndian16(MAX - |data|)[1]
            && stream[5..5 + |data|] == data && stream[5 + |data|..] == rest
  {
    hide LittleEndian16;
  }

  lemma LengthReads(n: int)
    requires 0 <= n < 65536
    ensures TwoBytes(LittleEndian16(n)[0], LittleEndian16(n)[1]) == n
  {
  }

  lemma BlockReadsBack(data: seq<byte>, last: bool, rest: seq<byte>)
    requires |data| <= MAX
    ensures ReadBlocks(StoredBlock(data, last) + rest) ==
            if last then Some((data, rest))
            else match ReadBlocks(rest)
              case None => None
              case Some((more, after)) => Some((data + more, after))
  {
    BlockParts(data, last, rest);
    Complements(|data|);
    LengthReads(|data|);
    hide LittleEndian16, StoredBlock, TwoBytes;
  }

  lemma {:induction false} BlocksReadBack(data: seq<byte>, rest: seq<byte>)
    ensures ReadBlocks(Blocks(data) + rest) == Some((data, rest))
    decreases |data|
  {
    hide StoredBlock;
    if |data| <= MAX {
      BlockReadsBack(data, true, rest);
    } else {
      BlocksReadBack(data[MAX..], rest);
      BlockReadsBack(data[..MAX], false, Blocks(data[MAX..]) + rest);
      assert Blocks(data) + rest == StoredBlock(data[..MAX], false) + (Blocks(data[MAX..]) + rest);
      assert data[..MAX] + data[MAX..] == data;
    }
  }

  lemma ZlibReadsBack(data: seq<byte>)
    ensures ReadZlib(ZlibStored(data)) == Some(data)
  {
    hide Adler;
    hide BigEndian;
    hide ReadBigEndian;
    hide Blocks;
    hide ReadBlocks;
    BlocksReadBack(data, BigEndian(Adler(data)));
    NumberReadsBack(Adler(data));
    assert ZlibStored(data)[2..] == Blocks(data) + BigEndian(Adler(data));
  }

  function PaintedFrom(width: u32, y: u32, x: u32, paint: (u32, u32) -> Rgb): (row: seq<Rgb>)
    requires x <= width
    ensures |row| == width - x
    ensures forall i :: 0 <= i < width - x ==> row[i] == paint(x + i, y)
  {
    seq(width - x, i requires 0 <= i < width - x => paint(x + i, y))
  }

  lemma {:induction false} RowReadsBack(width: u32, y: u32, x: u32, paint: (u32, u32) -> Rgb)
    requires x <= width
    ensures |RowFrom(width, y, x, paint)| == 3 * (width - x)
    ensures Pixels(RowFrom(width, y, x, paint), width - x) == Some(PaintedFrom(width, y, x, paint))
    decreases width - x
  {
    if x < width {
      RowReadsBack(width, y, x + 1, paint);
      var row := RowFrom(width, y, x, paint);
      assert row[3..] == RowFrom(width, y, x + 1, paint);
      assert PaintedFrom(width, y, x, paint) == [paint(x, y)] + PaintedFrom(width, y, x + 1, paint);
    }
  }

  lemma {:induction false} RowsReadBack(width: u32, height: u32, y: u32, paint: (u32, u32) -> Rgb)
    requires y <= height
    ensures Scanlines(RawFrom(width, height, y, paint), width, height - y) ==
            Some(Painted(width, height, paint).rows[y..])
    decreases height - y
  {
    if y < height {
      var raw, row := RawFrom(width, height, y, paint), RowFrom(width, y, 0, paint);
      RowsReadBack(width, height, y + 1, paint);
      RowReadsBack(width, y, 0, paint);
      assert raw[1..1 + 3 * width] == row;
      assert raw[1 + 3 * width..] == RawFrom(width, height, y + 1, paint);
      var rows := Painted(width, height, paint).rows;
      assert rows[y] == PaintedFrom(width, y, 0, paint);
      assert rows[y..] == [rows[y]] + rows[y + 1..];
      assert Scanlines(raw, width, height - y) == Some([rows[y]] + rows[y + 1..]);
    } else {
      assert Painted(width, height, paint).rows[y..] == [];
    }
  }

  // ---- Sizes ----

  /** The least a stream of stored blocks takes for so many bytes. */
  function BlocksSize(n: nat): nat {
    if n <= MAX then 5 + n else 5 + MAX + BlocksSize(n - MAX)
  }

  lemma {:induction false} BlocksTakeTheLeast(data: seq<byte>)
    ensures |Blocks(data)| == BlocksSize(|data|)
    decreases |data|
  {
    if |data| > MAX {
      BlocksTakeTheLeast(data[MAX..]);
    }
  }

  lemma {:induction false} OneMoreBlock(n: nat, m: nat)
    requires n <= MAX
    ensures BlocksSize(n + m) <= 5 + n + BlocksSize(m)
    decreases m
  {
    if m > MAX {
      OneMoreBlock(n, m - MAX);
    } else if n + m > MAX {
      assert BlocksSize(n + m - MAX) == 5 + (n + m - MAX);
    }
  }

  lemma {:induction false} BlocksReadNoLess(stream: seq<byte>)
    requires ReadBlocks(stream).Some?
    ensures |stream| >= BlocksSize(|ReadBlocks(stream).value.0|) + |ReadBlocks(stream).value.1|
    decreases |stream|
  {
    var length := TwoBytes(stream[1], stream[2]);
    if stream[0] % 2 == 0 {
      BlocksReadNoLess(stream[5 + length..]);
      OneMoreBlock(length, |ReadBlocks(stream[5 + length..]).value.0|);
    }
  }

  lemma {:induction false} ScanlinesFixTheSize(a: seq<byte>, b: seq<byte>, width: nat, height: nat)
    requires Scanlines(a, width, height).Some? && Scanlines(b, width, height).Some?
    ensures |a| == |b|
    decreases height
  {
    if height > 0 {
      ScanlinesFixTheSize(a[1 + 3 * width..], b[1 + 3 * width..], width, height - 1);
    }
  }

  // ---- The file ----

  lemma HeaderReads(width: u32, height: u32)
    ensures ReadBigEndian(Header(width, height)[..4]) == width
    ensures ReadBigEndian(Header(width, height)[4..8]) == height
    ensures Header(width, height)[8..] == SHAPE
  {
    NumberReadsBack(width);
    NumberReadsBack(height);
    assert Header(width, height)[..4] == BigEndian(width);
    assert Header(width, height)[4..8] == BigEndian(height);
  }

  /** What decoding the file comes down to, after its signature and header. */
  lemma PastTheHeader(width: u32, height: u32, body: seq<byte>)
    ensures Decode(SIGNATURE + (ChunkBytes(IHDR, Header(width, height)) + body)) ==
            if !GoodSize(width) || !GoodSize(height) then None else
            match ReadData(body)
            case None => None
            case Some(stream) =>
              match ReadZlib(stream)
              case None => None
              case Some(raw) =>
                match Scanlines(raw, width, height)
                case None => None
                case Some(rows) => Some(Image(width, height, rows))
  {
    hide ChunkBytes;
    hide Header;
    hide ReadBigEndian;
    hide ReadChunk;
    hide ReadData;
    hide ReadZlib;
    hide Scanlines;
    var file := SIGNATURE + (ChunkBytes(IHDR, Header(width, height)) + body);
    assert file[..8] == SIGNATURE;
    assert file[8..] == ChunkBytes(IHDR, Header(width, height)) + body;
    ChunkReadsBack(IHDR, Header(width, height), body);
    HeaderReads(width, height);
  }

  lemma DataReadsBack(stream: seq<byte>)
    requires |stream| < 0x8000_0000
    ensures ReadData(ChunkBytes(IDAT, stream) + ChunkBytes(IEND, [])) == Some(stream)
  {
    hide ChunkBytes;
    hide ReadChunk;
    var end := ChunkBytes(IEND, []);
    ChunkReadsBack(IEND, [], []);
    assert end + [] == end;
    ChunkReadsBack(IDAT, stream, end);
    assert ReadData(end) == Some([]);
    assert stream + [] == stream;
  }

  lemma ChunkSize(kind: seq<byte>, payload: seq<byte>)
    requires |kind| == 4
    ensures |ChunkBytes(kind, payload)| == |payload| + 12
  {
  }

  lemma StreamFixesTheSize(stream: seq<byte>, raw: seq<byte>)
    ensures ReadZlib(stream).Some? && |ReadZlib(stream).value| == |raw| ==> |stream| >= |ZlibStored(raw)|
  {
    if ReadZlib(stream).Some? {
      BlocksReadNoLess(stream[2..]);
      BlocksTakeTheLeast(raw);
    }
  }

  /** A chunk too long for its length to be written is not read as it was. */
  lemma LengthIsLost(stream: seq<byte>)
    ensures var file := ChunkBytes(IDAT, stream) + ChunkBytes(IEND, []);
            && |file| == |stream| + 24
            && (ReadChunk(file).Some? ==> |ReadChunk(file).value.payload| == |stream| % 0x1_0000_0000)
            && (|stream| % 0x1_0000_0000 >= 0x8000_0000 ==> ReadChunk(file) == None)
  {
    hide ChunkBytes, ReadChunk;
    ChunkReadsBack(IDAT, stream, ChunkBytes(IEND, []));
    ChunkSize(IDAT, stream);
    ChunkSize(IEND, []);
  }

  /** Whatever is read from a file whose first chunk lost its length, it is
      shorter than the data was. */
  lemma TooLongReadsShort(stream: seq<byte>)
    requires |stream| >= 0x8000_0000
    ensures var data := ReadData(ChunkBytes(IDAT, stream) + ChunkBytes(IEND, []));
            data.Some? ==> |data.value| < |stream|
  {
    hide ChunkBytes, ReadChunk;
    LengthIsLost(stream);
  }

  // ---- How much data there is ----

  lemma {:induction false} RowSize(width: u32, y: u32, x: u32, paint: (u32, u32) -> Rgb)
    requires x <= width
    ensures |RowFrom(width, y, x, paint)| == 3 * (width - x)
    decreases width - x
  {
    if x < width {
      RowSize(width, y, x + 1, paint);
    }
  }

  lemma {:induction false} RawSize(width: u32, height: u32, y: u32, paint: (u32, u32) -> Rgb)
    requires y <= height
    ensures |RawFrom(width, height, y, paint)| == (height - y) * (1 + 3 * width)
    decreases height - y
  {
    if y < height {
      RowSize(width, y, 0, paint);
      RawSize(width, height, y + 1, paint);
      assert (height - y) * (1 + 3 * width) == (height - (y + 1)) * (1 + 3 * width) + (1 + 3 * width);
    }
  }

  function BlockCount(n: nat): nat {
    if n == 0 then 1 else (n - 1) / MAX + 1
  }

  lemma {:induction false} BlocksSizeIs(n: nat)
    ensures BlocksSize(n) == n + 5 * BlockCount(n)
    decreases n
  {
    if n > MAX {
      BlocksSizeIs(n - MAX);
      assert (n - 1) / MAX == (n - MAX - 1) / MAX + 1;
    } else if n > 0 {
      assert (n - 1) / MAX == 0;
    }
  }

  /** How long the stream of a picture's data is: a filter byte and three bytes a
      pixel for each row, five bytes a block, and six around them. */
  function DataSize(width: u32, height: u32): nat {
    var raw := height * (1 + 3 * width);
    raw + 5 * BlockCount(raw) + 6
  }

  lemma DataSizeIs(width: u32, height: u32, paint: (u32, u32) -> Rgb)
    ensures |ZlibStored(RawFrom(width, height, 0, paint))| == DataSize(width, height)
  {
    var raw := RawFrom(width, height, 0, paint);
    RawSize(width, height, 0, paint);
    BlocksTakeTheLeast(raw);
    BlocksSizeIs(|raw|);
  }

  /** A decoder returns the picture painted, every pixel of it, if and only if
      the dimensions are ones the standard allows and the data fits the longest
      chunk it allows. */
  lemma DecodesIff(width: u32, height: u32, paint: (u32, u32) -> Rgb)
    ensures Decode(PngBytes(width, height, paint)) == Some(Painted(width, height, paint)) <==>
            && 1 <= width <= 2147483647 && 1 <= height <= 2147483647
            && DataSize(width, height) <= 2147483647
  {
    hide ChunkBytes;
    hide Header;
    hide ReadData;
    hide ReadZlib;
    hide ZlibStored;
    hide Decode;
    hide DataSize;
    var raw := RawFrom(width, height, 0, paint);
    var stream := ZlibStored(raw);
    DataSizeIs(width, height, paint);
    var body := ChunkBytes(IDAT, stream) + ChunkBytes(IEND, []);
    PastTheHeader(width, height, body);
    RowsReadBack(width, height, 0, paint);
    if |stream| < 0x8000_0000 {
      DataReadsBack(stream);
      ZlibReadsBack(raw);
    } else {
      TooLongReadsShort(stream);
      if GoodSize(width) && GoodSize(height) && ReadData(body).Some? && ReadZlib(ReadData(body).value).Some? {
        var other := ReadZlib(ReadData(body).value).value;
        if Scanlines(other, width, height).Some? {
          ScanlinesFixTheSize(other, raw, width, height);
          StreamFixesTheSize(ReadData(body).value, raw);
        }
      }
    }
  }
}
