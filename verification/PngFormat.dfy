/** PNG files as sequences of chunks and rows: what the decoder makes of them, and how they are encoded. */
module PngFormat {
  import opened Bytes
  import opened PngFilter
  import opened Inflate

  const SIGNATURE: seq<byte> := [137, 80, 78, 71, 13, 10, 26, 10]
  const IHDR: seq<byte> := [0x49, 0x48, 0x44, 0x52]
  const IDAT: seq<byte> := [0x49, 0x44, 0x41, 0x54]
  const IEND: seq<byte> := [0x49, 0x45, 0x4E, 0x44]

  function Be32(v: u32): (b: seq<byte>)
    ensures |b| == 4
  {
    var q1 := v / 0x100;
    var q2 := q1 / 0x100;
    [q2 / 0x100, q2 % 0x100, q1 % 0x100, v % 0x100]
  }

  function RdBe32(b: seq<byte>, off: nat): u32
    requires off + 4 <= |b|
  {
    0x100_0000 * (b[off] as int) + 0x1_0000 * (b[off + 1] as int) + 0x100 * (b[off + 2] as int) + (b[off + 3] as int)
  }

  lemma Be32RoundTrip(b: seq<byte>, off: nat, v: u32)
    requires off + 4 <= |b| && b[off..off + 4] == Be32(v)
    ensures RdBe32(b, off) == v
  {
    var w := b[off..off + 4];
    assert w[0] == b[off] && w[1] == b[off + 1] && w[2] == b[off + 2] && w[3] == b[off + 3];
  }

  // ---- Chunks ----

  datatype Header = Header(w: u32, h: u32, depth: byte, color: byte, interlace: byte)

  /** `Wrapped` stands for inputs on which a 32-bit sum or product of the C code wraps around. */
  datatype Parsed = BadFile | Wrapped | Parsed(hdr: Header, idat: seq<byte>)

  function ReadHeader(d: seq<byte>): Header
    requires |d| >= 13
  {
    Header(RdBe32(d, 0), RdBe32(d, 4), d[8], d[9], d[12])
  }

  function ParseFrom(data: seq<byte>, pos: nat, hdr: Header, idat: seq<byte>): Parsed
    decreases |data| - pos
  {
    if pos + 8 > |data| then Parsed(hdr, idat)
    else
      var n := RdBe32(data, pos);
      var next := pos + 8 + n + 4;
      if next >= 0x1_0000_0000 then Wrapped
      else if next > |data| then BadFile
      else
        var ty, body := data[pos + 4..pos + 8], data[pos + 8..pos + 8 + n];
        if ty == IHDR then
          if n < 13 then BadFile else ParseFrom(data, next, ReadHeader(body), idat)
        else if ty == IDAT then ParseFrom(data, next, hdr, idat + body)
        else if ty == IEND then Parsed(hdr, idat)
        else ParseFrom(data, next, hdr, idat)
  }

  const NoHeader: Header := Header(0, 0, 0, 0, 0)

  function ParseSpec(data: seq<byte>): Parsed {
    if |data| < 8 || data[..8] != SIGNATURE then BadFile else ParseFrom(data, 8, NoHeader, [])
  }

  // ---- Pixels ----

  /** Bytes of a row. */
  function Stride(w: nat, bpp: nat): nat { w * bpp }

  /** Bytes of `h` filtered rows. */
  function RawSize(h: nat, stride: nat): nat { h * (1 + stride) }

  function Samples(color: byte): nat { if color == 6 then 4 else 3 }

  /** The first `n` pixels of a row as RGBA; RGB rows get alpha 255. */
  function RgbaRow(row: seq<byte>, bpp: nat, n: nat): seq<byte>
    requires (bpp == 3 || bpp == 4) && Stride(n, bpp) <= |row|
  {
    if n == 0 then []
    else
      var i := Stride(n - 1, bpp);
      RgbaRow(row, bpp, n - 1) + [row[i], row[i + 1], row[i + 2], if bpp == 4 then row[i + 3] else 255]
  }

  /** The pixels of the `h` filtered rows at the front of `raw`, below the row `prev`. */
  function DecodeRows(raw: seq<byte>, prev: seq<byte>, bpp: nat, w: nat, h: nat): seq<byte>
    requires (bpp == 3 || bpp == 4) && |prev| == Stride(w, bpp) && RawSize(h, Stride(w, bpp)) <= |raw|
    decreases h
  {
    if h == 0 then []
    else
      RowFits(Stride(w, bpp), h, |raw|);
      var row := Unfilter(raw[0], raw[1..1 + Stride(w, bpp)], prev, bpp, Stride(w, bpp));
      RgbaRow(row, bpp, w) + DecodeRows(raw[1 + Stride(w, bpp)..], row, bpp, w, h - 1)
  }

  lemma RowFits(stride: nat, h: nat, n: nat)
    requires h > 0 && RawSize(h, stride) <= n
    ensures 1 + stride <= n && RawSize(h - 1, stride) <= n - (1 + stride)
    ensures RawSize(h, stride) == RawSize(h - 1, stride) + (1 + stride)
  {
    assert h * (1 + stride) == (h - 1) * (1 + stride) + (1 + stride);
    assert (h - 1) * (1 + stride) >= 0;
  }

  // ---- Decoding ----

  datatype Decoded = Rejected | OutOfRange | Image(w: nat, h: nat, rgba: seq<byte>)

  predicate HeaderOk(hdr: Header) {
    hdr.w != 0 && hdr.h != 0 && hdr.depth == 8 && (hdr.color == 2 || hdr.color == 6) && hdr.interlace == 0
  }

  function DecodeRaw(hdr: Header, raw: seq<byte>): Decoded
    requires HeaderOk(hdr)
  {
    var bpp := Samples(hdr.color);
    var stride := Stride(hdr.w, bpp);
    var need := RawSize(hdr.h, stride);
    if stride >= 0x1_0000_0000 || need >= 0x1_0000_0000 then OutOfRange
    else if |raw| < need then Rejected
    else Image(hdr.w, hdr.h, DecodeRows(raw, Zeros(stride), bpp, hdr.w, hdr.h))
  }

  function DecodeSpec(data: seq<byte>): Decoded {
    match ParseSpec(data)
    case BadFile => Rejected
    case Wrapped => OutOfRange
    case Parsed(hdr, idat) =>
      if !HeaderOk(hdr) || idat == [] then Rejected
      else
        match InflateSpec(idat)
        case Failed => Rejected
        case Bytes(raw) => DecodeRaw(hdr, raw)
  }

  // ---- Encoding ----

  /** An 8-bit RGB or RGBA picture, row by row. */
  datatype Picture = Picture(w: u32, h: u32, alpha: bool, rows: seq<seq<byte>>) {
    function Bpp(): nat { if alpha then 4 else 3 }

    predicate Ok() {
      w > 0 && h > 0 && |rows| == h && forall r :: r in rows ==> |r| == Stride(w, Bpp())
    }
  }

  function RgbaRows(rows: seq<seq<byte>>, bpp: nat, w: nat): seq<byte>
    requires (bpp == 3 || bpp == 4) && forall r :: r in rows ==> |r| == Stride(w, bpp)
  {
    if rows == [] then [] else RgbaRow(rows[0], bpp, w) + RgbaRows(rows[1..], bpp, w)
  }

  /** Rows filtered with one of the filters 0 to 4 each, chosen freely. */
  function EncRows(rows: seq<seq<byte>>, filters: seq<byte>, prev: seq<byte>, bpp: nat): seq<byte>
    requires |filters| == |rows| && forall r :: r in rows ==> |r| == |prev|
    decreases |rows|
  {
    if rows == [] then []
    else [filters[0]] + Filter(filters[0], rows[0], prev, bpp) + EncRows(rows[1..], filters[1..], rows[0], bpp)
  }

  lemma {:induction false} EncRowsSize(rows: seq<seq<byte>>, filters: seq<byte>, prev: seq<byte>, bpp: nat)
    requires |filters| == |rows| && forall r :: r in rows ==> |r| == |prev|
    ensures |EncRows(rows, filters, prev, bpp)| == RawSize(|rows|, |prev|)
    decreases |rows|
  {
    if rows != [] {
      EncRowsSize(rows[1..], filters[1..], rows[0], bpp);
      assert |rows| * (1 + |prev|) == (|rows| - 1) * (1 + |prev|) + (1 + |prev|);
    }
  }

  /** Whatever the filter of each row, decoding the filtered rows gives their pixels. */
  lemma {:induction false} DecodeRowsInverts(rows: seq<seq<byte>>, filters: seq<byte>, prev: seq<byte>,
                                             bpp: nat, w: nat, extra: seq<byte>)
    requires (bpp == 3 || bpp == 4) && |prev| == Stride(w, bpp)
    requires |filters| == |rows| && forall r :: r in rows ==> |r| == |prev|
    ensures RawSize(|rows|, Stride(w, bpp)) <= |EncRows(rows, filters, prev, bpp) + extra|
    ensures DecodeRows(EncRows(rows, filters, prev, bpp) + extra, prev, bpp, w, |rows|) == RgbaRows(rows, bpp, w)
    decreases |rows|
  {
    hide Filter, Unfilter, RgbaRow, DecodeRows;
    EncRowsSize(rows, filters, prev, bpp);
    if rows != [] {
      var f, row := filters[0], rows[0];
      var rest := EncRows(rows[1..], filters[1..], row, bpp) + extra;
      var raw := EncRows(rows, filters, prev, bpp) + extra;
      assert row in rows;
      assert raw == [f] + Filter(f, row, prev, bpp) + rest;
      RowFits(Stride(w, bpp), |rows|, |raw|);
      DecodeOneRow(f, row, prev, rest, bpp, w, |rows|);
      DecodeRowsInverts(rows[1..], filters[1..], row, bpp, w, extra);
    } else {
      NoRows(EncRows(rows, filters, prev, bpp) + extra, prev, bpp, w);
    }
  }

  lemma NoRows(raw: seq<byte>, prev: seq<byte>, bpp: nat, w: nat)
    requires (bpp == 3 || bpp == 4) && |prev| == Stride(w, bpp)
    ensures DecodeRows(raw, prev, bpp, w, 0) == []
  {
  }

  lemma DecodeOneRow(f: byte, row: seq<byte>, prev: seq<byte>, rest: seq<byte>, bpp: nat, w: nat, h: nat)
    requires (bpp == 3 || bpp == 4) && |row| == |prev| == Stride(w, bpp) && h > 0 && RawSize(h - 1, Stride(w, bpp)) <= |rest|
    ensures RawSize(h, Stride(w, bpp)) <= |[f] + Filter(f, row, prev, bpp) + rest|
    ensures DecodeRows([f] + Filter(f, row, prev, bpp) + rest, prev, bpp, w, h) ==
      RgbaRow(row, bpp, w) + DecodeRows(rest, row, bpp, w, h - 1)
  {
    hide Filter, Unfilter, RgbaRow;
    var stride, raw := Stride(w, bpp), [f] + Filter(f, row, prev, bpp) + rest;
    assert h * (1 + stride) == (h - 1) * (1 + stride) + (1 + stride);
    assert raw[1..1 + stride] == Filter(f, row, prev, bpp) && raw[1 + stride..] == rest;
    UnfilterInverts(f, row, prev, bpp, stride);
    assert row[..stride] == row;
  }

  datatype Chunk = Chunk(ty: seq<byte>, body: seq<byte>, crc: seq<byte>)

  predicate ChunkOk(c: Chunk) {
    |c.ty| == 4 && |c.crc| == 4 && |c.body| < 0x1_0000_0000
  }

  function EncChunk(c: Chunk): (r: seq<byte>)
    requires ChunkOk(c)
    ensures |r| == |c.body| + 12
  {
    Be32(|c.body|) + c.ty + c.body + c.crc
  }

  function EncChunks(cs: seq<Chunk>): seq<byte>
    requires forall c :: c in cs ==> ChunkOk(c)
  {
    if cs == [] then [] else EncChunk(cs[0]) + EncChunks(cs[1..])
  }

  /** The bodies of the IDAT chunks, put together. */
  function IdatOf(cs: seq<Chunk>): seq<byte> {
    if cs == [] then []
    else (if cs[0].ty == IDAT then cs[0].body else []) + IdatOf(cs[1..])
  }

  /** Chunks between the header and the end: image data and anything else, in any order. */
  predicate MiddleOk(cs: seq<Chunk>) {
    forall c :: c in cs ==> ChunkOk(c) && c.ty != IHDR && c.ty != IEND
  }

  lemma FourParts(data: seq<byte>, pos: nat, a: seq<byte>, b: seq<byte>, c: seq<byte>, d: seq<byte>)
    requires var n := |a| + |b| + |c| + |d|; pos + n <= |data| && data[pos..pos + n] == a + b + c + d
    ensures var i, j := pos + |a|, pos + |a| + |b|;
      data[pos..i] == a && data[i..j] == b && data[j..j + |c|] == c
  {
    assert a + b + c + d == a + (b + (c + d));
    SplitAt(data, pos, a, b + (c + d));
    SplitAt(data, pos + |a|, b, c + d);
    SplitAt(data, pos + |a| + |b|, c, d);
  }

  /** The length, type and body of a chunk, as read back. */
  lemma ChunkParts(data: seq<byte>, pos: nat, c: Chunk)
    requires ChunkOk(c) && |data| < 0x1_0000_0000
    requires pos + |EncChunk(c)| <= |data| && data[pos..pos + |EncChunk(c)|] == EncChunk(c)
    ensures var n := |c.body|;
      && |EncChunk(c)| == 12 + n && RdBe32(data, pos) == n
      && data[pos + 4..pos + 8] == c.ty && data[pos + 8..pos + 8 + n] == c.body
  {
    hide Be32, RdBe32;
    var n := |c.body|;
    FourParts(data, pos, Be32(n), c.ty, c.body, c.crc);
    Be32RoundTrip(data, pos, n);
  }

  lemma ParseChunk(data: seq<byte>, pos: nat, hdr: Header, idat: seq<byte>, c: Chunk)
    requires ChunkOk(c) && |data| < 0x1_0000_0000
    requires pos + |EncChunk(c)| <= |data| && data[pos..pos + |EncChunk(c)|] == EncChunk(c)
    ensures var next := pos + |EncChunk(c)|;
      ParseFrom(data, pos, hdr, idat) ==
        if c.ty == IHDR then
          if |c.body| < 13 then BadFile else ParseFrom(data, next, ReadHeader(c.body), idat)
        else if c.ty == IDAT then ParseFrom(data, next, hdr, idat + c.body)
        else if c.ty == IEND then Parsed(hdr, idat)
        else ParseFrom(data, next, hdr, idat)
  {
    hide ReadHeader, RdBe32, EncChunk;
    ChunkParts(data, pos, c);
  }

  /** Image data is collected across any interleaving with other chunks. */
  lemma {:induction false} ParseMiddle(data: seq<byte>, pos: nat, hdr: Header, idat: seq<byte>,
                                       cs: seq<Chunk>, end: Chunk)
    requires MiddleOk(cs) && ChunkOk(end) && end.ty == IEND && |data| < 0x1_0000_0000
    requires var e := EncChunks(cs) + EncChunk(end);
      pos + |e| <= |data| && data[pos..pos + |e|] == e
    ensures ParseFrom(data, pos, hdr, idat) == Parsed(hdr, idat + IdatOf(cs))
    decreases |cs|
  {
    hide EncChunk, ParseFrom;
    if cs == [] {
      assert EncChunks(cs) + EncChunk(end) == EncChunk(end);
      ParseChunk(data, pos, hdr, idat, end);
      assert idat + IdatOf(cs) == idat;
    } else {
      var c, rest := cs[0], EncChunks(cs[1..]) + EncChunk(end);
      assert c in cs;
      assert EncChunks(cs) + EncChunk(end) == EncChunk(c) + rest;
      SplitAt(data, pos, EncChunk(c), rest);
      ParseChunk(data, pos, hdr, idat, c);
      var idat' := if c.ty == IDAT then idat + c.body else idat;
      ParseMiddle(data, pos + |EncChunk(c)|, hdr, idat', cs[1..], end);
      assert idat' + IdatOf(cs[1..]) == idat + IdatOf(cs);
    }
  }

  /** The IHDR body of a picture. */
  function HeaderBody(p: Picture): (b: seq<byte>)
    ensures |b| == 13
  {
    Be32(p.w) + Be32(p.h) + [8, if p.alpha then 6 else 2, 0, 0, 0]
  }

  lemma HeaderRoundTrip(p: Picture)
    ensures ReadHeader(HeaderBody(p)) == Header(p.w, p.h, 8, if p.alpha then 6 else 2, 0)
  {
    var b := HeaderBody(p);
    assert b[0..4] == Be32(p.w) && b[4..8] == Be32(p.h);
    Be32RoundTrip(b, 0, p.w);
    Be32RoundTrip(b, 4, p.h);
  }

  /** Everything an encoder is free to choose for a picture. */
  datatype Choices = Choices(filters: seq<byte>, zlibHead: seq<byte>, blocks: seq<StoredBlock>, adler: seq<byte>,
                             first: Chunk, middle: seq<Chunk>, end: Chunk, trailing: seq<byte>)

  /** The choices encode the picture: filtered rows, in stored blocks, in IDAT chunks. */
  predicate Encodes(c: Choices, p: Picture) {
    && p.Ok() && |c.filters| == |p.rows| && (forall f :: f in c.filters ==> f <= 4)
    && c.blocks != [] && (forall b :: b in c.blocks ==> BlockOk(b))
    && DataOf(c.blocks) == EncRows(p.rows, c.filters, Zeros(Stride(p.w, p.Bpp())), p.Bpp())
    && |c.zlibHead| == 2
    && ChunkOk(c.first) && c.first.ty == IHDR && c.first.body == HeaderBody(p)
    && MiddleOk(c.middle) && IdatOf(c.middle) == c.zlibHead + EncBlocks(c.blocks) + c.adler
    && ChunkOk(c.end) && c.end.ty == IEND
  }

  function FileOf(c: Choices): seq<byte>
    requires ChunkOk(c.first) && ChunkOk(c.end) && MiddleOk(c.middle)
  {
    SIGNATURE + EncChunk(c.first) + EncChunks(c.middle) + EncChunk(c.end) + c.trailing
  }

  lemma ParseFile(c: Choices, p: Picture)
    requires Encodes(c, p) && |FileOf(c)| < 0x1_0000_0000
    ensures ParseSpec(FileOf(c)) == Parsed(ReadHeader(HeaderBody(p)), IdatOf(c.middle))
  {
    hide EncChunk, ParseFrom, ReadHeader, HeaderBody, EncChunks, IdatOf, EncRows, EncBlocks;
    var data := FileOf(c);
    var e1, e2 := EncChunk(c.first), EncChunks(c.middle) + EncChunk(c.end);
    assert data == SIGNATURE + (e1 + e2) + c.trailing;
    assert data[..8] == SIGNATURE;
    assert data[8..8 + |e1 + e2|] == e1 + e2;
    SplitAt(data, 8, e1, e2);
    ParseChunk(data, 8, NoHeader, [], c.first);
    ParseMiddle(data, 8 + |e1|, ReadHeader(HeaderBody(p)), [], c.middle, c.end);
  }

  lemma {:induction false} EncBlocksSize(bs: seq<StoredBlock>)
    requires forall b :: b in bs ==> BlockOk(b)
    ensures |DataOf(bs)| <= |EncBlocks(bs)|
  {
    if bs != [] {
      EncBlocksSize(bs[1..]);
    }
  }

  lemma {:induction false} IdatSize(cs: seq<Chunk>)
    requires forall c :: c in cs ==> ChunkOk(c)
    ensures |IdatOf(cs)| <= |EncChunks(cs)|
  {
    if cs != [] {
      IdatSize(cs[1..]);
    }
  }

  /**
   * Round trip: for every picture, every filter per row, every split into stored blocks and every
   * split into IDAT chunks among other chunks, decoding gives the picture's pixels.
   */
  lemma DecodeInvertsEncoding(c: Choices, p: Picture)
    requires Encodes(c, p) && |FileOf(c)| <= 0x8000_0000
    ensures DecodeSpec(FileOf(c)) == Image(p.w, p.h, RgbaRows(p.rows, p.Bpp(), p.w))
  {
    hide EncChunk, ParseFrom, HeaderBody, EncChunks, EncRows, EncBlocks, ReadHeader, InflateSpec, DecodeRaw, ParseSpec;
    hide FileOf;
    ParseFile(c, p);
    HeaderRoundTrip(p);
    InflateIdat(c, p);
    EncBlocksSize(c.blocks);
    IdatSize(c.middle);
    FileSize(c);
    DecodePicture(c.filters, p, |FileOf(c)|);
  }

  lemma FileSize(c: Choices)
    requires ChunkOk(c.first) && ChunkOk(c.end) && MiddleOk(c.middle)
    ensures |EncChunks(c.middle)| <= |FileOf(c)|
  {
    hide EncChunks, EncChunk;
  }

  lemma InflateIdat(c: Choices, p: Picture)
    requires Encodes(c, p)
    ensures InflateSpec(IdatOf(c.middle)) == Bytes(DataOf(c.blocks)) && IdatOf(c.middle) != []
    ensures |EncBlocks(c.blocks)| <= |IdatOf(c.middle)|
  {
    hide InflateFrom, EncBlocks, DataOf, IdatOf, EncRows, HeaderBody;
    var z := IdatOf(c.middle);
    assert z[2..2 + |EncBlocks(c.blocks)|] == EncBlocks(c.blocks);
    InflateInverts(z, 2, c.blocks);
  }

  lemma DecodePicture(filters: seq<byte>, p: Picture, size: nat)
    requires p.Ok() && |filters| == |p.rows| && size < 0x1_0000_0000
    requires |EncRows(p.rows, filters, Zeros(Stride(p.w, p.Bpp())), p.Bpp())| <= size
    ensures DecodeRaw(Header(p.w, p.h, 8, if p.alpha then 6 else 2, 0),
                      EncRows(p.rows, filters, Zeros(Stride(p.w, p.Bpp())), p.Bpp())) ==
      Image(p.w, p.h, RgbaRows(p.rows, p.Bpp(), p.w))
  {
    hide EncRows, DecodeRows, RgbaRows;
    var bpp := p.Bpp();
    var stride := Stride(p.w, bpp);
    var raw := EncRows(p.rows, filters, Zeros(stride), bpp);
    EncRowsSize(p.rows, filters, Zeros(stride), bpp);
    StrideBound(p.h, stride, |raw|);
    assert raw + [] == raw;
    DecodeRowsInverts(p.rows, filters, Zeros(stride), bpp, p.w, []);
  }

  lemma StrideBound(h: nat, stride: nat, n: nat)
    requires h > 0 && n == RawSize(h, stride) && n < 0x1_0000_0000
    ensures stride < 0x1_0000_0000
  {
    RowFits(stride, h, n);
  }

  // ---- The file byte by byte ----

  /** Four bytes, most significant first. */
  predicate BigEndian(b: seq<byte>, v: nat) {
    |b| == 4 && v == 0x100_0000 * b[0] as int + 0x1_0000 * b[1] as int + 0x100 * b[2] as int + b[3] as int
  }

  lemma WordIsBigEndian(v: u32)
    ensures BigEndian(Be32(v), v)
  {
    var b := Be32(v);
    assert b[0..4] == b;
    Be32RoundTrip(b, 0, v);
  }

  /** A chunk: its length, its type, its body, and four bytes more. */
  lemma ChunkBytes(c: Chunk)
    requires ChunkOk(c)
    ensures var e, n := EncChunk(c), |c.body|;
      && |e| == n + 12 && BigEndian(e[..4], n) && e[4..8] == c.ty && e[8..8 + n] == c.body && e[8 + n..] == c.crc
  {
    hide Be32, BigEndian;
    var e, n := EncChunk(c), |c.body|;
    WordIsBigEndian(n);
    assert e[..4] == Be32(n);
  }

  /** The IHDR body: width, height, depth 8, colour type 2 or 6, and zeros. */
  lemma HeaderBytes(p: Picture)
    ensures var h := HeaderBody(p);
      BigEndian(h[..4], p.w) && BigEndian(h[4..8], p.h) && h[8..] == [8, if p.alpha then 6 else 2, 0, 0, 0]
  {
    hide Be32, BigEndian;
    var h := HeaderBody(p);
    WordIsBigEndian(p.w);
    WordIsBigEndian(p.h);
    assert h[..4] == Be32(p.w) && h[4..8] == Be32(p.h);
  }

  lemma Window(f: seq<byte>, a: nat, b: nat, i: nat, j: nat)
    requires a <= b <= |f| && i <= j <= b - a
    ensures f[a..b][i..j] == f[a + i..a + j]
  {
    forall k | 0 <= k < j - i
      ensures f[a..b][i..j][k] == f[a + i..a + j][k]
    {
    }
  }

  /** Signature, IHDR chunk, then the other chunks. */
  lemma FileHead(c: Choices, p: Picture)
    requires Encodes(c, p)
    ensures var f := FileOf(c);
      && |f| >= 33 && f[..8] == [0x89, 0x50, 0x4E, 0x47, 0x0D, 0x0A, 0x1A, 0x0A]
      && BigEndian(f[8..12], 13) && f[12..16] == [0x49, 0x48, 0x44, 0x52]
      && BigEndian(f[16..20], p.w) && BigEndian(f[20..24], p.h)
      && f[24..29] == [8, if p.alpha then 6 else 2, 0, 0, 0]
      && f[33..] == EncChunks(c.middle) + EncChunk(c.end) + c.trailing
  {
    hide BigEndian, EncChunks, EncChunk, HeaderBody, EncRows, EncBlocks, IdatOf, DataOf, Stride;
    var f, e, h := FileOf(c), EncChunk(c.first), HeaderBody(p);
    var rest := EncChunks(c.middle) + EncChunk(c.end) + c.trailing;
    ChunkBytes(c.first);
    HeaderBytes(p);
    assert f == SIGNATURE + e + rest;
    assert f[8..33] == e;
    Window(f, 8, 33, 0, 4);
    Window(f, 8, 33, 4, 8);
    Window(f, 8, 33, 8, 21);
    Window(f, 16, 29, 0, 4);
    Window(f, 16, 29, 4, 8);
    Window(f, 16, 29, 8, 13);
  }

  // ---- Every picture has an encoding ----

  function Split(raw: seq<byte>): seq<StoredBlock>
    decreases |raw|
  {
    if |raw| <= 0xFFFF then [StoredBlock(0, raw)]
    else [StoredBlock(0, raw[..0xFFFF])] + Split(raw[0xFFFF..])
  }

  lemma {:induction false} SplitKeeps(raw: seq<byte>)
    ensures Split(raw) != [] && (forall b :: b in Split(raw) ==> BlockOk(b)) && DataOf(Split(raw)) == raw
    decreases |raw|
  {
    if |raw| <= 0xFFFF {
      assert Split(raw)[1..] == [];
    } else {
      SplitKeeps(raw[0xFFFF..]);
      assert Split(raw)[1..] == Split(raw[0xFFFF..]);
      assert raw == raw[..0xFFFF] + raw[0xFFFF..];
    }
  }

  /** The image data of a picture with the given filters, in the fewest blocks. */
  function PlainData(p: Picture, filters: seq<byte>): seq<byte>
    requires p.Ok() && |filters| == |p.rows|
  {
    var raw := EncRows(p.rows, filters, Zeros(Stride(p.w, p.Bpp())), p.Bpp());
    SplitKeeps(raw);
    [0x78, 0x01] + EncBlocks(Split(raw)) + Zeros(4)
  }

  /** ... in one IDAT chunk between header and end. */
  function Plain(p: Picture, filters: seq<byte>): Choices
    requires p.Ok() && |filters| == |p.rows|
  {
    var raw := EncRows(p.rows, filters, Zeros(Stride(p.w, p.Bpp())), p.Bpp());
    Choices(filters, [0x78, 0x01], Split(raw), Zeros(4), Chunk(IHDR, HeaderBody(p), Zeros(4)),
            [Chunk(IDAT, PlainData(p, filters), Zeros(4))], Chunk(IEND, [], Zeros(4)), [])
  }

  /** Every picture can be encoded, with any choice of filters, as long as one chunk can hold it. */
  lemma EveryPictureEncodes(p: Picture, filters: seq<byte>)
    requires p.Ok() && |filters| == |p.rows| && forall f :: f in filters ==> f <= 4
    requires |PlainData(p, filters)| < 0x1_0000_0000
    ensures Encodes(Plain(p, filters), p)
  {
    hide EncRows, EncBlocks, Split, DataOf, HeaderBody, Stride;
    var raw := EncRows(p.rows, filters, Zeros(Stride(p.w, p.Bpp())), p.Bpp());
    SplitKeeps(raw);
    var c := Chunk(IDAT, PlainData(p, filters), Zeros(4));
    assert [c][1..] == [];
    assert IdatOf([c][1..]) == [];
    assert IdatOf([c]) == PlainData(p, filters);
  }

  // ---- Pixel by pixel ----

  lemma {:induction false} RgbaRowAt(row: seq<byte>, bpp: nat, n: nat, x: nat, c: nat)
    requires (bpp == 3 || bpp == 4) && Stride(n, bpp) <= |row| && x < n && c < 4
    ensures |RgbaRow(row, bpp, n)| == 4 * n && 0 <= Stride(x, bpp) && Stride(x, bpp) + bpp <= |row|
    ensures RgbaRow(row, bpp, n)[4 * x + c] == if c < bpp then row[Stride(x, bpp) + c] else 255
  {
    if x < n - 1 {
      RgbaRowAt(row, bpp, n - 1, x, c);
    } else if n > 1 {
      RgbaRowAt(row, bpp, n - 1, 0, 0);
    }
  }

  /** Sample `c` of pixel (`x`, `y`) of a decoded picture is the original sample, or 255 for missing alpha. */
  lemma {:induction false} DecodedSample(rows: seq<seq<byte>>, bpp: nat, w: nat, y: nat, x: nat, c: nat)
    requires (bpp == 3 || bpp == 4) && forall r :: r in rows ==> |r| == Stride(w, bpp)
    requires y < |rows| && x < w && c < 4
    ensures var i := 4 * (Stride(y, w) + x) + c;
      && 0 <= i < |RgbaRows(rows, bpp, w)| && 0 <= Stride(x, bpp) && Stride(x, bpp) + bpp <= |rows[y]|
      && RgbaRows(rows, bpp, w)[i] == if c < bpp then rows[y][Stride(x, bpp) + c] else 255
    decreases |rows|
  {
    hide RgbaRow;
    assert rows[0] in rows;
    RgbaRowAt(rows[0], bpp, w, x, c);
    if y > 0 {
      DecodedSample(rows[1..], bpp, w, y - 1, x, c);
      assert Stride(y, w) == Stride(y - 1, w) + w;
    }
  }
}
