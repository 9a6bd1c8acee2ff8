/** `png_decode_rgba` as it runs, over growing buffers and two row buffers that change places. */
module Png {
  import opened Bytes
  import opened PngFilter
  import opened Inflate
  import opened PngFormat

  /** Collects the header fields and the IDAT bytes, chunk by chunk. */
  method ParseChunks(data: seq<byte>) returns (status: Parsed, idat: array<byte>, len: nat)
    requires |data| <= 0x8000_0000 && |data| >= 8
    ensures status.Parsed? ==> len <= idat.Length && len <= |data| && status.idat == idat[..len]
    ensures status == ParseFrom(data, 8, NoHeader, [])
  {
    hide ParseFrom, RdBe32;
    var pos := 8;
    var hdr := NoHeader;
    idat := new byte[0];
    len := 0;
    while pos + 8 <= |data|
      invariant 8 <= pos <= |data| && len <= idat.Length && len <= pos && fresh(idat)
      invariant ParseFrom(data, 8, NoHeader, []) == ParseFrom(data, pos, hdr, idat[..len])
      decreases |data| - pos
    {
      ParseStep(data, pos, hdr, idat[..len]);
      var clen := RdBe32(data, pos);
      var ctype := data[pos + 4..pos + 8];
      var start := pos + 8;
      if start + clen + 4 >= 0x1_0000_0000 {
        return Wrapped, idat, len;
      }
      if start + clen + 4 > |data| {
        return BadFile, idat, len;
      }
      if ctype == IHDR {
        if clen < 13 {
          return BadFile, idat, len;
        }
        hdr := ReadHeader(data[start..start + clen]);
      } else if ctype == IDAT {
        idat := AppendIdat(idat, len, data, start, clen);
        len := len + clen;
      } else if ctype == IEND {
        return Parsed(hdr, idat[..len]), idat, len;
      }
      pos := start + clen + 4;
    }
    ParseStep(data, pos, hdr, idat[..len]);
    status := Parsed(hdr, idat[..len]);
  }

  /** Appends one IDAT body to the bytes collected so far. */
  method AppendIdat(idat: array<byte>, len: nat, data: seq<byte>, start: nat, clen: nat) returns (nb: array<byte>)
    requires len <= idat.Length && start + clen <= |data| && len + clen <= 0x8000_0000
    modifies idat
    ensures len + clen <= nb.Length && (nb == idat || fresh(nb))
    ensures nb[..len + clen] == old(idat[..len]) + data[start..start + clen]
  {
    nb := Grow(idat, len, len + clen);
    for i := 0 to clen
      invariant nb[..len] == old(idat[..len])
      invariant forall k :: len <= k < len + i ==> nb[k] == data[start + (k - len)]
    {
      nb[len + i] := data[start + i];
    }
  }

  lemma ParseStep(data: seq<byte>, pos: nat, hdr: Header, idat: seq<byte>)
    ensures ParseFrom(data, pos, hdr, idat) ==
      if pos + 8 > |data| then Parsed(hdr, idat)
      else
        var n := RdBe32(data, pos);
        var next := pos + 8 + n + 4;
        if next >= 0x1_0000_0000 then Wrapped
        else if next > |data| then BadFile
        else
          var ty, body := data[pos + 4..pos + 8], data[pos + 8..pos + 8 + n];
          if ty == IHDR then
            if n < 13 then BadFile else ParseFrom(data, next, ReadHeader(body), idat)
          else if ty == IDAT then ParseFrom(data, next, hdr, idat + body)
          else if ty == IEND then Parsed(hdr, idat)
          else ParseFrom(data, next, hdr, idat)
  {
  }

  /** Writes the pixels of one row as RGBA from index `at` on. */
  method ExpandRow(cur: array<byte>, bpp: nat, w: nat, pixels: array<byte>, at: nat)
    requires (bpp == 3 || bpp == 4) && cur.Length == Stride(w, bpp) && at + 4 * w <= pixels.Length && cur != pixels
    modifies pixels
    ensures pixels[..at + 4 * w] == old(pixels[..at]) + RgbaRow(cur[..], bpp, w)
  {
    hide RgbaRow;
    RgbaRowSize(cur[..], bpp, 0);
    EmptyRow(cur[..], bpp);
    for x := 0 to w
      invariant Stride(x, bpp) <= cur.Length && |RgbaRow(cur[..], bpp, x)| == 4 * x
      invariant pixels[..at + 4 * x] == old(pixels[..at]) + RgbaRow(cur[..], bpp, x)
    {
      NextPixel(cur[..], bpp, w, x);
      WritePixel(cur, Stride(x, bpp), bpp, pixels, at + 4 * x);
    }
  }

  method WritePixel(cur: array<byte>, si: nat, bpp: nat, pixels: array<byte>, di: nat)
    requires si + bpp <= cur.Length && (bpp == 3 || bpp == 4) && di + 4 <= pixels.Length && cur != pixels
    modifies pixels
    ensures pixels[..di + 4] == old(pixels[..di]) +
      [cur[si], cur[si + 1], cur[si + 2], if bpp == 4 then cur[si + 3] else 255]
  {
    pixels[di] := cur[si];
    pixels[di + 1] := cur[si + 1];
    pixels[di + 2] := cur[si + 2];
    pixels[di + 3] := if bpp == 4 then cur[si + 3] else 255;
  }

  lemma EmptyRow(row: seq<byte>, bpp: nat)
    requires bpp == 3 || bpp == 4
    ensures RgbaRow(row, bpp, 0) == []
  {
  }

  lemma {:induction false} RgbaRowSize(row: seq<byte>, bpp: nat, n: nat)
    requires (bpp == 3 || bpp == 4) && Stride(n, bpp) <= |row|
    ensures |RgbaRow(row, bpp, n)| == 4 * n
  {
    if n > 0 {
      RgbaRowSize(row, bpp, n - 1);
    }
  }

  lemma NextPixel(row: seq<byte>, bpp: nat, w: nat, x: nat)
    requires (bpp == 3 || bpp == 4) && |row| == Stride(w, bpp) && x < w
    ensures Stride(x, bpp) + bpp <= |row| && Stride(x + 1, bpp) <= |row|
    ensures var i := Stride(x, bpp);
      RgbaRow(row, bpp, x + 1) ==
      RgbaRow(row, bpp, x) + [row[i], row[i + 1], row[i + 2], if bpp == 4 then row[i + 3] else 255]
    ensures |RgbaRow(row, bpp, x + 1)| == 4 * (x + 1)
  {
    RgbaRowSize(row, bpp, x + 1);
  }

  /** One row: unfilters it below `prev` into `cur`, then expands it from `pat` on. */
  method DecodeRow(raw: array<byte>, at: nat, bpp: nat, w: nat, prev: array<byte>, cur: array<byte>,
                   pixels: array<byte>, pat: nat)
    requires (bpp == 3 || bpp == 4) && prev.Length == cur.Length == Stride(w, bpp)
    requires at + 1 + Stride(w, bpp) <= raw.Length && pat + 4 * w <= pixels.Length
    requires cur != prev && cur != raw && cur != pixels && pixels != raw && pixels != prev
    modifies cur, pixels
    ensures cur[..] == Unfilter(raw[at], raw[at + 1..at + 1 + Stride(w, bpp)], prev[..], bpp, Stride(w, bpp))
    ensures pixels[..pat + 4 * w] == old(pixels[..pat]) + RgbaRow(cur[..], bpp, w)
  {
    hide RgbaRow, Unfilter;
    var stride := Stride(w, bpp);
    var filter := raw[at];
    var src := raw[at + 1..at + 1 + stride];
    UnfilterScanline(cur, src, stride, bpp, prev, filter);
    assert cur[..] == cur[..stride];
    ExpandRow(cur, bpp, w, pixels, pat);
  }

  /** The row loop, with the two row buffers changing places. */
  method DecodeImage(raw: array<byte>, len: nat, w: nat, h: nat, bpp: nat) returns (pixels: array<byte>)
    requires (bpp == 3 || bpp == 4) && RawSize(h, Stride(w, bpp)) <= len <= raw.Length
    ensures pixels.Length == Stride(h, w) * 4 && fresh(pixels)
    ensures pixels[..] == DecodeRows(raw[..len], Zeros(Stride(w, bpp)), bpp, w, h)
  {
    hide DecodeRows, RgbaRow, Unfilter, Stride, RawSize;
    var stride := Stride(w, bpp);
    RowIndex(w, h, 0, stride, len);
    RowIndex(w, h, h, stride, len);
    pixels := new byte[Stride(h, w) * 4](_ => 0);
    var prev := new byte[stride](_ => 0);
    var cur := new byte[stride](_ => 0);
    assert prev[..] == Zeros(stride);
    ghost var bytes := raw[..len];
    ghost var all := DecodeRows(bytes, Zeros(stride), bpp, w, h);
    ghost var rest := bytes;
    for y := 0 to h
      invariant prev != cur && prev != pixels && cur != pixels && fresh(prev) && fresh(cur) && prev.Length == stride == cur.Length
      invariant raw[..len] == bytes
      invariant 0 <= Stride(y, w) * 4 <= pixels.Length && 0 <= RawSize(y, stride) <= len
      invariant rest == bytes[RawSize(y, stride)..] && RawSize(h - y, stride) <= |rest|
      invariant all == pixels[..Stride(y, w) * 4] + DecodeRows(rest, prev[..], bpp, w, h - y)
    {
      RowIndex(w, h, y + 1, stride, len);
      ghost var above, done := prev[..], pixels[..Stride(y, w) * 4];
      RowBytes(bytes, rest, RawSize(y, stride), stride);
      DecodeRowsStep(done, rest, above, bpp, w, h - y);
      DecodeRow(raw, RawSize(y, stride), bpp, w, prev, cur, pixels, Stride(y, w) * 4);
      assert raw[RawSize(y, stride)] == rest[0];
      assert raw[RawSize(y, stride) + 1..RawSize(y, stride) + 1 + stride] == rest[1..1 + stride];
      rest := rest[1 + stride..];
      assert pixels[..Stride(y + 1, w) * 4] == done + RgbaRow(cur[..], bpp, w);
      prev, cur := cur, prev;
    }
    DecodeNoRows(rest, prev[..], bpp, w);
    assert pixels[..Stride(h, w) * 4] == pixels[..];
  }

  lemma RowBytes(bytes: seq<byte>, rest: seq<byte>, at: nat, stride: nat)
    requires at + 1 + stride <= |bytes| && rest == bytes[at..]
    ensures rest[0] == bytes[at] && rest[1..1 + stride] == bytes[at + 1..at + 1 + stride]
    ensures rest[1 + stride..] == bytes[at + 1 + stride..]
  {
  }

  lemma RowIndex(w: nat, h: nat, y: nat, stride: nat, len: nat)
    requires y <= h && RawSize(h, stride) <= len
    ensures 0 <= Stride(y, w) * 4 <= Stride(h, w) * 4 && 0 <= RawSize(y, stride) <= len
    ensures RawSize(h - y, stride) <= len - RawSize(y, stride)
    ensures y > 0 ==> Stride(y, w) * 4 == Stride(y - 1, w) * 4 + 4 * w && RawSize(y, stride) == RawSize(y - 1, stride) + 1 + stride
    ensures y == 0 ==> Stride(y, w) == 0 && RawSize(y, stride) == 0
    ensures y == h ==> Stride(y, w) * 4 == Stride(h, w) * 4
  {
    assert h * (1 + stride) == y * (1 + stride) + (h - y) * (1 + stride);
    assert (h - y) * (1 + stride) >= 0;
    assert h * w == y * w + (h - y) * w;
    assert (h - y) * w >= 0;
    if y > 0 {
      assert y * w == (y - 1) * w + w;
      assert y * (1 + stride) == (y - 1) * (1 + stride) + (1 + stride);
    }
  }

  lemma DecodeRowsStep(done: seq<byte>, raw: seq<byte>, prev: seq<byte>, bpp: nat, w: nat, h: nat)
    requires (bpp == 3 || bpp == 4) && |prev| == Stride(w, bpp) && h > 0 && RawSize(h, Stride(w, bpp)) <= |raw|
    ensures 1 + Stride(w, bpp) <= |raw| && RawSize(h - 1, Stride(w, bpp)) <= |raw| - (1 + Stride(w, bpp))
    ensures var row := Unfilter(raw[0], raw[1..1 + Stride(w, bpp)], prev, bpp, Stride(w, bpp));
      done + DecodeRows(raw, prev, bpp, w, h) ==
      (done + RgbaRow(row, bpp, w)) + DecodeRows(raw[1 + Stride(w, bpp)..], row, bpp, w, h - 1)
  {
    hide Stride, RawSize, RgbaRow, Unfilter;
    RowFits(Stride(w, bpp), h, |raw|);
  }

  lemma DecodeNoRows(raw: seq<byte>, prev: seq<byte>, bpp: nat, w: nat)
    requires (bpp == 3 || bpp == 4) && |prev| == Stride(w, bpp)
    ensures DecodeRows(raw, prev, bpp, w, 0) == []
  {
  }

  /** `png_decode_rgba`, with the pixels of a decoded image in `pixels`. */
  method PngDecodeRgba(data: seq<byte>) returns (outcome: Decoded, pixels: array<byte>)
    requires |data| <= 0x8000_0000
    ensures outcome == DecodeSpec(data)
    ensures outcome.Image? ==> pixels[..] == outcome.rgba
  {
    hide ParseFrom, InflateSpec, DecodeRows;
    pixels := new byte[0];
    if |data| < 8 || data[..8] != SIGNATURE {
      return Rejected, pixels;
    }
    var status, idat, idatLen := ParseChunks(data);
    if status.BadFile? {
      return Rejected, pixels;
    }
    if status.Wrapped? {
      return OutOfRange, pixels;
    }
    var hdr := status.hdr;
    if hdr.w == 0 || hdr.h == 0 {
      return Rejected, pixels;
    }
    if hdr.depth != 8 {
      return Rejected, pixels;
    }
    if !(hdr.color == 2 || hdr.color == 6) {
      return Rejected, pixels;
    }
    if hdr.interlace != 0 {
      return Rejected, pixels;
    }
    if idatLen == 0 {
      return Rejected, pixels;
    }
    var ok, raw, rawLen := ZlibInflate(idat[..idatLen]);
    if !ok {
      return Rejected, pixels;
    }
    var bpp := if hdr.color == 6 then 4 else 3;
    var stride := Stride(hdr.w, bpp);
    var needed := RawSize(hdr.h, stride);
    if stride >= 0x1_0000_0000 || needed >= 0x1_0000_0000 {
      return OutOfRange, pixels;
    }
    if rawLen < needed {
      return Rejected, pixels;
    }
    pixels := DecodeImage(raw, rawLen, hdr.w, hdr.h, bpp);
    outcome := Image(hdr.w, hdr.h, pixels[..]);
  }
}
