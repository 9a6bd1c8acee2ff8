/** The five scanline filters (section 6 of RFC 2083) and their undoing. */
module PngFilter {
  import opened Bytes

  function Abs(x: int): nat { if x < 0 then -x else x }

  /** The Paeth predictor: whichever of left, up and upper left is nearest to a + b - c, in that order. */
  function Paeth(a: byte, b: byte, c: byte): byte {
    var p := a as int + b as int - c as int;
    var pa, pb, pc := Abs(p - a), Abs(p - b), Abs(p - c);
    if pa <= pb && pa <= pc then a else if pb <= pc then b else c
  }

  function Predict(f: byte, a: byte, b: byte, c: byte): byte {
    if f == 1 then a
    else if f == 2 then b
    else if f == 3 then (a as int + b as int) / 2
    else if f == 4 then Paeth(a, b, c)
    else 0
  }

  /** The byte `bpp` places before `i`, or 0. */
  function Back(row: seq<byte>, i: nat, bpp: nat): byte
    requires i <= |row|
  {
    if 0 < bpp <= i then row[i - bpp] else 0
  }

  /** Prediction of byte `i` of a row from the bytes before it and the row above. */
  function PredictAt(f: byte, before: seq<byte>, prev: seq<byte>, bpp: nat, i: nat): byte
    requires i <= |before| && i < |prev|
  {
    Predict(f, Back(before, i, bpp), prev[i], Back(prev, i, bpp))
  }

  /** What the encoder stores for a row. */
  function Filter(f: byte, row: seq<byte>, prev: seq<byte>, bpp: nat): (r: seq<byte>)
    requires |prev| == |row|
    ensures |r| == |row|
  {
    seq<byte>(|row|, i requires 0 <= i < |row| => (row[i] - PredictAt(f, row, prev, bpp, i)) % 256)
  }

  /** The first `n` bytes that the decoder rebuilds. */
  function Unfilter(f: byte, src: seq<byte>, prev: seq<byte>, bpp: nat, n: nat): (r: seq<byte>)
    requires n <= |src| && n <= |prev|
    ensures |r| == n
  {
    if n == 0 then []
    else
      var before := Unfilter(f, src, prev, bpp, n - 1);
      before + [(src[n - 1] + PredictAt(f, before, prev, bpp, n - 1)) % 256]
  }

  lemma PredictPrefix(f: byte, a: seq<byte>, b: seq<byte>, prev: seq<byte>, bpp: nat)
    requires a <= b && |a| < |prev|
    ensures PredictAt(f, a, prev, bpp, |a|) == PredictAt(f, b, prev, bpp, |a|)
  {
  }

  lemma ByteUndo(x: byte, p: byte)
    ensures ((x - p) % 256 + p) % 256 == x
  {
  }

  /** Undoing any filter of a row gives the row back, byte by byte. */
  lemma {:induction false} UnfilterInverts(f: byte, row: seq<byte>, prev: seq<byte>, bpp: nat, n: nat)
    requires |prev| == |row| && n <= |row|
    ensures Unfilter(f, Filter(f, row, prev, bpp), prev, bpp, n) == row[..n]
  {
    if n > 0 {
      UnfilterInverts(f, row, prev, bpp, n - 1);
      PredictPrefix(f, row[..n - 1], row, prev, bpp);
      ByteUndo(row[n - 1], PredictAt(f, row, prev, bpp, n - 1));
      assert row[..n] == row[..n - 1] + [row[n - 1]];
    }
  }

  // ---- The filters as section 6 of RFC 2083 states them ----

  function Distance(x: int, y: int): nat { if x < y then y - x else x - y }

  /**
   * What a stored byte and its neighbours to the left, above and above left make: the sum with the left
   * one, the upper one, their average, or whichever of the three is nearest to left + up - corner, the
   * earlier one of two that are as near; modulo 256. Any other filter leaves the byte as it is stored.
   */
  predicate Rebuilt(f: byte, x: byte, stored: byte, left: byte, up: byte, corner: byte) {
    var target := left as int + up as int - corner as int;
    var dl, du, dc := Distance(target, left), Distance(target, up), Distance(target, corner);
    && (f == 1 ==> x == (stored as int + left as int) % 256)
    && (f == 2 ==> x == (stored as int + up as int) % 256)
    && (f == 3 ==> x == (stored as int + (left as int + up as int) / 2) % 256)
    && (f == 4 && dl <= du && dl <= dc ==> x == (stored as int + left as int) % 256)
    && (f == 4 && du < dl && du <= dc ==> x == (stored as int + up as int) % 256)
    && (f == 4 && dc < dl && dc < du ==> x == (stored as int + corner as int) % 256)
    && (f == 0 || f > 4 ==> x == stored)
  }

  /** Byte `i` of a row against the stored row and the row above; what lies before the row counts as 0. */
  predicate RebuiltAt(f: byte, row: seq<byte>, src: seq<byte>, prev: seq<byte>, bpp: nat, i: nat)
    requires i < |row| && i < |src| && i < |prev|
  {
    Rebuilt(f, row[i], src[i], if i >= bpp then row[i - bpp] else 0, prev[i], if i >= bpp then prev[i - bpp] else 0)
  }

  /** The rows that the decoder rebuilds are those of the standard. */
  lemma {:induction false} UnfilterIsRebuilt(f: byte, src: seq<byte>, prev: seq<byte>, bpp: nat, n: nat, i: nat)
    requires i < n <= |src| && n <= |prev| && bpp > 0
    ensures RebuiltAt(f, Unfilter(f, src, prev, bpp, n), src, prev, bpp, i)
  {
    hide Rebuilt;
    var before := Unfilter(f, src, prev, bpp, n - 1);
    if i < n - 1 {
      UnfilterIsRebuilt(f, src, prev, bpp, n - 1, i);
    } else {
      PredictionIs(f, src[i], Back(before, i, bpp), prev[i], Back(prev, i, bpp));
    }
  }

  lemma PredictionIs(f: byte, stored: byte, left: byte, up: byte, corner: byte)
    ensures Rebuilt(f, (stored as int + Predict(f, left, up, corner) as int) % 256, stored, left, up, corner)
  {
  }

  lemma RowIsRebuilt(f: byte, row: seq<byte>, src: seq<byte>, prev: seq<byte>, bpp: nat, n: nat)
    requires n <= |row| && n <= |src| && n <= |prev| && bpp > 0 && row[..n] == Unfilter(f, src, prev, bpp, n)
    ensures forall i :: 0 <= i < n ==> RebuiltAt(f, row, src, prev, bpp, i)
  {
    hide Rebuilt, Unfilter;
    forall i | 0 <= i < n
      ensures RebuiltAt(f, row, src, prev, bpp, i)
    {
      UnfilterIsRebuilt(f, src, prev, bpp, n, i);
      assert row[..n][i] == row[i] && (i >= bpp ==> row[..n][i - bpp] == row[i - bpp]);
    }
  }

  /** So are the rows that the encoder stores. */
  lemma FilterIsStandard(f: byte, row: seq<byte>, prev: seq<byte>, bpp: nat, i: nat)
    requires i < |row| == |prev| && bpp > 0
    ensures RebuiltAt(f, row, Filter(f, row, prev, bpp), prev, bpp, i)
  {
    UnfilterInverts(f, row, prev, bpp, |row|);
    UnfilterIsRebuilt(f, Filter(f, row, prev, bpp), prev, bpp, |row|, i);
    assert row[..|row|] == row;
  }

  method UnfilterSub(dst: array<byte>, src: seq<byte>, len: nat, bpp: nat, prev: array<byte>)
    requires len <= |src| && len <= dst.Length && len <= prev.Length && dst != prev && bpp > 0
    modifies dst
    ensures dst[..len] == Unfilter(1, src, prev[..], bpp, len)
    ensures forall i :: 0 <= i < len ==> RebuiltAt(1, dst[..], src, prev[..], bpp, i)
  {
    for i := 0 to len
      invariant dst[..i] == Unfilter(1, src, prev[..], bpp, i)
    {
      var a: int := if i >= bpp then dst[i - bpp] else 0;
      dst[i] := (src[i] as int + a) % 256;
    }
    RowIsRebuilt(1, dst[..], src, prev[..], bpp, len);
  }

  method UnfilterUp(dst: array<byte>, src: seq<byte>, len: nat, bpp: nat, prev: array<byte>)
    requires len <= |src| && len <= dst.Length && len <= prev.Length && dst != prev && bpp > 0
    modifies dst
    ensures dst[..len] == Unfilter(2, src, prev[..], bpp, len)
    ensures forall i :: 0 <= i < len ==> RebuiltAt(2, dst[..], src, prev[..], bpp, i)
  {
    for i := 0 to len
      invariant dst[..i] == Unfilter(2, src, prev[..], bpp, i)
    {
      dst[i] := (src[i] as int + prev[i] as int) % 256;
    }
    RowIsRebuilt(2, dst[..], src, prev[..], bpp, len);
  }

  method UnfilterAverage(dst: array<byte>, src: seq<byte>, len: nat, bpp: nat, prev: array<byte>)
    requires len <= |src| && len <= dst.Length && len <= prev.Length && dst != prev && bpp > 0
    modifies dst
    ensures dst[..len] == Unfilter(3, src, prev[..], bpp, len)
    ensures forall i :: 0 <= i < len ==> RebuiltAt(3, dst[..], src, prev[..], bpp, i)
  {
    for i := 0 to len
      invariant dst[..i] == Unfilter(3, src, prev[..], bpp, i)
    {
      var a: int := if i >= bpp then dst[i - bpp] else 0;
      var avg := (a + prev[i] as int) / 2;
      dst[i] := (src[i] as int + avg) % 256;
    }
    RowIsRebuilt(3, dst[..], src, prev[..], bpp, len);
  }

  lemma PaethChoice(a: byte, b: byte, c: byte, pa: nat, pb: nat, pc: nat)
    requires var p := a as int + b as int - c as int; pa == Abs(p - a) && pb == Abs(p - b) && pc == Abs(p - c)
    ensures Paeth(a, b, c) == if pa <= pb && pa <= pc then a else if pb <= pc then b else c
  {
  }

  method UnfilterPaeth(dst: array<byte>, src: seq<byte>, len: nat, bpp: nat, prev: array<byte>)
    requires len <= |src| && len <= dst.Length && len <= prev.Length && dst != prev && bpp > 0
    modifies dst
    ensures dst[..len] == Unfilter(4, src, prev[..], bpp, len)
    ensures forall i :: 0 <= i < len ==> RebuiltAt(4, dst[..], src, prev[..], bpp, i)
  {
    hide Paeth;
    for i := 0 to len
      invariant dst[..i] == Unfilter(4, src, prev[..], bpp, i)
    {
      var a: int := if i >= bpp then dst[i - bpp] else 0;
      var b: int := prev[i];
      var c: int := if i >= bpp then prev[i - bpp] else 0;
      var p := a + b - c;
      var pa := p - a;
      if pa < 0 {
        pa := -pa;
      }
      var pb := p - b;
      if pb < 0 {
        pb := -pb;
      }
      var pc := p - c;
      if pc < 0 {
        pc := -pc;
      }
      var pr := if pa <= pb && pa <= pc then a else if pb <= pc then b else c;
      PaethChoice(a, b, c, pa, pb, pc);
      dst[i] := (src[i] as int + pr) % 256;
    }
    RowIsRebuilt(4, dst[..], src, prev[..], bpp, len);
  }

  /** `unfilter_scanline`: rebuilds a row in place in `dst`; an unknown filter copies. */
  method UnfilterScanline(dst: array<byte>, src: seq<byte>, len: nat, bpp: nat, prev: array<byte>, f: byte)
    requires len <= |src| && len <= dst.Length && len <= prev.Length && dst != prev && bpp > 0
    modifies dst
    ensures dst[..len] == Unfilter(f, src, prev[..], bpp, len)
    ensures forall i :: 0 <= i < len ==> RebuiltAt(f, dst[..], src, prev[..], bpp, i)
  {
    if f == 1 {
      UnfilterSub(dst, src, len, bpp, prev);
    } else if f == 2 {
      UnfilterUp(dst, src, len, bpp, prev);
    } else if f == 3 {
      UnfilterAverage(dst, src, len, bpp, prev);
    } else if f == 4 {
      UnfilterPaeth(dst, src, len, bpp, prev);
    } else {
      for i := 0 to len
        invariant dst[..i] == Unfilter(f, src, prev[..], bpp, i)
      {
        dst[i] := src[i];
      }
      RowIsRebuilt(f, dst[..], src, prev[..], bpp, len);
    }
  }
}
