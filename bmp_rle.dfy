/**
 * The run-length decoders of LoadDIB (BI_RLE8 and BI_RLE4).  A DIB coded this
 * way is always stored bottom-up: the decoder starts on the last row of the
 * pixel buffer and moves one pitch down in memory at each end-of-line code.
 *
 * A code is two bytes (n, v):
 *   - n > 0: a run of n pixels of v (RLE4: the two nibbles of v alternate);
 *   - 0, 0: end of line;  0, 1: end of bitmap;  0, 2, dx, dy: move the
 *     pixel pointer dx right and dy rows on;
 *   - 0, n >= 3: n literal pixels follow, padded to an even byte count.
 *
 * The source neither checks its reads against the input nor its writes
 * against the buffer; here a read past the input or a write outside the
 * buffer ends the decode with a Fault.
 */
module BmpRle {
  import opened Wrappers
  import opened BmpImage

  /** Bytes per pixel code: 8-bit or 4-bit. */
  datatype Coding = Rle8 | Rle4

  /** What the source would do out of bounds. */
  datatype Fault = OverRead | OverWrite

  /** Next code at src, next pixel at dest, start of the current line at line. */
  datatype Cursor = Cursor(src: int, dest: int, line: int)

  /** The high nibble for an even pixel, the low one for an odd pixel. */
  function Nibble(b: Byte, i: int): (r: Byte)
    ensures r < 16
  {
    if i % 2 == 1 then b % 16 else b / 16
  }

  /** Pixel i of a run whose value byte is v. */
  function RunValue(c: Coding, v: Byte, i: int): Byte {
    if c == Rle8 then v else Nibble(v, i)
  }

  /** Bytes a literal of n pixels occupies before its padding. */
  function LiteralBytes(c: Coding, n: nat): nat {
    if c == Rle8 then n else (n + 1) / 2
  }

  /** Pixel i of the literal whose code starts at d[s]. */
  function LiteralValue(c: Coding, d: seq<Byte>, s: int, n: int, i: int): Byte
    requires 0 <= s && 0 <= i < n && s + 2 + LiteralBytes(c, n) <= |d|
  {
    if c == Rle8 then d[s + 2 + i] else Nibble(d[s + 2 + i / 2], i)
  }

  /** `(x + 1) & ~1`: x rounded up to an even number. */
  function Even(x: nat): (r: nat)
    ensures r % 2 == 0 && x <= r <= x + 1
  {
    (x + 1) / 2 * 2
  }

  /** How far the source pointer moves past a literal's bytes: `(n + 1) & ~1`
      for RLE8, and for RLE4 the even padding of (n + 1) >> 1 bytes. */
  function LiteralAdvance(c: Coding, n: nat): nat {
    if c == Rle8 then Even(n) else Even((n + 1) / 2)
  }

  /** The RLE4 advance as written, `((n >> 1) + 1) & ~1`, which halves n
      rounding down before padding. */
  function Rle4AdvanceAsWritten(n: nat): nat {
    Even(n / 2)
  }

  /** A literal's padded length covers its bytes and keeps codes on even offsets. */
  lemma LiteralAdvancePads(c: Coding, n: nat)
    ensures LiteralBytes(c, n) <= LiteralAdvance(c, n) <= LiteralBytes(c, n) + 1
    ensures LiteralAdvance(c, n) % 2 == 0
  {
  }

  /**
   * A literal of 4k + 1 nibbles occupies 2k + 1 bytes, but the advance as
   * written skips only 2k, so for k >= 1 the decoder takes the literal's last
   * byte for the first byte of the next code.
   */
  lemma Rle4AdvanceShort(n: nat)
    requires n % 4 == 1
    ensures Rle4AdvanceAsWritten(n) + 1 == LiteralBytes(Rle4, n)
    ensures LiteralAdvance(Rle4, n) == LiteralBytes(Rle4, n) + 1
  {
  }

  /** Every other literal length gets the same advance either way. */
  lemma Rle4AdvanceAgrees(n: nat)
    requires n % 4 != 1
    ensures Rle4AdvanceAsWritten(n) == LiteralAdvance(Rle4, n)
  {
  }

  /** The advance either the corrected or the as-written decoder uses. */
  function Advance(c: Coding, n: nat, asWritten: bool): nat {
    if asWritten && c == Rle4 then Rle4AdvanceAsWritten(n) else LiteralAdvance(c, n)
  }

  /** The pixels a run of n writes. */
  function RunPixels(c: Coding, v: Byte, n: nat): (r: seq<Byte>)
    ensures |r| == n && forall i :: 0 <= i < n ==> r[i] == RunValue(c, v, i)
  {
    seq(n, i => RunValue(c, v, i))
  }

  /** The pixels a literal of n writes. */
  function LiteralPixels(c: Coding, d: seq<Byte>, s: int, n: nat): (r: seq<Byte>)
    requires 0 <= s && s + 2 + LiteralBytes(c, n) <= |d|
    ensures |r| == n && forall i :: 0 <= i < n ==> r[i] == LiteralValue(c, d, s, n, i)
  {
    seq(n, i requires 0 <= i < n => LiteralValue(c, d, s, n, i))
  }

  /** buf with seg written over it from offset p on. */
  function Put(buf: seq<Byte>, p: int, seg: seq<Byte>): (r: seq<Byte>)
    requires 0 <= p && p + |seg| <= |buf|
    ensures |r| == |buf|
  {
    buf[..p] + seg + buf[p + |seg|..]
  }

  /** Put changes exactly the bytes under seg. */
  lemma PutAt(buf: seq<Byte>, p: int, seg: seq<Byte>)
    requires 0 <= p && p + |seg| <= |buf|
    ensures forall k :: 0 <= k < |buf| ==> Put(buf, p, seg)[k] == if p <= k < p + |seg| then seg[k - p] else buf[k]
  {
  }

  /** The cursor and buffer after the code at cur.src, or the fault it causes. */
  function Step(c: Coding, d: seq<Byte>, pitch: int, cur: Cursor, buf: seq<Byte>, asWritten: bool)
    : (r: Result<(Cursor, seq<Byte>), Fault>)
    requires 0 <= cur.src && cur.src + 2 <= |d|
    ensures r.Ok? ==> r.value.0.src >= cur.src + 2 && |r.value.1| == |buf|
  {
    var s, p := cur.src, cur.dest;
    var n, v := d[s], d[s + 1];
    if n == 0 then
      if v == 0 then
        Ok((Cursor(s + 2, cur.line - pitch, cur.line - pitch), buf))
      else if v == 1 then
        Ok((Cursor(s + 2, -pitch, cur.line), buf))
      else if v == 2 then
        if s + 4 > |d| then Err(OverRead)
        else Ok((Cursor(s + 4, p + d[s + 2] - d[s + 3] * pitch, cur.line), buf))
      else if s + 2 + LiteralBytes(c, v) > |d| then Err(OverRead)
      else if p < 0 || p + v > |buf| then Err(OverWrite)
      else Ok((Cursor(s + 2 + Advance(c, v, asWritten), p + v, cur.line), Put(buf, p, LiteralPixels(c, d, s, v))))
    else if p < 0 || p + n > |buf| then Err(OverWrite)
    else Ok((Cursor(s + 2, p + n, cur.line), Put(buf, p, RunPixels(c, v, n))))
  }

  /** Codes are decoded until the pixel pointer falls below the buffer. */
  function DecodeFrom(c: Coding, d: seq<Byte>, pitch: int, cur: Cursor, buf: seq<Byte>, asWritten: bool)
    : (r: Result<seq<Byte>, Fault>)
    ensures r.Ok? ==> |r.value| == |buf|
    decreases |d| - cur.src, 1
  {
    if cur.dest < 0 then Ok(buf)
    else if cur.src < 0 || cur.src + 2 > |d| then Err(OverRead)
    else Continue(c, d, pitch, cur, buf, asWritten)
  }

  /** The code at cur.src is decoded, then decoding goes on from where it left off. */
  function Continue(c: Coding, d: seq<Byte>, pitch: int, cur: Cursor, buf: seq<Byte>, asWritten: bool)
    : (r: Result<seq<Byte>, Fault>)
    requires 0 <= cur.src && cur.src + 2 <= |d|
    ensures r.Ok? ==> |r.value| == |buf|
    decreases |d| - cur.src, 0
  {
    match Step(c, d, pitch, cur, buf, asWritten)
    case Err(e) => Err(e)
    case Ok(next) => DecodeFrom(c, d, pitch, next.0, next.1, asWritten)
  }

  /** One code decoded: the outcome is the step's fault, or decoding from where the step left off. */
  lemma DecodeFromStep(c: Coding, d: seq<Byte>, pitch: int, cur: Cursor, buf: seq<Byte>, asWritten: bool)
    requires 0 <= cur.dest && 0 <= cur.src && cur.src + 2 <= |d|
    ensures match Step(c, d, pitch, cur, buf, asWritten)
            case Err(e) => DecodeFrom(c, d, pitch, cur, buf, asWritten) == Err(e)
            case Ok(next) => DecodeFrom(c, d, pitch, cur, buf, asWritten) == DecodeFrom(c, d, pitch, next.0, next.1, asWritten)
  {
  }

  /** The cursor LoadDIB starts from: codes at off, pixels on the last row. */
  function Start(off: int, h: int, pitch: int): Cursor {
    Cursor(off, (h - 1) * pitch, (h - 1) * pitch)
  }

  /**
   * The decoding loop of LoadDIB for one coding, over the buffer `a` (h rows
   * of pitch bytes), with the RLE4 literal advance as written when asWritten
   * is set (LoadDIB's own loop) and the corrected one otherwise.
   */
  method DecodeRle(c: Coding, d: seq<Byte>, off: int, h: int, pitch: int, a: array<Byte>, asWritten: bool)
    returns (fault: Option<Fault>)
    modifies a
    ensures match DecodeFrom(c, d, pitch, Start(off, h, pitch), old(a[..]), asWritten)
            case Ok(b) => fault.None? && a[..] == b
            case Err(e) => fault == Some(e)
  {
    var src, dest, line := off, (h - 1) * pitch, (h - 1) * pitch;
    while dest >= 0
      invariant DecodeFrom(c, d, pitch, Cursor(src, dest, line), a[..], asWritten)
                == DecodeFrom(c, d, pitch, Start(off, h, pitch), old(a[..]), asWritten)
      decreases |d| - src
    {
      if src < 0 || src + 2 > |d| {
        return Some(OverRead);
      }
      ghost var before := a[..];
      DecodeFromStep(c, d, pitch, Cursor(src, dest, line), before, asWritten);
      var next := DecodeCode(c, d, pitch, Cursor(src, dest, line), a, asWritten);
      if next.Err? {
        return Some(next.error);
      }
      src, dest, line := next.value.src, next.value.dest, next.value.line;
    }
    return None;
  }

  /** One pass of the decoding loop: the code at cur.src applied to `a`. */
  method DecodeCode(c: Coding, d: seq<Byte>, pitch: int, cur: Cursor, a: array<Byte>, asWritten: bool)
    returns (r: Result<Cursor, Fault>)
    requires 0 <= cur.src && cur.src + 2 <= |d|
    modifies a
    ensures match Step(c, d, pitch, cur, old(a[..]), asWritten)
            case Ok(next) => r == Ok(next.0) && a[..] == next.1
            case Err(e) => r == Err(e)
  {
    var src, dest, line := cur.src, cur.dest, cur.line;
    var n, v := d[src], d[src + 1];
    if n == 0 {
      if v == 0 {
        line := line - pitch;
        dest := line;
      } else if v == 1 {
        dest := -pitch;
      } else if v == 2 {
        if src + 4 > |d| {
          return Err(OverRead);
        }
        dest := dest + d[src + 2] - d[src + 3] * pitch;
        src := src + 2;
      } else {
        if src + 2 + LiteralBytes(c, v) > |d| {
          return Err(OverRead);
        }
        if dest < 0 || dest + v > a.Length {
          return Err(OverWrite);
        }
        WriteLiteral(c, d, src, v, a, dest);
        dest := dest + v;
        src := src + Advance(c, v, asWritten);
      }
    } else {
      if dest < 0 || dest + n > a.Length {
        return Err(OverWrite);
      }
      WriteRun(c, v, n, a, dest);
      dest := dest + n;
    }
    src := src + 2;
    return Ok(Cursor(src, dest, line));
  }

  /** memset for RLE8, the nibble loop for RLE4: n pixels of v from a[p]. */
  method WriteRun(c: Coding, v: Byte, n: nat, a: array<Byte>, p: int)
    requires 0 <= p && p + n <= a.Length
    modifies a
    ensures a[..] == Put(old(a[..]), p, RunPixels(c, v, n))
  {
    ghost var a0 := a[..];
    for i := 0 to n
      invariant forall k :: 0 <= k < a.Length ==> a[k] == if p <= k < p + i then RunValue(c, v, k - p) else old(a[k])
    {
      a[p + i] := RunValue(c, v, i);
    }
    PutAt(a0, p, RunPixels(c, v, n));
  }

  /** memcpy for RLE8, the nibble loop for RLE4: the n literal pixels after d[s + 1]. */
  method WriteLiteral(c: Coding, d: seq<Byte>, s: int, n: nat, a: array<Byte>, p: int)
    requires 0 <= s && s + 2 + LiteralBytes(c, n) <= |d|
    requires 0 <= p && p + n <= a.Length
    modifies a
    ensures a[..] == Put(old(a[..]), p, LiteralPixels(c, d, s, n))
  {
    ghost var a0 := a[..];
    for i := 0 to n
      invariant forall k :: 0 <= k < a.Length ==> a[k] == if p <= k < p + i then LiteralValue(c, d, s, n, k - p) else old(a[k])
    {
      a[p + i] := LiteralValue(c, d, s, n, i);
    }
    PutAt(a0, p, LiteralPixels(c, d, s, n));
  }
}

module BmpRleEncode {
  import opened Wrappers
  import opened BmpImage
  import opened BmpRle

  /** The length of the run of pixels equal to row[x] from x on. */
  function SameRun(row: seq<Byte>, x: nat): (k: nat)
    requires x < |row|
    ensures 1 <= k && x + k <= |row|
    ensures forall j :: x <= j < x + k ==> row[j] == row[x]
    decreases |row| - x
  {
    if x + 1 < |row| && row[x + 1] == row[x] then 1 + SameRun(row, x + 1) else 1
  }

  /** The run a code takes from row[x] on: as long as it lasts, at most 255 pixels. */
  function RunLength(row: seq<Byte>, x: nat): (k: nat)
    requires x < |row|
    ensures 1 <= k <= 255 && x + k <= |row|
    ensures forall j :: x <= j < x + k ==> row[j] == row[x]
  {
    var n := SameRun(row, x);
    if n > 255 then 255 else n
  }

  /** Pixel values a coding can hold: any byte for RLE8, a nibble for RLE4. */
  predicate Fits(c: Coding, px: seq<Byte>) {
    c == Rle4 ==> forall i :: 0 <= i < |px| ==> px[i] < 16
  }

  /** A run of len pixels of value val. */
  datatype Run = Run(len: nat, val: Byte)

  /** Runs one code can carry. */
  predicate Codable(c: Coding, rs: seq<Run>)
    decreases |rs|
  {
    rs != [] ==> 1 <= rs[0].len <= 255 && (c == Rle4 ==> rs[0].val < 16) && Codable(c, rs[1..])
  }

  /** The pixels the runs stand for. */
  function Expand(rs: seq<Run>): seq<Byte> {
    if rs == [] then [] else seq(rs[0].len, _ => rs[0].val) + Expand(rs[1..])
  }

  /** The value byte of a run of v: v itself, or v in both nibbles. */
  function RunByte(c: Coding, v: Byte): (b: Byte)
    requires c == Rle4 ==> v < 16
    ensures forall i :: RunValue(c, b, i) == v
  {
    if c == Rle8 then v else v * 16 + v
  }

  /** One run code per run. */
  function CodesOf(c: Coding, rs: seq<Run>): (r: seq<Byte>)
    requires Codable(c, rs)
    ensures |r| == 2 * |rs|
  {
    if rs == [] then [] else [rs[0].len as Byte, RunByte(c, rs[0].val)] + CodesOf(c, rs[1..])
  }

  /** A run of k copies of row[x] followed by runs for what comes after it. */
  lemma ExpandHead(row: seq<Byte>, x: nat, k: nat, rest: seq<Run>)
    requires x + k <= |row| && 1 <= k
    requires forall j :: x <= j < x + k ==> row[j] == row[x]
    requires Expand(rest) == row[x + k..]
    ensures Expand([Run(k, row[x])] + rest) == row[x..]
  {
    assert ([Run(k, row[x])] + rest)[1..] == rest;
    assert seq(k, _ => row[x]) == row[x..x + k];
    assert row[x..x + k] + row[x + k..] == row[x..];
  }

  /** row[x..] cut into maximal runs of at most 255 pixels. */
  function RowRuns(row: seq<Byte>, x: nat): (rs: seq<Run>)
    requires x <= |row|
    ensures Expand(rs) == row[x..]
    ensures forall i :: 0 <= i < |rs| ==> 1 <= rs[i].len <= 255
    decreases |row| - x
  {
    if x == |row| then []
    else
      var k := RunLength(row, x);
      var rest := RowRuns(row, x + k);
      ExpandHead(row, x, k, rest);
      [Run(k, row[x])] + rest
  }

  /** The runs of a row whose pixels the coding can hold are codable. */
  lemma {:induction false} RowRunsCodable(c: Coding, row: seq<Byte>, x: nat)
    requires x <= |row| && Fits(c, row)
    ensures Codable(c, RowRuns(row, x))
    decreases |row| - x
  {
    if x < |row| {
      var k := RunLength(row, x);
      RowRunsCodable(c, row, x + k);
      assert ([Run(k, row[x])] + RowRuns(row, x + k))[1..] == RowRuns(row, x + k);
    }
  }

  /** Row m of a buffer whose pixels the coding can hold holds only such pixels. */
  lemma RowFits(c: Coding, px: seq<Byte>, w: int, pitch: int, m: int)
    requires 0 <= m && 0 <= w <= pitch && (m + 1) * pitch <= |px| && Fits(c, px)
    ensures Fits(c, Row(px, w, pitch, m))
  {
    var row := Row(px, w, pitch, m);
    forall i | 0 <= i < |row| ensures row[i] < 16 || c == Rle8 {
      assert row[i] == px[m * pitch + i];
    }
  }

  /** Row m of a buffer of rows of pitch bytes, w pixels wide. */
  function Row(px: seq<Byte>, w: int, pitch: int, m: int): (r: seq<Byte>)
    requires 0 <= m && 0 <= w <= pitch && (m + 1) * pitch <= |px|
    ensures |r| == w
  {
    assert (m + 1) * pitch == m * pitch + pitch;
    MulLe(0, m, pitch);
    px[m * pitch..m * pitch + w]
  }

  /** The runs of rows m, m - 1, ..., 0, in the order a bottom-up bitmap codes them. */
  function Lines(px: seq<Byte>, w: int, pitch: int, m: int): (ls: seq<seq<Run>>)
    requires 0 <= w <= pitch && -1 <= m && (m + 1) * pitch <= |px|
    ensures |ls| == m + 1
    ensures forall i :: 0 <= i < |ls| ==> |Expand(ls[i])| == w
    decreases m + 1
  {
    if m < 0 then []
    else
      MulLe(m, m + 1, pitch);
      var row := Row(px, w, pitch, m);
      assert row[0..] == row;
      [RowRuns(row, 0)] + Lines(px, w, pitch, m - 1)
  }

  /** Every line's runs can be coded. */
  predicate AllCodable(c: Coding, ls: seq<seq<Run>>)
    decreases |ls|
  {
    ls != [] ==> Codable(c, ls[0]) && AllCodable(c, ls[1..])
  }

  lemma {:induction false} LinesCodable(c: Coding, px: seq<Byte>, w: int, pitch: int, m: int)
    requires 0 <= w <= pitch && -1 <= m && (m + 1) * pitch <= |px| && Fits(c, px)
    ensures AllCodable(c, Lines(px, w, pitch, m))
    decreases m + 1
  {
    if m >= 0 {
      MulLe(m, m + 1, pitch);
      RowFits(c, px, w, pitch, m);
      RowRunsCodable(c, Row(px, w, pitch, m), 0);
      LinesCodable(c, px, w, pitch, m - 1);
      var ls := Lines(px, w, pitch, m);
      assert ls[1..] == Lines(px, w, pitch, m - 1);
    }
  }

  /** Each line's run codes closed by an end of line. */
  function LinesCodes(c: Coding, ls: seq<seq<Run>>): (r: seq<Byte>)
    requires AllCodable(c, ls)
    decreases |ls|
  {
    if ls == [] then [] else CodesOf(c, ls[0]) + [0, 0] + LinesCodes(c, ls[1..])
  }

  /** The bottom-up RLE coding of an image of h rows: its rows, then end of bitmap. */
  function Encode(c: Coding, px: seq<Byte>, w: int, h: int, pitch: int): seq<Byte>
    requires 0 <= w <= pitch && 0 <= h && |px| == h * pitch && Fits(c, px)
  {
    LinesCodable(c, px, w, pitch, h - 1);
    LinesCodes(c, Lines(px, w, pitch, h - 1)) + [0, 1]
  }

  /**
   * Lines laid one above another from base down by pitch each: each fits in
   * a buffer of n bytes, and the pointer is below the buffer after the last.
   */
  predicate Placed(ls: seq<seq<Run>>, base: int, pitch: int, n: int)
    decreases |ls|
  {
    if ls == [] then base < 0
    else 0 <= base && base + |Expand(ls[0])| <= n && Placed(ls[1..], base - pitch, pitch, n)
  }

  /** The lines painted over buf, the first from base on, each one pitch below the one before. */
  function PaintLines(buf: seq<Byte>, base: int, pitch: int, ls: seq<seq<Run>>): (r: seq<Byte>)
    requires Placed(ls, base, pitch, |buf|)
    ensures |r| == |buf|
    decreases |ls|
  {
    if ls == [] then buf else PaintLines(Put(buf, base, Expand(ls[0])), base - pitch, pitch, ls[1..])
  }

  /** The rows of an image are placed from the start of row m down. */
  lemma {:induction false} LinesPlaced(px: seq<Byte>, w: int, pitch: int, m: int, n: int)
    requires 1 <= pitch && 0 <= w <= pitch && -1 <= m && (m + 1) * pitch <= |px| == n
    ensures Placed(Lines(px, w, pitch, m), m * pitch, pitch, n)
    decreases m + 1
  {
    if m >= 0 {
      MulLe(0, m, pitch);
      MulLe(m, m + 1, pitch);
      assert (m + 1) * pitch == m * pitch + pitch;
      assert m * pitch - pitch == (m - 1) * pitch;
      LinesPlaced(px, w, pitch, m - 1, n);
      var ls := Lines(px, w, pitch, m);
      assert ls[1..] == Lines(px, w, pitch, m - 1);
    }
  }

  /** Rows m, m - 1, ..., 0 of px painted over buf, in that order. */
  function PaintRows(buf: seq<Byte>, px: seq<Byte>, w: int, pitch: int, m: int): (r: seq<Byte>)
    requires 1 <= pitch && 0 <= w <= pitch && -1 <= m && (m + 1) * pitch <= |px| == |buf|
  {
    LinesPlaced(px, w, pitch, m, |buf|);
    PaintLines(buf, m * pitch, pitch, Lines(px, w, pitch, m))
  }

  lemma PutTwice(buf: seq<Byte>, p: int, a: seq<Byte>, b: seq<Byte>)
    requires 0 <= p && p + |a| + |b| <= |buf|
    ensures Put(Put(buf, p, a), p + |a|, b) == Put(buf, p, a + b)
  {
  }

  lemma PutNothing(buf: seq<Byte>, p: int)
    requires 0 <= p <= |buf|
    ensures Put(buf, p, []) == buf
  {
  }

  /** d holds the codes from offset s on. */
  predicate Holds(d: seq<Byte>, s: int, codes: seq<Byte>) {
    0 <= s && s + |codes| <= |d| && d[s..s + |codes|] == codes
  }

  lemma HoldsSplit(d: seq<Byte>, s: int, a: seq<Byte>, b: seq<Byte>)
    requires Holds(d, s, a + b)
    ensures Holds(d, s, a) && Holds(d, s + |a|, b)
  {
    assert d[s..s + |a|] == d[s..s + |a + b|][..|a|];
    assert d[s + |a|..s + |a| + |b|] == d[s..s + |a + b|][|a|..];
  }

  /** A run code paints its pixels and moves the pointer past them. */
  lemma RunStep(c: Coding, d: seq<Byte>, pitch: int, s: int, dest: int, line: int, buf: seq<Byte>, k: nat, v: Byte, aw: bool)
    requires 0 <= s && s + 2 <= |d| && d[s] == k && d[s + 1] == v && k != 0
    requires 0 <= dest && dest + k <= |buf|
    ensures DecodeFrom(c, d, pitch, Cursor(s, dest, line), buf, aw)
            == DecodeFrom(c, d, pitch, Cursor(s + 2, dest + k, line), Put(buf, dest, RunPixels(c, v, k)), aw)
  {
  }

  /** An end-of-line code moves the pointer to the start of the next line down. */
  lemma EndOfLineStep(c: Coding, d: seq<Byte>, pitch: int, s: int, dest: int, line: int, buf: seq<Byte>, aw: bool)
    requires 0 <= s && s + 2 <= |d| && d[s] == 0 && d[s + 1] == 0 && 0 <= dest
    ensures DecodeFrom(c, d, pitch, Cursor(s, dest, line), buf, aw)
            == DecodeFrom(c, d, pitch, Cursor(s + 2, line - pitch, line - pitch), buf, aw)
  {
  }

  /** The first run's code, and the codes after it. */
  lemma CodesHead(c: Coding, d: seq<Byte>, s: int, rs: seq<Run>, tail: seq<Byte>)
    requires rs != [] && Codable(c, rs) && Holds(d, s, CodesOf(c, rs) + tail)
    ensures s + 2 <= |d| && d[s] == rs[0].len && d[s + 1] == RunByte(c, rs[0].val)
    ensures Codable(c, rs[1..]) && Holds(d, s + 2, CodesOf(c, rs[1..]) + tail)
  {
    var a, b, more := rs[0].len as Byte, RunByte(c, rs[0].val), CodesOf(c, rs[1..]);
    assert CodesOf(c, rs) == [a, b] + more;
    AppendAssoc([a, b], more, tail);
    HoldsHead(d, s, a, b, more + tail);
  }

  lemma AppendAssoc(x: seq<Byte>, y: seq<Byte>, z: seq<Byte>)
    ensures x + y + z == x + (y + z)
  {
  }

  /** Two bytes, and the bytes after them. */
  lemma HoldsHead(d: seq<Byte>, s: int, a: Byte, b: Byte, rest: seq<Byte>)
    requires Holds(d, s, [a, b] + rest)
    ensures s + 2 <= |d| && d[s] == a && d[s + 1] == b && Holds(d, s + 2, rest)
  {
    HoldsSplit(d, s, [a, b], rest);
    assert d[s..s + 2][0] == d[s] && d[s..s + 2][1] == d[s + 1];
  }

  /** The pixels of the first run, then those of the runs after it. */
  lemma ExpandFirst(c: Coding, rs: seq<Run>)
    requires rs != [] && (c == Rle4 ==> rs[0].val < 16)
    ensures Expand(rs) == RunPixels(c, RunByte(c, rs[0].val), rs[0].len) + Expand(rs[1..])
  {
  }

  lemma HoldsPair(d: seq<Byte>, s: int, a: Byte, b: Byte)
    requires Holds(d, s, [a, b])
    ensures s + 2 <= |d| && d[s] == a && d[s + 1] == b
  {
    assert d[s..s + 2][0] == d[s] && d[s..s + 2][1] == d[s + 1];
  }

  /** d holds, from s on, one run code per run of rs and then an end of line. */
  predicate RunsAt(c: Coding, d: seq<Byte>, s: int, rs: seq<Run>)
    decreases |rs|
  {
    0 <= s && s + 2 <= |d|
    && if rs == [] then d[s] == 0 && d[s + 1] == 0
       else 1 <= rs[0].len <= 255 && (c == Rle4 ==> rs[0].val < 16)
            && d[s] == rs[0].len && d[s + 1] == RunByte(c, rs[0].val) && RunsAt(c, d, s + 2, rs[1..])
  }

  /** d holds, from s on, the codes of each line and its end of line, one after another. */
  predicate LinesAt(c: Coding, d: seq<Byte>, s: int, ls: seq<seq<Run>>)
    decreases |ls|
  {
    ls != [] ==> RunsAt(c, d, s, ls[0]) && LinesAt(c, d, s + 2 * |ls[0]| + 2, ls[1..])
  }

  lemma {:induction false} CodesAt(c: Coding, d: seq<Byte>, s: int, rs: seq<Run>)
    requires Codable(c, rs) && Holds(d, s, CodesOf(c, rs) + [0, 0])
    ensures RunsAt(c, d, s, rs)
    decreases |rs|
  {
    if rs == [] {
      HoldsPair(d, s, 0, 0);
    } else {
      CodesHead(c, d, s, rs, [0, 0]);
      CodesAt(c, d, s + 2, rs[1..]);
    }
  }

  lemma {:induction false} LinesCodesAt(c: Coding, d: seq<Byte>, s: int, ls: seq<seq<Run>>)
    requires AllCodable(c, ls) && Holds(d, s, LinesCodes(c, ls))
    ensures LinesAt(c, d, s, ls)
    decreases |ls|
  {
    if ls != [] {
      HoldsSplit(d, s, CodesOf(c, ls[0]) + [0, 0], LinesCodes(c, ls[1..]));
      CodesAt(c, d, s, ls[0]);
      LinesCodesAt(c, d, s + 2 * |ls[0]| + 2, ls[1..]);
    }
  }

  /**
   * Decoding the codes of a list of runs and an end of line, with the pixel
   * pointer at p, paints the runs' pixels from p on and moves the pointer to
   * the start of the next line down.
   */
  lemma {:induction false} LineDecode(c: Coding, d: seq<Byte>, pitch: int, s: int, p: int, line: int,
                                       rs: seq<Run>, buf: seq<Byte>, aw: bool)
    requires RunsAt(c, d, s, rs)
    requires 0 <= p && p + |Expand(rs)| <= |buf|
    ensures DecodeFrom(c, d, pitch, Cursor(s, p, line), buf, aw)
            == DecodeFrom(c, d, pitch, Cursor(s + 2 * |rs| + 2, line - pitch, line - pitch), Put(buf, p, Expand(rs)), aw)
    decreases |rs|
  {
    if rs == [] {
      PutNothing(buf, p);
      EndOfLineStep(c, d, pitch, s, p, line, buf, aw);
    } else {
      ExpandFirst(c, rs);
      var k, run, more := rs[0].len, RunPixels(c, RunByte(c, rs[0].val), rs[0].len), Expand(rs[1..]);
      var buf1 := Put(buf, p, run);
      calc {
        DecodeFrom(c, d, pitch, Cursor(s, p, line), buf, aw);
        { RunStep(c, d, pitch, s, p, line, buf, k, RunByte(c, rs[0].val), aw); }
        DecodeFrom(c, d, pitch, Cursor(s + 2, p + k, line), buf1, aw);
        { LineDecode(c, d, pitch, s + 2, p + k, line, rs[1..], buf1, aw); }
        DecodeFrom(c, d, pitch, Cursor(s + 2 + 2 * |rs[1..]| + 2, line - pitch, line - pitch), Put(buf1, p + k, more), aw);
        { PutTwice(buf, p, run, more); }
        DecodeFrom(c, d, pitch, Cursor(s + 2 * |rs| + 2, line - pitch, line - pitch), Put(buf, p, Expand(rs)), aw);
      }
    }
  }

  /**
   * Decoding coded lines from the start of the first paints each line in
   * turn and stops after the end of line of the last.
   */
  lemma {:induction false} LinesDecode(c: Coding, d: seq<Byte>, pitch: int, s: int, base: int,
                                        ls: seq<seq<Run>>, buf: seq<Byte>, aw: bool)
    requires LinesAt(c, d, s, ls) && Placed(ls, base, pitch, |buf|)
    ensures DecodeFrom(c, d, pitch, Cursor(s, base, base), buf, aw) == Ok(PaintLines(buf, base, pitch, ls))
    decreases |ls|
  {
    if ls != [] {
      LineDecode(c, d, pitch, s, base, base, ls[0], buf, aw);
      LinesDecode(c, d, pitch, s + 2 * |ls[0]| + 2, base - pitch, ls[1..], Put(buf, base, Expand(ls[0])), aw);
    }
  }

  /** Painting row m first, then the rows below it. */
  lemma PaintRowsStep(buf: seq<Byte>, px: seq<Byte>, w: int, pitch: int, m: int)
    requires 1 <= pitch && 0 <= w <= pitch && 0 <= m && (m + 1) * pitch <= |px| == |buf|
    ensures 0 <= m * pitch && m * pitch + w <= |buf| && (m - 1 + 1) * pitch <= |px|
    ensures PaintRows(buf, px, w, pitch, m) == PaintRows(Put(buf, m * pitch, Row(px, w, pitch, m)), px, w, pitch, m - 1)
  {
    MulLe(0, m, pitch);
    MulLe(m, m + 1, pitch);
    assert (m + 1) * pitch == m * pitch + pitch;
    assert m * pitch - pitch == (m - 1) * pitch;
    var ls := Lines(px, w, pitch, m);
    var row := Row(px, w, pitch, m);
    assert ls[1..] == Lines(px, w, pitch, m - 1);
    assert Expand(ls[0]) == row by { assert row[0..] == row; }
    LinesPlaced(px, w, pitch, m, |buf|);
    LinesPlaced(px, w, pitch, m - 1, |buf|);
  }

  /** Painting rows m, ..., 0 leaves every byte after row m as it was. */
  lemma {:induction false} PaintRowsKeeps(buf: seq<Byte>, px: seq<Byte>, w: int, pitch: int, m: int, i: int)
    requires 1 <= pitch && 0 <= w <= pitch && -1 <= m && (m + 1) * pitch <= |px| == |buf|
    requires (m + 1) * pitch <= i < |buf|
    ensures PaintRows(buf, px, w, pitch, m)[i] == buf[i]
    decreases m + 1
  {
    if m >= 0 {
      PaintRowsStep(buf, px, w, pitch, m);
      var row := Row(px, w, pitch, m);
      PutAt(buf, m * pitch, row);
      MulLe(m - 1 + 1, m + 1, pitch);
      PaintRowsKeeps(Put(buf, m * pitch, row), px, w, pitch, m - 1, i);
    }
  }

  /** Painting rows m, ..., 0 sets the first w bytes of row y from px and keeps its padding. */
  lemma {:induction false} PaintRowsPixel(buf: seq<Byte>, px: seq<Byte>, w: int, pitch: int, m: int, y: int, x: int)
    requires 1 <= pitch && 0 <= w <= pitch && (m + 1) * pitch <= |px| == |buf|
    requires 0 <= y <= m && 0 <= x < pitch
    ensures 0 <= y * pitch + x < |buf|
    ensures PaintRows(buf, px, w, pitch, m)[y * pitch + x] == if x < w then px[y * pitch + x] else buf[y * pitch + x]
    decreases m
  {
    PaintRowsStep(buf, px, w, pitch, m);
    var row := Row(px, w, pitch, m);
    var base := m * pitch;
    var buf1 := Put(buf, base, row);
    var i := y * pitch + x;
    PutAt(buf, base, row);
    MulLe(0, y, pitch);
    if y == m {
      PaintRowsKeeps(buf1, px, w, pitch, m - 1, i);
    } else {
      RowsAfter(y, m, pitch);
      PaintRowsPixel(buf1, px, w, pitch, m - 1, y, x);
    }
  }

  /** Decoding the coding of an image paints its rows over the buffer. */
  lemma EncodeDecodesTo(c: Coding, px: seq<Byte>, w: int, h: int, pitch: int, buf: seq<Byte>, aw: bool)
    requires 1 <= pitch && 0 <= w <= pitch && 0 <= h && |px| == h * pitch == |buf| && Fits(c, px)
    ensures DecodeFrom(c, Encode(c, px, w, h, pitch), pitch, Start(0, h, pitch), buf, aw)
            == Ok(PaintRows(buf, px, w, pitch, h - 1))
  {
    var ls := Lines(px, w, pitch, h - 1);
    LinesCodable(c, px, w, pitch, h - 1);
    var lines := LinesCodes(c, ls);
    var d := Encode(c, px, w, h, pitch);
    assert Holds(d, 0, lines) by { assert d[0..|lines|] == lines; }
    LinesCodesAt(c, d, 0, ls);
    LinesPlaced(px, w, pitch, h - 1, |buf|);
    LinesDecode(c, d, pitch, 0, (h - 1) * pitch, ls, buf, aw);
  }

  /** Painting all h rows sets the first w bytes of each from px and keeps the padding. */
  lemma PaintRowsAt(buf: seq<Byte>, px: seq<Byte>, w: int, h: int, pitch: int)
    requires 1 <= pitch && 0 <= w <= pitch && 0 <= h && |px| == h * pitch == |buf|
    ensures forall y, x :: 0 <= y < h && 0 <= x < pitch ==>
              0 <= At(x, y, pitch, 1) < |buf| && PaintRows(buf, px, w, pitch, h - 1)[At(x, y, pitch, 1)]
              == if x < w then px[At(x, y, pitch, 1)] else buf[At(x, y, pitch, 1)]
  {
    forall y, x | 0 <= y < h && 0 <= x < pitch
      ensures 0 <= At(x, y, pitch, 1) < |buf|
      ensures PaintRows(buf, px, w, pitch, h - 1)[At(x, y, pitch, 1)]
              == if x < w then px[At(x, y, pitch, 1)] else buf[At(x, y, pitch, 1)]
    {
      assert At(x, y, pitch, 1) == y * pitch + x;
      PaintRowsPixel(buf, px, w, pitch, h - 1, y, x);
    }
  }

  /**
   * The round trip: decoding the RLE coding of an image of h rows, w pixels
   * wide, into any buffer of h * pitch bytes gives back every pixel and
   * leaves the row padding as it was, with either literal advance.
   */
  lemma EncodeDecode(c: Coding, px: seq<Byte>, w: int, h: int, pitch: int, buf: seq<Byte>, aw: bool)
    requires 1 <= pitch && 0 <= w <= pitch && 0 <= h && |px| == h * pitch == |buf| && Fits(c, px)
    ensures var r := DecodeFrom(c, Encode(c, px, w, h, pitch), pitch, Start(0, h, pitch), buf, aw);
            r.Ok?
            && forall y, x :: 0 <= y < h && 0 <= x < pitch ==>
                 0 <= At(x, y, pitch, 1) < |buf| && r.value[At(x, y, pitch, 1)]
                 == if x < w then px[At(x, y, pitch, 1)] else buf[At(x, y, pitch, 1)]
  {
    EncodeDecodesTo(c, px, w, h, pitch, buf, aw);
    PaintRowsAt(buf, px, w, h, pitch);
  }
}
