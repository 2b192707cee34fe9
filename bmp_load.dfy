/**
 * The decoders BmpImage::Load tries in turn: LoadBMP (a BITMAPFILEHEADER in
 * front of a DIB), LoadDIB (a BITMAPINFOHEADER, its palette, then BI_RGB rows,
 * BI_RLE8 / BI_RLE4 codes or BI_BITFIELDS rows), LoadTGA (Truevision TGA
 * image types 1, 2, 3 and their run-length variants 9, 10, 11) and LoadPPM
 * (Netpbm P3 and P6).
 *
 * Each decoder is a function from the input bytes to an Outcome, and a method
 * with the decoder's loops that computes it.  The C++ reads and writes through
 * raw pointers without bounds checks; where the input does not hold a byte it
 * reads, or the buffer it allocated does not hold a byte it writes, the
 * Outcome is Undefined with that fault.  The bytes new[] leaves uninitialised
 * are zero here.
 */
module BmpLoad {
  import opened Wrappers
  import opened CLib
  import opened Util
  import opened Color
  import opened BmpImage
  import BmpRle

  /** What the C++ does that has no defined result. */
  datatype Fault = OverRead | OverWrite | NegativeSize

  /** What a decoder leaves: a loaded image, `return false`, or undefined behaviour. */
  datatype Outcome = Loaded(image: Decoded) | Rejected | Undefined(fault: Fault)

  /** The buffer new uint8[n] returns, its contents taken as zero. */
  function Zeros(n: nat): (z: seq<Byte>)
    ensures |z| == n && forall i :: 0 <= i < n ==> z[i] == 0
  {
    seq(n, _ => 0)
  }

  // ---------------------------------------------------------------------------
  // LoadDIB
  // ---------------------------------------------------------------------------

  /** sizeof(BITMAPINFOHEADER) and sizeof(BITMAPV4HEADER). */
  const InfoHeaderSize := 40
  const V4HeaderSize := 108

  /** biCompression values. */
  const BiRgb := 0
  const BiRle8 := 1
  const BiRle4 := 2
  const BiBitfields := 3

  /** `(x + 3) & ~3`: x rounded up to a multiple of four. */
  function Pad4(x: nat): (p: nat)
    ensures p % 4 == 0 && x <= p < x + 4
  {
    (x + 3) / 4 * 4
  }

  lemma Pow2UpTo8(k: nat)
    requires k <= 8
    ensures Pow2(k) <= 256
    decreases 8 - k
  {
    if k < 8 {
      Pow2UpTo8(k + 1);
    }
  }

  /**
   * The palette size LoadDIB assumes: up to 8 bits per pixel, biClrUsed, with
   * 0 meaning the full 1 << bits and a larger count cut to it; none above 8 bits.
   */
  function PaletteColors(bitCount: nat, clrUsed: int): (n: int)
    ensures n <= 256 && (bitCount > 8 ==> n == 0)
    ensures bitCount <= 8 && clrUsed == 0 ==> n == Pow2(bitCount)
    ensures bitCount <= 8 && 0 < clrUsed <= Pow2(bitCount) ==> n == clrUsed
    ensures bitCount <= 8 && clrUsed > Pow2(bitCount) ==> n == Pow2(bitCount)
    ensures bitCount <= 8 && clrUsed >= 0 ==> 1 <= n
  {
    if bitCount <= 8 then
      Pow2UpTo8(bitCount);
      var full := Pow2(bitCount);
      if clrUsed == 0 then full else if clrUsed < full then clrUsed else full
    else 0
  }

  /** The format of BI_RGB and of the RLE codings, by bits per pixel. */
  function RgbFormat(bitCount: nat): (f: Format)
    ensures f != UNKNOWN <==> bitCount in {1, 4, 8, 16, 24, 32}
    ensures f == P8 <==> bitCount in {1, 4, 8}
    ensures f != UNKNOWN && f != P8 ==> GetBytesFromFormat(f) * 8 == bitCount
  {
    if bitCount == 1 || bitCount == 4 || bitCount == 8 then P8
    else if bitCount == 16 then X1R5G5B5
    else if bitCount == 24 then R8G8B8
    else if bitCount == 32 then X8R8G8B8
    else UNKNOWN
  }

  /** The red, green, blue and alpha masks of a format that has channel masks. */
  datatype Masks = Masks(r: nat, g: nat, b: nat, a: nat)

  /** The reference table: which bits each channel of a format occupies. */
  function MasksOf(f: Format): Masks {
    match f
    case A8L8 => Masks(0xff, 0xff, 0xff, 0xff00)
    case R5G6B5 => Masks(0xf800, 0x7e0, 0x1f, 0)
    case X1R5G5B5 => Masks(0x7c00, 0x3e0, 0x1f, 0)
    case A1R5G5B5 => Masks(0x7c00, 0x3e0, 0x1f, 0x8000)
    case A4R4G4B4 => Masks(0xf00, 0xf0, 0xf, 0xf000)
    case X8R8G8B8 => Masks(0xff_0000, 0xff00, 0xff, 0)
    case A8R8G8B8 => Masks(0xff_0000, 0xff00, 0xff, 0xff00_0000)
    case _ => Masks(0, 0, 0, 0)
  }

  /**
   * The format of a BI_BITFIELDS bitmap: the format whose channel masks are
   * the header's, for 16 and 32 bits per pixel, and X8R8G8B8 for 24 bits.
   */
  function MaskFormat(bitCount: nat, m: Masks): (f: Format)
    ensures f != UNKNOWN ==> MasksOf(f) == m && bitCount in {16, 24, 32}
    ensures f != UNKNOWN && bitCount != 24 ==> GetBytesFromFormat(f) == 0 || GetBytesFromFormat(f) * 8 == bitCount
  {
    if bitCount == 16 then
      if m == MasksOf(A8L8) then A8L8
      else if m == MasksOf(R5G6B5) then R5G6B5
      else if m == MasksOf(X1R5G5B5) then X1R5G5B5
      else if m == MasksOf(A1R5G5B5) then A1R5G5B5
      else if m == MasksOf(A4R4G4B4) then A4R4G4B4
      else UNKNOWN
    else if bitCount == 24 then
      if m == MasksOf(X8R8G8B8) then X8R8G8B8 else UNKNOWN
    else if bitCount == 32 then
      if m == MasksOf(X8R8G8B8) then X8R8G8B8
      else if m == MasksOf(A8R8G8B8) then A8R8G8B8
      else UNKNOWN
    else UNKNOWN
  }

  /** Every 16-bit and 32-bit format with masks is recognised from its own masks. */
  lemma MaskFormatComplete(f: Format)
    ensures f in {A8L8, R5G6B5, X1R5G5B5, A1R5G5B5, A4R4G4B4} ==> MaskFormat(16, MasksOf(f)) == f
    ensures f in {X8R8G8B8, A8R8G8B8} ==> MaskFormat(32, MasksOf(f)) == f
  {
  }

  /** What LoadDIB takes from the header before it reads any pixel. */
  datatype Dib = Dib(width: nat, height: nat, topDown: bool, bitCount: nat, compression: nat,
                     colors: int, offset: int, format: Format, pitch: nat)

  /** Bytes of a destination row: one per pixel up to 8 bits, else bitCount / 8 per pixel. */
  function WidthBytes(bitCount: nat, width: nat): nat {
    if bitCount == 1 || bitCount == 4 then width else width * (bitCount / 8)
  }

  /** Bytes a source row holds before its padding. */
  function RowBytes(bitCount: nat, width: nat): nat {
    if bitCount == 1 then (width + 7) / 8
    else if bitCount == 4 then (width + 1) / 2
    else WidthBytes(bitCount, width)
  }

  /** The header's numbers agree with each other as ParseDib leaves them. */
  predicate WellFormed(L: Dib) {
    L.pitch == Pad4(WidthBytes(L.bitCount, L.width)) && L.colors <= 256
  }

  /**
   * LoadDIB's header checks, in the order the source makes them.  Widths and
   * heights are the signed LONG fields; a negative width, or a height of
   * -2^31 whose negation overflows, leaves sizes the source never guards.
   */
  function ParseDib(d: seq<Byte>): (r: Result<Dib, Outcome>)
    ensures r.Ok? ==> WellFormed(r.value) && r.value.format != UNKNOWN && r.value.offset <= |d| && |d| >= InfoHeaderSize
    ensures r.Err? ==> r.error.Loaded? == false
  {
    if |d| < InfoHeaderSize then Err(Rejected)
    else
      var size := U32(d, 0);
      if size < InfoHeaderSize then Err(Rejected)
      else
        var w, hr := Int32(U32(d, 4)), Int32(U32(d, 8));
        var planes, bitCount, compression := U16(d, 12), U16(d, 14), U32(d, 16);
        var colors := PaletteColors(bitCount, Int32(U32(d, 32)));
        var offset := Wrap32(size + 4 * colors);
        if offset > |d| then Err(Rejected)
        else if planes != 1 then Err(Rejected)
        else if hr < 0 && compression != BiRgb && compression != BiBitfields then Err(Rejected)
        else if compression > BiBitfields then Err(Rejected)
        else if compression == BiBitfields && size < V4HeaderSize then Err(Rejected)
        else if compression == BiBitfields && |d| < 56 then Err(Undefined(OverRead))
        else
          var format :=
            if compression == BiBitfields then MaskFormat(bitCount, Masks(U32(d, 40), U32(d, 44), U32(d, 48), U32(d, 52)))
            else RgbFormat(bitCount);
          if format == UNKNOWN then Err(Rejected)
          else if w < 0 || hr == Int32Min then Err(Undefined(NegativeSize))
          else
            var h := if hr < 0 then -hr else hr;
            Ok(Dib(w, h, hr < 0, bitCount, compression, colors, offset, format, Pad4(WidthBytes(bitCount, w))))
  }

  /** Palette entry i: the RGBQUAD (blue, green, red, reserved) at base + 4i, made opaque. */
  function PaletteEntry(d: seq<Byte>, base: nat, i: nat): (c: Word)
    requires base + 4 * i + 4 <= |d|
    ensures Red(c) == d[base + 4 * i + 2] && Green(c) == d[base + 4 * i + 1] && Blue(c) == d[base + 4 * i] && Alpha(c) == 255
  {
    ChannelsOfPack(d[base + 4 * i + 2], d[base + 4 * i + 1], d[base + 4 * i], 255);
    Pack(d[base + 4 * i + 2], d[base + 4 * i + 1], d[base + 4 * i], 255)
  }

  /** The 256-entry palette of a P8 bitmap: the colours read, then white. */
  function DibPalette(d: seq<Byte>, base: nat, colors: int): (r: Result<seq<Word>, Fault>)
    requires colors <= 256
  {
    if colors > 0 && base + 4 * colors > |d| then Err(OverRead)
    else Ok(seq(256, i requires 0 <= i < 256 => if i < colors then PaletteEntry(d, base, i) else 0xFFFF_FFFF))
  }

  /** The palette has 256 opaque entries; those past the colours read are white. */
  lemma DibPaletteShape(d: seq<Byte>, base: nat, colors: int)
    requires colors <= 256 && DibPalette(d, base, colors).Ok?
    ensures var pal := DibPalette(d, base, colors).value;
            |pal| == 256 && forall i :: 0 <= i < 256 ==> Alpha(pal[i]) == 255 && (i >= colors ==> pal[i] == 0xFFFF_FFFF)
  {
    var pal := DibPalette(d, base, colors).value;
    forall i | 0 <= i < 256
      ensures Alpha(pal[i]) == 255
    {
      if i >= colors {
        assert pal[i] == 0xFFFF_FFFF;
      }
    }
  }

  method ReadDibPalette(d: seq<Byte>, base: nat, colors: int) returns (r: Result<seq<Word>, Fault>)
    requires colors <= 256
    ensures r == DibPalette(d, base, colors)
  {
    if colors > 0 && base + 4 * colors > |d| {
      return Err(OverRead);
    }
    var pal := new Word[256](_ => 0xFFFF_FFFF);
    var n := if colors < 0 then 0 else colors;
    for i := 0 to n
      invariant forall k :: 0 <= k < 256 ==> pal[k] == if k < i then PaletteEntry(d, base, k) else 0xFFFF_FFFF
    {
      pal[i] := PaletteEntry(d, base, i);
    }
    assert pal[..] == DibPalette(d, base, colors).value;
    return Ok(pal[..]);
  }

  /** Which byte of a source row holds pixel x. */
  function SampleIndex(bitCount: nat, x: nat): nat {
    if bitCount == 1 then x / 8 else if bitCount == 4 then x / 2 else x
  }

  /** Pixel x out of the byte holding it: bit 7 - x % 8, a nibble, or the byte. */
  function Sample(bitCount: nat, b: Byte, x: nat): (v: Byte)
    ensures bitCount == 1 ==> v < 2
    ensures bitCount == 4 ==> v < 16
  {
    if bitCount == 1 then b / Pow2(7 - x % 8) % 2
    else if bitCount == 4 then BmpRle.Nibble(b, x)
    else b
  }

  lemma SampleInRow(bitCount: nat, width: nat, x: nat)
    requires x < WidthBytes(bitCount, width)
    ensures SampleIndex(bitCount, x) < RowBytes(bitCount, width)
  {
  }

  /** The destination bytes of the source row at s. */
  function RowPixels(d: seq<Byte>, s: int, L: Dib): (row: seq<Byte>)
    requires 0 <= s && s + RowBytes(L.bitCount, L.width) <= |d|
    ensures |row| == WidthBytes(L.bitCount, L.width)
  {
    seq(WidthBytes(L.bitCount, L.width), x requires 0 <= x < WidthBytes(L.bitCount, L.width) =>
      SampleInRow(L.bitCount, L.width, x);
      Sample(L.bitCount, d[s + SampleIndex(L.bitCount, x)], x))
  }

  /** Rows the unpacking loop visits: all of them, unless rows are empty. */
  function Rows(L: Dib): nat {
    if L.pitch > 0 then L.height else 0
  }

  /** Where source row r starts: rows are padded to four bytes. */
  function SrcRow(L: Dib, r: int): int {
    L.offset + r * Pad4(RowBytes(L.bitCount, L.width))
  }

  /** The destination row of source row r: bottom-up unless the height was negative. */
  function DestRow(L: Dib, r: int): int {
    if L.topDown then r else L.height - 1 - r
  }

  lemma RowInBuffer(L: Dib, r: int)
    requires WellFormed(L) && 0 <= r < L.height
    ensures 0 <= DestRow(L, r) * L.pitch && DestRow(L, r) * L.pitch + WidthBytes(L.bitCount, L.width) <= L.height * L.pitch
  {
    MulLe(0, DestRow(L, r), L.pitch);
    MulLe(DestRow(L, r) + 1, L.height, L.pitch);
  }

  /** The unpacking loop from source row r on, over the buffer buf. */
  function UnpackFrom(d: seq<Byte>, L: Dib, r: nat, buf: seq<Byte>): (res: Result<seq<Byte>, Fault>)
    requires WellFormed(L) && |buf| == L.height * L.pitch && r <= Rows(L)
    ensures res.Ok? ==> |res.value| == |buf|
    decreases Rows(L) - r
  {
    if r == Rows(L) then Ok(buf)
    else
      var s := SrcRow(L, r);
      if s < 0 || s + RowBytes(L.bitCount, L.width) > |d| then Err(OverRead)
      else
        RowInBuffer(L, r);
        UnpackFrom(d, L, r + 1, BmpRle.Put(buf, DestRow(L, r) * L.pitch, RowPixels(d, s, L)))
  }

  function FromRle(r: Result<seq<Byte>, BmpRle.Fault>): Result<seq<Byte>, Fault> {
    match r
    case Ok(b) => Ok(b)
    case Err(e) => if e == BmpRle.OverRead then Err(OverRead) else Err(OverWrite)
  }

  /**
   * The pixel buffer LoadDIB leaves: a top-down bitmap of whole bytes is
   * copied as it stands; RLE codes are decoded from the last row up, with
   * the RLE4 literal advance as written; other rows are unpacked one by one.
   */
  function DibPixels(d: seq<Byte>, L: Dib): (r: Result<seq<Byte>, Fault>)
    requires WellFormed(L)
    ensures r.Ok? ==> |r.value| == L.height * L.pitch
  {
    var n := L.height * L.pitch;
    MulLe(0, L.height, L.pitch);
    if L.topDown && L.bitCount >= 8 then
      if n == 0 then Ok([])
      else if L.offset < 0 || L.offset + n > |d| then Err(OverRead)
      else Ok(d[L.offset..L.offset + n])
    else if L.compression == BiRle4 then
      FromRle(BmpRle.DecodeFrom(BmpRle.Rle4, d, L.pitch, BmpRle.Start(L.offset, L.height, L.pitch), Zeros(n), true))
    else if L.compression == BiRle8 then
      FromRle(BmpRle.DecodeFrom(BmpRle.Rle8, d, L.pitch, BmpRle.Start(L.offset, L.height, L.pitch), Zeros(n), true))
    else UnpackFrom(d, L, 0, Zeros(n))
  }

  /** LoadDIB: the header's image with its palette (P8 only) and pixels. */
  function DibOutcome(d: seq<Byte>): Outcome {
    match ParseDib(d)
    case Err(o) => o
    case Ok(L) =>
      var pal := if L.format == P8 then DibPalette(d, U32(d, 0), L.colors) else Ok([]);
      if pal.Err? then Undefined(pal.error)
      else match DibPixels(d, L)
        case Err(e) => Undefined(e)
        case Ok(px) => Loaded(Decoded(L.width, L.height, L.pitch, L.format, px, if L.format == P8 then Some(pal.value) else None))
  }

  /** Byte x of the destination row filled from source row r, as the source holds it. */
  function SourcePixel(d: seq<Byte>, L: Dib, r: int, x: nat): Byte {
    var s := SrcRow(L, r);
    if x < WidthBytes(L.bitCount, L.width) && 0 <= s && s + RowBytes(L.bitCount, L.width) <= |d| then
      SampleInRow(L.bitCount, L.width, x);
      Sample(L.bitCount, d[s + SampleIndex(L.bitCount, x)], x)
    else 0
  }

  /** Byte x of row q of a buffer of rows of p bytes (0 outside it). */
  function Cell(buf: seq<Byte>, p: int, q: int, x: int): Byte {
    var i := q * p + x;
    if 0 <= i < |buf| then buf[i] else 0
  }

  lemma CellInside(p: nat, h: nat, q: int, x: int)
    requires 0 <= q < h && 0 <= x < p
    ensures 0 <= q * p + x < h * p
  {
    MulLe(0, q, p);
    MulLe(q + 1, h, p);
  }

  /** Byte x of row q lies in row Q's first n bytes only when q is Q. */
  lemma RowsApart(p: nat, Q: int, q: int, x: int, n: int)
    requires 0 <= x < p && n <= p
    ensures Q * p <= q * p + x < Q * p + n ==> q == Q
  {
    if q < Q {
      MulLe(q + 1, Q, p);
    } else if q > Q {
      MulLe(Q + 1, q, p);
    }
  }

  /** A row put at row Q changes, in row q, only the bytes it covers. */
  lemma PutRowCell(buf: seq<Byte>, p: nat, h: nat, Q: int, row: seq<Byte>, q: int, x: int)
    requires |buf| == h * p && 0 <= Q < h && |row| <= p && 0 <= q < h && 0 <= x < p
    ensures 0 <= Q * p && Q * p + |row| <= |buf|
    ensures Cell(BmpRle.Put(buf, Q * p, row), p, q, x) == if q == Q && x < |row| then row[x] else Cell(buf, p, q, x)
  {
    CellInside(p, h, q, x);
    MulLe(0, Q, p);
    MulLe(Q + 1, h, p);
    var base := Q * p;
    var i := q * p + x;
    RowsApart(p, Q, q, x, |row|);
    BmpRle.PutAt(buf, base, row);
    assert BmpRle.Put(buf, base, row)[i] == if base <= i < base + |row| then row[i - base] else buf[i];
  }

  /** The destination row of a row is the row it is filled from. */
  lemma DestRowInvolution(L: Dib, q: int)
    ensures DestRow(L, DestRow(L, q)) == q
  {
  }

  /**
   * From source row r on, every destination byte of a row still to come is
   * its source pixel, and every other byte is what the buffer held.
   */
  lemma {:induction false} UnpackFromRows(d: seq<Byte>, L: Dib, r: nat, buf: seq<Byte>, out: seq<Byte>)
    requires WellFormed(L) && |buf| == L.height * L.pitch && r <= Rows(L)
    requires UnpackFrom(d, L, r, buf) == Ok(out)
    ensures |out| == |buf|
    ensures forall q, x :: 0 <= q < L.height && 0 <= x < L.pitch ==>
              Cell(out, L.pitch, q, x) ==
              if x < WidthBytes(L.bitCount, L.width) && r <= DestRow(L, q) then SourcePixel(d, L, DestRow(L, q), x)
              else Cell(buf, L.pitch, q, x)
    decreases Rows(L) - r
  {
    if r < Rows(L) {
      var s := SrcRow(L, r);
      RowInBuffer(L, r);
      var row := RowPixels(d, s, L);
      var Q := DestRow(L, r);
      var buf' := BmpRle.Put(buf, Q * L.pitch, row);
      UnpackFromRows(d, L, r + 1, buf', out);
      forall q, x | 0 <= q < L.height && 0 <= x < L.pitch
        ensures Cell(out, L.pitch, q, x) ==
                if x < WidthBytes(L.bitCount, L.width) && r <= DestRow(L, q) then SourcePixel(d, L, DestRow(L, q), x)
                else Cell(buf, L.pitch, q, x)
      {
        PutRowCell(buf, L.pitch, L.height, Q, row, q, x);
        DestRowInvolution(L, q);
        DestRowInvolution(L, r);
      }
    }
  }

  /**
   * An unpacked bitmap: byte x of row q is pixel x of the source row it is
   * filled from (row q of a top-down bitmap, row height - 1 - q of a bottom-up
   * one), and the padding after the pixels is left as allocated.
   */
  lemma DibUnpacked(d: seq<Byte>, L: Dib, out: seq<Byte>)
    requires WellFormed(L) && UnpackFrom(d, L, 0, Zeros(L.height * L.pitch)) == Ok(out)
    ensures forall q, x :: 0 <= q < L.height && 0 <= x < L.pitch ==>
              Cell(out, L.pitch, q, x) ==
              if x < WidthBytes(L.bitCount, L.width) then SourcePixel(d, L, DestRow(L, q), x) else 0
  {
    MulLe(0, L.height, L.pitch);
    UnpackFromRows(d, L, 0, Zeros(L.height * L.pitch), out);
    forall q, x | 0 <= q < L.height && 0 <= x < L.pitch
      ensures Cell(Zeros(L.height * L.pitch), L.pitch, q, x) == 0
    {
    }
  }

  /** The unpacking loop stops exactly after the rows it visits. */
  lemma GuardMeansRow(L: Dib, r: nat)
    requires WellFormed(L) && r <= Rows(L)
    ensures (0 <= DestRow(L, r) * L.pitch < L.height * L.pitch) <==> r < Rows(L)
  {
    if L.pitch > 0 {
      if r < L.height {
        CellInside(L.pitch, L.height, DestRow(L, r), 0);
      } else if !L.topDown {
        assert DestRow(L, r) * L.pitch == -(L.pitch as int);
      }
    }
  }

  /** One row of the 1-bit, 4-bit or whole-byte loop of LoadDIB. */
  method WriteRow(d: seq<Byte>, s: int, L: Dib, a: array<Byte>, p: int)
    requires 0 <= s && s + RowBytes(L.bitCount, L.width) <= |d|
    requires 0 <= p && p + WidthBytes(L.bitCount, L.width) <= a.Length
    modifies a
    ensures a[..] == BmpRle.Put(old(a[..]), p, RowPixels(d, s, L))
  {
    ghost var a0 := a[..];
    ghost var row := RowPixels(d, s, L);
    var n := WidthBytes(L.bitCount, L.width);
    for i := 0 to n
      invariant forall k :: 0 <= k < a.Length ==> a[k] == if p <= k < p + i then row[k - p] else a0[k]
    {
      SampleInRow(L.bitCount, L.width, i);
      a[p + i] := Sample(L.bitCount, d[s + SampleIndex(L.bitCount, i)], i);
    }
    BmpRle.PutAt(a0, p, row);
  }

  /** Both cursors of the unpacking loop move one row per iteration. */
  lemma NextRow(L: Dib, r: int)
    ensures DestRow(L, r + 1) * L.pitch == DestRow(L, r) * L.pitch + (if L.topDown then L.pitch else -(L.pitch as int))
    ensures SrcRow(L, r + 1) == SrcRow(L, r) + Pad4(RowBytes(L.bitCount, L.width))
  {
  }

  /** One iteration of the unpacking loop: the source check, then the row. */
  method UnpackRow(d: seq<Byte>, L: Dib, a: array<Byte>, ghost r: nat, dest: int, src: int) returns (ok: bool)
    requires WellFormed(L) && a.Length == L.height * L.pitch && r < Rows(L)
    requires dest == DestRow(L, r) * L.pitch && src == SrcRow(L, r)
    modifies a
    ensures !ok ==> UnpackFrom(d, L, r, old(a[..])) == Err(OverRead)
    ensures ok ==> UnpackFrom(d, L, r + 1, a[..]) == UnpackFrom(d, L, r, old(a[..]))
  {
    if src < 0 || src + RowBytes(L.bitCount, L.width) > |d| {
      return false;
    }
    RowInBuffer(L, r);
    WriteRow(d, src, L, a, dest);
    return true;
  }

  /**
   * LoadDIB's unpacking loop: pbDest walks the rows from the first or the
   * last by pitch while it stays inside the buffer, pbSrc walks the source
   * rows by their padded size.
   */
  method Unpack(d: seq<Byte>, L: Dib, a: array<Byte>) returns (fault: Option<Fault>)
    requires WellFormed(L) && a.Length == L.height * L.pitch
    modifies a
    ensures match UnpackFrom(d, L, 0, old(a[..]))
            case Ok(b) => fault.None? && a[..] == b
            case Err(e) => fault == Some(e)
  {
    var lim := L.height * L.pitch;
    var dstInc: int := if L.topDown then L.pitch else -(L.pitch as int);
    var dest := if L.topDown then 0 else (L.height - 1) * L.pitch;
    var srcInc := Pad4(RowBytes(L.bitCount, L.width));
    var src := L.offset;
    ghost var r: nat := 0;
    while 0 <= dest < lim
      invariant r <= Rows(L) && dest == DestRow(L, r) * L.pitch && src == SrcRow(L, r)
      invariant UnpackFrom(d, L, r, a[..]) == UnpackFrom(d, L, 0, old(a[..]))
      decreases Rows(L) - r
    {
      GuardMeansRow(L, r);
      var ok := UnpackRow(d, L, a, r, dest, src);
      if !ok {
        return Some(OverRead);
      }
      NextRow(L, r);
      dest := dest + dstInc;
      src := src + srcInc;
      r := r + 1;
    }
    GuardMeansRow(L, r);
    return None;
  }

  /** LoadDIB's pixel section: the copy, the RLE decoders or the unpacking loop. */
  method DecodeDibPixels(d: seq<Byte>, L: Dib) returns (r: Result<seq<Byte>, Fault>)
    requires WellFormed(L)
    ensures r == DibPixels(d, L)
  {
    var n := L.height * L.pitch;
    MulLe(0, L.height, L.pitch);
    if L.topDown && L.bitCount >= 8 {
      if n == 0 {
        return Ok([]);
      }
      if L.offset < 0 || L.offset + n > |d| {
        return Err(OverRead);
      }
      return Ok(d[L.offset..L.offset + n]);
    }
    var a := new Byte[n](_ => 0);
    assert a[..] == Zeros(n);
    if L.compression == BiRle4 || L.compression == BiRle8 {
      var coding := if L.compression == BiRle4 then BmpRle.Rle4 else BmpRle.Rle8;
      var fault := BmpRle.DecodeRle(coding, d, L.offset, L.height, L.pitch, a, true);
      if fault.Some? {
        return FromRle(Err(fault.value));
      }
      return Ok(a[..]);
    }
    var fault := Unpack(d, L, a);
    if fault.Some? {
      return Err(fault.value);
    }
    return Ok(a[..]);
  }

  /** LoadDIB: the header checks, the palette of a P8 bitmap, then the pixels. */
  method LoadDIB(d: seq<Byte>) returns (r: Outcome)
    ensures r == DibOutcome(d)
  {
    var parsed := ParseDib(d);
    if parsed.Err? {
      return parsed.error;
    }
    var L := parsed.value;
    var pal: Option<seq<Word>> := None;
    if L.format == P8 {
      var p := ReadDibPalette(d, U32(d, 0), L.colors);
      if p.Err? {
        return Undefined(p.error);
      }
      pal := Some(p.value);
    }
    var px := DecodeDibPixels(d, L);
    if px.Err? {
      return Undefined(px.error);
    }
    return Loaded(Decoded(L.width, L.height, L.pitch, L.format, px.value, pal));
  }

  /**
   * A loaded DIB: rows padded to a multiple of four bytes that hold its
   * width's pixels, height rows of data, and a 256-entry palette exactly
   * when it is P8.
   */
  lemma DibLoadedShape(d: seq<Byte>)
    requires DibOutcome(d).Loaded?
    ensures var x := DibOutcome(d).image;
            var bits := U16(d, 14);
            x.pitch % 4 == 0 && WidthBytes(bits, x.width) <= x.pitch < WidthBytes(bits, x.width) + 4
            && |x.pixels| == x.height * x.pitch
            && (x.palette.Some? <==> x.format == P8)
            && (x.palette.Some? ==> |x.palette.value| == 256)
  {
    var L := ParseDib(d).value;
    if L.format == P8 {
      DibPaletteShape(d, U32(d, 0), L.colors);
    }
  }

  /** LoadDIB's checks: each of these inputs is turned down before any pixel is read. */
  lemma DibChecks(d: seq<Byte>)
    ensures |d| < InfoHeaderSize ==> DibOutcome(d) == Rejected
    ensures |d| >= InfoHeaderSize && U32(d, 0) < InfoHeaderSize ==> DibOutcome(d) == Rejected
    ensures ParseDib(d).Ok? ==> U16(d, 12) == 1 && (Int32(U32(d, 8)) < 0 ==> U32(d, 16) in {BiRgb, BiBitfields})
    ensures ParseDib(d).Ok? ==> U32(d, 16) <= BiBitfields && (U32(d, 16) == BiBitfields ==> U32(d, 0) >= V4HeaderSize)
  {
  }

  /** BITMAPFILEHEADER: the "BM" tag, the file size, then the DIB. */
  const FileHeaderSize := 14
  const BmTag := 0x4D42

  /** LoadBMP: a file header that fits and names no more bytes than there are, then LoadDIB on the rest. */
  function BmpOutcome(d: seq<Byte>): Outcome {
    if |d| < FileHeaderSize then Rejected
    else if U16(d, 0) != BmTag || Int32(U32(d, 2)) > |d| then Rejected
    else DibOutcome(d[FileHeaderSize..])
  }

  method LoadBMP(d: seq<Byte>) returns (r: Outcome)
    ensures r == BmpOutcome(d)
  {
    if |d| < FileHeaderSize {
      return Rejected;
    }
    if U16(d, 0) != BmTag || Int32(U32(d, 2)) > |d| {
      return Rejected;
    }
    r := LoadDIB(d[FileHeaderSize..]);
  }

  /**
   * A BMP file loads only when it starts with 'B', 'M', its size field (read
   * as a signed int) is at most the data's length, and the DIB after the
   * 14-byte header loads; the image is then that DIB's.
   */
  lemma BmpLoadedIsDib(d: seq<Byte>)
    ensures BmpOutcome(d).Loaded? ==>
              |d| >= FileHeaderSize && d[0] == 'B' as int && d[1] == 'M' as int
              && Int32(U32(d, 2)) <= |d| && DibOutcome(d[FileHeaderSize..]) == BmpOutcome(d)
    ensures |d| >= FileHeaderSize && (d[0] != 'B' as int || d[1] != 'M' as int) ==> BmpOutcome(d) == Rejected
  {
  }
}
