/**
 * BmpImage: an in-memory bitmap (width, height, row pitch, D3D pixel format,
 * a byte buffer and an optional 256-entry palette), its per-pixel accessors
 * and the whole-image operations that rewrite the buffer in place.
 */
module BmpImage {
  import opened Wrappers
  import opened Color

  /** An unsigned 8-bit value, as uint8 stores it. */
  type Byte = x: int | 0 <= x < 256

  /** A little-endian 16-bit field at d[i..i + 2]. */
  function U16(d: seq<Byte>, i: int): (v: nat)
    requires 0 <= i && i + 2 <= |d|
    ensures v < 0x1_0000
  {
    (d[i] as int) + (d[i + 1] as int) * 0x100
  }

  /** A little-endian 32-bit field at d[i..i + 4]. */
  function U32(d: seq<Byte>, i: int): (v: nat)
    requires 0 <= i && i + 4 <= |d|
    ensures v < 0x1_0000_0000
  {
    (U16(d, i) as int) + (U16(d, i + 2) as int) * 0x1_0000
  }

  /** An unsigned 32-bit value cast to a signed int: two's complement. */
  function Int32(u: nat): (v: int)
    requires u < 0x1_0000_0000
    ensures -0x8000_0000 <= v < 0x8000_0000
    ensures v % 0x1_0000_0000 == u
  {
    if u < 0x8000_0000 then u else u - 0x1_0000_0000
  }

  /** The D3DFORMAT values the image code names. */
  datatype Format =
    | UNKNOWN | P8 | L8 | A8L8 | X1R5G5B5 | A1R5G5B5 | R5G6B5 | A4R4G4B4
    | R8G8B8 | X8R8G8B8 | A8R8G8B8

  /** ColorDW::debug, the hot pink GetColor returns for a format it cannot read. */
  const DebugColor: Word := 0xFFFF_00FF

  /** GetBytesFromFormat: bytes per pixel; 0 for the formats it does not know. */
  function GetBytesFromFormat(f: Format): (n: nat)
    ensures n <= 4
    ensures n == 0 <==> f == UNKNOWN || f == A8L8 || f == A1R5G5B5 || f == A4R4G4B4
  {
    match f
    case P8 => 1
    case L8 => 1
    case X1R5G5B5 => 2
    case R5G6B5 => 2
    case R8G8B8 => 3
    case X8R8G8B8 => 4
    case A8R8G8B8 => 4
    case _ => 0
  }

  /** GetFormatForBytes: the default format for a pixel size, UNKNOWN for any other size. */
  function GetFormatForBytes(n: int): (f: Format)
    ensures 1 <= n <= 4 ==> f != UNKNOWN && GetBytesFromFormat(f) == n
    ensures !(1 <= n <= 4) ==> f == UNKNOWN && GetBytesFromFormat(f) == 0
  {
    if n == 1 then L8
    else if n == 2 then X1R5G5B5
    else if n == 3 then R8G8B8
    else if n == 4 then X8R8G8B8
    else UNKNOWN
  }

  /** The formats GetColor has a case for. */
  predicate Readable(f: Format) {
    f == P8 || f == L8 || f == R8G8B8 || f == X8R8G8B8 || f == A8R8G8B8
  }

  /** The formats SetColor has a case for. */
  predicate Writable(f: Format) {
    f == L8 || f == R8G8B8 || f == X8R8G8B8 || f == A8R8G8B8
  }

  /** The grey level SetColor and Force8BitGray store: (R + 2G + B + 2) / 4. */
  function Luma(c: Word): (l: Byte)
    ensures l <= Red(c) || l <= Green(c) || l <= Blue(c)
    ensures l >= Red(c) || l >= Green(c) || l >= Blue(c)
    ensures Red(c) == Green(c) == Blue(c) ==> l == Red(c)
  {
    (Red(c) + 2 * Green(c) + Blue(c) + 2) / 4
  }

  /** A colour with its red and blue channels exchanged, as SwapBGR sets it. */
  function SwapRB(c: Word): Word {
    Pack(Blue(c), Green(c), Red(c), Alpha(c))
  }

  /** Exchanging red and blue twice gives the colour back. */
  lemma SwapRBTwice(c: Word)
    ensures SwapRB(SwapRB(c)) == c
  {
    ChannelsOfPack(Blue(c), Green(c), Red(c), Alpha(c));
    PackOfChannels(c);
  }

  /** Byte offset of pixel (x, y): y * pitch + x * bpp. */
  function At(x: int, y: int, pitch: int, bpp: int): int {
    y * pitch + x * bpp
  }

  lemma MulLe(a: int, b: int, c: int)
    requires a <= b && 0 <= c
    ensures a * c <= b * c
  {
    assert (b - a) * c >= 0;
  }

  /** A pixel inside a w x h grid lies inside the first h rows of the buffer. */
  lemma PixelInBuffer(x: int, y: int, w: int, h: int, pitch: int, bpp: int)
    requires 0 <= x < w && 0 <= y < h && 0 < bpp && w * bpp <= pitch
    ensures 0 <= At(x, y, pitch, bpp) && At(x, y, pitch, bpp) + bpp <= h * pitch
  {
    MulLe(x + 1, w, bpp);
    MulLe(0, y, pitch);
    MulLe(y + 1, h, pitch);
  }

  /** A pixel of a row ends before the row's pitch does. */
  lemma RowEnd(x: int, w: int, pitch: int, bpp: int)
    requires 0 <= x < w && 0 < bpp && w * bpp <= pitch
    ensures x * bpp + bpp <= pitch
  {
    MulLe(x + 1, w, bpp);
    assert (x + 1) * bpp == x * bpp + bpp;
  }

  /** Row y ends where a later row v starts, or before. */
  lemma RowsAfter(y: int, v: int, pitch: int)
    requires y < v && 0 <= pitch
    ensures y * pitch + pitch <= v * pitch
  {
    MulLe(y + 1, v, pitch);
    assert (y + 1) * pitch == y * pitch + pitch;
  }

  /** Pixel x of row y ends before pixel u of row v starts when (x, y) comes first. */
  lemma PixelBefore(x: int, y: int, u: int, v: int, w: int, pitch: int, bpp: int)
    requires 0 <= x < w && 0 <= u < w && 0 <= y <= v && 0 < bpp && w * bpp <= pitch
    requires y < v || x < u
    ensures At(x, y, pitch, bpp) + bpp <= At(u, v, pitch, bpp)
  {
    if y == v {
      MulLe(x + 1, u, bpp);
      assert (x + 1) * bpp == x * bpp + bpp;
    } else {
      RowEnd(x, w, pitch, bpp);
      RowsAfter(y, v, pitch);
      MulLe(0, u, bpp);
    }
  }

  /** Two different pixels of a grid occupy disjoint bytes. */
  lemma PixelsApart(x: int, y: int, u: int, v: int, w: int, pitch: int, bpp: int)
    requires 0 <= x < w && 0 <= u < w && 0 <= y && 0 <= v && 0 < bpp && w * bpp <= pitch
    requires x != u || y != v
    ensures At(x, y, pitch, bpp) + bpp <= At(u, v, pitch, bpp) || At(u, v, pitch, bpp) + bpp <= At(x, y, pitch, bpp)
  {
    if y < v || (y == v && x < u) {
      PixelBefore(x, y, u, v, w, pitch, bpp);
    } else {
      PixelBefore(u, v, x, y, w, pitch, bpp);
    }
  }

  /**
   * The colour GetColor makes of the bytes at d[i..]: 32-bit words are
   * little-endian B, G, R, A; X8R8G8B8 forces alpha to 255; 24-bit is B, G, R
   * with alpha 255; P8 looks the byte up in the palette; L8 repeats the byte.
   * Any other format, or bytes outside the buffer, give the debug colour.
   */
  function Decode(f: Format, d: seq<Byte>, i: int, pal: seq<Word>): Word {
    if !Readable(f) || i < 0 || i + GetBytesFromFormat(f) > |d| then DebugColor
    else match f
      case X8R8G8B8 => Pack(d[i + 2], d[i + 1], d[i], 255)
      case A8R8G8B8 => Pack(d[i + 2], d[i + 1], d[i], d[i + 3])
      case R8G8B8 => Pack(d[i + 2], d[i + 1], d[i], 255)
      case P8 => if d[i] < |pal| then pal[d[i]] else DebugColor
      case L8 => Pack(d[i], d[i], d[i], 255)
  }

  /** The formats without alpha decode opaque, and L8 decodes grey. */
  lemma DecodeChannels(f: Format, d: seq<Byte>, i: int, pal: seq<Word>)
    requires 0 <= i && i + GetBytesFromFormat(f) <= |d|
    ensures var c := Decode(f, d, i, pal);
            (f == L8 || f == R8G8B8 || f == X8R8G8B8 ==> Alpha(c) == 255)
            && (f == L8 ==> Red(c) == Green(c) == Blue(c))
  {
    if f == L8 {
      ChannelsOfPack(d[i], d[i], d[i], 255);
    } else if f == R8G8B8 || f == X8R8G8B8 {
      ChannelsOfPack(d[i + 2], d[i + 1], d[i], 255);
    }
  }

  /** The bytes SetColor stores for colour c. */
  function Encode(f: Format, c: Word): (e: seq<Byte>)
    requires Writable(f)
    ensures |e| == GetBytesFromFormat(f)
  {
    if f == L8 then [Luma(c)]
    else if f == R8G8B8 then [Blue(c), Green(c), Red(c)]
    else [Blue(c), Green(c), Red(c), Alpha(c)]
  }

  /** What GetColor returns after SetColor(c). */
  function Stored(f: Format, c: Word): Word
    requires Writable(f)
  {
    if f == A8R8G8B8 then c
    else if f == L8 then Pack(Luma(c), Luma(c), Luma(c), 255)
    else Pack(Red(c), Green(c), Blue(c), 255)
  }

  /** d with the bytes e written from offset i on. */
  function Splice(d: seq<Byte>, i: int, e: seq<Byte>): (r: seq<Byte>)
    requires 0 <= i && i + |e| <= |d|
    ensures |r| == |d|
    ensures forall k :: 0 <= k < |r| ==> r[k] == if i <= k < i + |e| then e[k - i] else d[k]
  {
    d[..i] + e + d[i + |e|..]
  }

  /** Decoding what Encode wrote gives the colour as SetColor stores it. */
  lemma DecodeEncode(f: Format, c: Word, pal: seq<Word>)
    requires Writable(f)
    ensures Decode(f, Encode(f, c), 0, pal) == Stored(f, c)
  {
    if f == A8R8G8B8 {
      PackOfChannels(c);
    }
  }

  /** A stored colour is stored unchanged a second time. */
  lemma StoredIdempotent(f: Format, c: Word)
    requires Writable(f)
    ensures Stored(f, Stored(f, c)) == Stored(f, c)
  {
    if f == L8 {
      ChannelsOfPack(Luma(c), Luma(c), Luma(c), 255);
    } else if f != A8R8G8B8 {
      ChannelsOfPack(Red(c), Green(c), Blue(c), 255);
    }
  }

  /** Whatever GetColor reads in a writable format is stored by SetColor unchanged. */
  lemma StoredOfDecode(f: Format, d: seq<Byte>, i: int, pal: seq<Word>)
    requires Writable(f) && 0 <= i && i + GetBytesFromFormat(f) <= |d|
    ensures Stored(f, Decode(f, d, i, pal)) == Decode(f, d, i, pal)
  {
    if f == L8 {
      ChannelsOfPack(d[i], d[i], d[i], 255);
    } else if f != A8R8G8B8 {
      ChannelsOfPack(d[i + 2], d[i + 1], d[i], 255);
    }
  }

  /** Exchanging red and blue of a stored colour gives a stored colour. */
  lemma StoredSwapRB(f: Format, c: Word)
    requires Writable(f) && Stored(f, c) == c
    ensures Stored(f, SwapRB(c)) == SwapRB(c)
  {
    ChannelsOfPack(Blue(c), Green(c), Red(c), Alpha(c));
    if f == L8 {
      ChannelsOfPack(Luma(c), Luma(c), Luma(c), 255);
      ChannelsOfPack(Luma(SwapRB(c)), Luma(SwapRB(c)), Luma(SwapRB(c)), 255);
    } else if f != A8R8G8B8 {
      ChannelsOfPack(Red(c), Green(c), Blue(c), 255);
      ChannelsOfPack(Red(SwapRB(c)), Green(SwapRB(c)), Blue(SwapRB(c)), 255);
    }
  }

  /** The n (at most four) bytes at d[i..] and at e[j..] agree. */
  predicate SameBytes(d: seq<Byte>, i: int, e: seq<Byte>, j: int, n: int)
    requires 0 <= i && i + n <= |d| && 0 <= j && j + n <= |e|
  {
    (n > 0 ==> d[i] == e[j]) && (n > 1 ==> d[i + 1] == e[j + 1])
    && (n > 2 ==> d[i + 2] == e[j + 2]) && (n > 3 ==> d[i + 3] == e[j + 3])
  }

  /** A prefix of d holds the same bytes as d below its length. */
  lemma PrefixSameBytes(d: seq<Byte>, n: int, i: int, m: int)
    requires 0 <= i && 0 <= m && i + m <= n <= |d|
    ensures SameBytes(d[..n], i, d, i, m)
  {
  }

  /** Decode reads only the bpp bytes at its offset. */
  lemma DecodeLocal(f: Format, d: seq<Byte>, e: seq<Byte>, i: int, j: int, pal: seq<Word>)
    requires 0 <= i && i + GetBytesFromFormat(f) <= |d| && 0 <= j && j + GetBytesFromFormat(f) <= |e|
    requires SameBytes(d, i, e, j, GetBytesFromFormat(f))
    ensures Decode(f, d, i, pal) == Decode(f, e, j, pal)
  {
  }

  /** Writing bpp bytes at i leaves a pixel elsewhere as it was ... */
  lemma SpliceKeeps(f: Format, d: seq<Byte>, i: int, e: seq<Byte>, j: int, pal: seq<Word>)
    requires 0 <= i && i + |e| <= |d| && |e| == GetBytesFromFormat(f)
    requires 0 <= j && j + |e| <= |d| && (i + |e| <= j || j + |e| <= i)
    ensures Decode(f, Splice(d, i, e), j, pal) == Decode(f, d, j, pal)
  {
    DecodeLocal(f, Splice(d, i, e), d, j, j, pal);
  }

  /** ... and the pixel at i reads as the bytes written. */
  lemma SpliceReads(f: Format, d: seq<Byte>, i: int, e: seq<Byte>, pal: seq<Word>)
    requires 0 <= i && i + |e| <= |d| && |e| == GetBytesFromFormat(f)
    ensures Decode(f, Splice(d, i, e), i, pal) == Decode(f, e, 0, pal)
  {
    DecodeLocal(f, Splice(d, i, e), e, i, 0, pal);
  }

  /** GetColorMirror's index: -x left of the image, 2n - x - 2 right of it. */
  function MirrorIndex(x: int, n: int): int {
    if x < 0 then -x else if x >= n then 2 * n - x - 2 else x
  }

  /** GetColorMirrorDupeEdge's index: -x - 1 left of the image, 2n - x - 1 right of it. */
  function MirrorDupeIndex(x: int, n: int): int {
    if x < 0 then -x - 1 else if x >= n then 2 * n - x - 1 else x
  }

  /** The mirrored index is a valid one exactly for -n < x <= 2n - 2. */
  lemma MirrorIndexRange(x: int, n: int)
    requires n >= 1
    ensures 0 <= MirrorIndex(x, n) < n <==> -n < x <= 2 * n - 2
  {
  }

  /**
   * GetColorMirror reflects about the edge pixel without repeating it: x and -x
   * read the same column, so do n - 1 + d and n - 1 - d, and column -1 reads column 1.
   */
  lemma MirrorIndexReflects(x: int, n: int)
    requires 0 <= x < n
    ensures MirrorIndex(-x, n) == x
    ensures x >= 1 ==> MirrorIndex(n - 1 + x, n) == n - 1 - x
    ensures n >= 2 ==> MirrorIndex(-1, n) == 1 && MirrorIndex(n, n) == n - 2
  {
  }

  /** The duplicating mirror is valid exactly for -n <= x < 2n. */
  lemma MirrorDupeIndexRange(x: int, n: int)
    requires n >= 1
    ensures 0 <= MirrorDupeIndex(x, n) < n <==> -n <= x < 2 * n
  {
  }

  /**
   * GetColorMirrorDupeEdge repeats the edge pixel: -1 - x reads column x, n + x
   * reads column n - 1 - x, so columns -1 and n read the edge columns 0 and n - 1.
   */
  lemma MirrorDupeIndexReflects(x: int, n: int)
    requires 0 <= x < n
    ensures MirrorDupeIndex(-1 - x, n) == x
    ensures MirrorDupeIndex(n + x, n) == n - 1 - x
    ensures MirrorDupeIndex(-1, n) == 0 && MirrorDupeIndex(n, n) == n - 1
  {
  }

  /** Row v after rows y and yy are exchanged holds what row RowSwap(v, y, yy) held. */
  function RowSwap(v: int, y: int, yy: int): int {
    if v == y then yy else if v == yy then y else v
  }

  /** Row v after FlipVertical has handled rows below y and above h - 1 - y. */
  function FlipOutside(v: int, y: int, h: int): int {
    if v < y || v > h - 1 - y then h - 1 - v else v
  }

  /** Exchanging rows y and h - 1 - y extends the flipped band by one row at each end. */
  lemma FlipOutsideStep(v: int, y: int, h: int)
    requires 0 <= y < h - 1 - y && 0 <= v < h
    ensures FlipOutside(RowSwap(v, y, h - 1 - y), y, h) == FlipOutside(v, y + 1, h)
  {
  }

  /** ShittyMip1: the rounded box average of four samples, (a + b + c + d + 2) >> 2. */
  function ShittyMip1(a: Byte, b: Byte, c: Byte, d: Byte): (r: Byte)
    ensures r <= a || r <= b || r <= c || r <= d
    ensures r >= a || r >= b || r >= c || r >= d
    ensures a == b == c == d ==> r == a
  {
    (a + b + c + d + 2) / 4
  }

  /** The buffer size CreateCopy allocates and copies, bpp * width * pitch as written. */
  function CopySizeAsWritten(bpp: int, width: int, pitch: int): int {
    bpp * width * pitch
  }

  /**
   * An 8-bit image one pixel wide, eight rows high with 4-byte rows needs 32
   * bytes, but the copy size as written is 4: rows 1 to 7 are not copied.
   */
  lemma CreateCopyLosesRows()
    ensures var bpp, w, h, pitch := GetBytesFromFormat(L8), 1, 8, 4;
            w * bpp <= pitch && CopySizeAsWritten(bpp, w, pitch) < h * pitch
  {
  }

  /** What a successful decoder leaves in the image. */
  datatype Decoded = Decoded(width: int, height: int, pitch: int, format: Format, pixels: seq<Byte>, palette: Option<seq<Word>>)

  /** The pixel buffer with its geometry, format and palette. */
  class Image {
    var width: int
    var height: int
    var pitch: int
    var format: Format
    var data: Option<seq<Byte>>
    var deleteData: bool
    var palette: Option<seq<Word>>
    var deletePalette: bool

    /** An empty image: no data, no palette, nothing owned. */
    constructor ()
      ensures width == 0 && height == 0 && pitch == 0 && format == UNKNOWN
      ensures data == None && palette == None && !deleteData && !deletePalette
    {
      width, height, pitch, format := 0, 0, 0, UNKNOWN;
      data, palette := None, None;
      deleteData, deletePalette := false, false;
    }

    /**
     * The image describes its buffer: a known pixel size, rows of width pixels
     * fit in the pitch, height rows fit in the data, and a P8 image has its
     * 256-entry palette.
     */
    predicate Valid()
      reads this
    {
      0 <= width && 0 <= height && 0 < GetBytesFromFormat(format)
      && width * GetBytesFromFormat(format) <= pitch
      && data.Some? && height * pitch <= |data.value|
      && (format == P8 ==> palette.Some? && |palette.value| == 256)
    }

    function Pal(): seq<Word>
      reads this
    {
      if palette.Some? then palette.value else []
    }

    /** Byte offset of pixel (x, y); the pixel's bytes lie inside the buffer. */
    function Offset(x: int, y: int): (i: int)
      reads this
      requires Valid() && 0 <= x < width && 0 <= y < height
      ensures i == At(x, y, pitch, GetBytesFromFormat(format))
      ensures 0 <= i && i + GetBytesFromFormat(format) <= |data.value|
    {
      PixelInBuffer(x, y, width, height, pitch, GetBytesFromFormat(format));
      At(x, y, pitch, GetBytesFromFormat(format))
    }

    /**
     * GetColor: the colour of pixel (x, y). The formats without alpha read
     * opaque, L8 reads grey, and a format without a case reads the debug colour.
     */
    function GetColor(x: int, y: int): (c: Word)
      reads this
      requires Valid() && 0 <= x < width && 0 <= y < height
      ensures !Readable(format) ==> c == DebugColor
      ensures format == L8 || format == R8G8B8 || format == X8R8G8B8 ==> Alpha(c) == 255
      ensures format == L8 ==> Red(c) == Green(c) == Blue(c)
    {
      DecodeChannels(format, data.value, Offset(x, y), Pal());
      Decode(format, data.value, Offset(x, y), Pal())
    }

    /** GetColorMirror: GetColor at the mirrored coordinates. */
    function GetColorMirror(x: int, y: int): Word
      reads this
      requires Valid() && -width < x <= 2 * width - 2 && -height < y <= 2 * height - 2
    {
      MirrorIndexRange(x, width);
      MirrorIndexRange(y, height);
      GetColor(MirrorIndex(x, width), MirrorIndex(y, height))
    }

    /** GetColorMirrorDupeEdge: GetColor at the edge-repeating mirrored coordinates. */
    function GetColorMirrorDupeEdge(x: int, y: int): Word
      reads this
      requires Valid() && -width <= x < 2 * width && -height <= y < 2 * height
    {
      MirrorDupeIndexRange(x, width);
      MirrorDupeIndexRange(y, height);
      GetColor(MirrorDupeIndex(x, width), MirrorDupeIndex(y, height))
    }

    /**
     * SetColor: stores c at (x, y) in the pixel's own bytes; (x, y) then reads
     * as the stored colour and every other pixel reads as before.
     */
    method SetColor(x: int, y: int, c: Word)
      requires Valid() && Writable(format) && 0 <= x < width && 0 <= y < height
      modifies this
      ensures Valid()
      ensures width == old(width) && height == old(height) && pitch == old(pitch) && format == old(format)
      ensures palette == old(palette) && deleteData == old(deleteData) && deletePalette == old(deletePalette)
      ensures data == Some(Splice(old(data.value), old(Offset(x, y)), Encode(format, c)))
      ensures GetColor(x, y) == Stored(format, c)
      ensures forall u, v :: 0 <= u < width && 0 <= v < height && (u != x || v != y) ==>
                GetColor(u, v) == old(GetColor(u, v))
    {
      var i := Offset(x, y);
      var e := Encode(format, c);
      var d := data.value;
      data := Some(Splice(d, i, e));
      SpliceReads(format, d, i, e, Pal());
      DecodeEncode(format, c, Pal());
      forall u, v | 0 <= u < width && 0 <= v < height && (u != x || v != y)
        ensures GetColor(u, v) == Decode(format, d, At(u, v, pitch, |e|), Pal())
      {
        PixelsApart(x, y, u, v, width, pitch, |e|);
        PixelInBuffer(u, v, width, height, pitch, |e|);
        SpliceKeeps(format, d, i, e, At(u, v, pitch, |e|), Pal());
      }
    }

    /** Swaps pixel (x, y) with pixel (x, yy). */
    method SwapPixels(x: int, y: int, yy: int)
      requires Valid() && Writable(format) && 0 <= x < width && 0 <= y < height && 0 <= yy < height && y != yy
      modifies this
      ensures Valid()
      ensures width == old(width) && height == old(height) && pitch == old(pitch) && format == old(format)
      ensures palette == old(palette) && deleteData == old(deleteData) && deletePalette == old(deletePalette)
      ensures GetColor(x, y) == old(GetColor(x, yy)) && GetColor(x, yy) == old(GetColor(x, y))
      ensures forall u, v :: 0 <= u < width && 0 <= v < height && !(u == x && (v == y || v == yy)) ==>
                GetColor(u, v) == old(GetColor(u, v))
    {
      var cy := GetColor(x, y);
      var cyy := GetColor(x, yy);
      StoredOfDecode(format, data.value, Offset(x, y), Pal());
      StoredOfDecode(format, data.value, Offset(x, yy), Pal());
      SetColor(x, y, cyy);
      SetColor(x, yy, cy);
    }

    /** Swaps row y with row yy, one pixel at a time. */
    method SwapRows(y: int, yy: int)
      requires Valid() && Writable(format) && 0 <= y < height && 0 <= yy < height && y != yy
      modifies this
      ensures Valid()
      ensures width == old(width) && height == old(height) && pitch == old(pitch) && format == old(format)
      ensures palette == old(palette) && deleteData == old(deleteData) && deletePalette == old(deletePalette)
      ensures forall u, v :: 0 <= u < width && 0 <= v < height ==> GetColor(u, v) == old(GetColor(u, RowSwap(v, y, yy)))
    {
      var x := 0;
      while x < width
        invariant 0 <= x <= width
        invariant Valid()
        invariant width == old(width) && height == old(height) && pitch == old(pitch) && format == old(format)
        invariant palette == old(palette) && deleteData == old(deleteData) && deletePalette == old(deletePalette)
        invariant forall u, v :: 0 <= u < width && 0 <= v < height ==>
                    GetColor(u, v) == old(GetColor(u, if u < x then RowSwap(v, y, yy) else v))
      {
        SwapPixels(x, y, yy);
        x := x + 1;
      }
    }

    /** FlipVertical: row y and row height - 1 - y trade places. */
    method FlipVertical()
      requires Valid() && Writable(format)
      modifies this
      ensures Valid()
      ensures width == old(width) && height == old(height) && pitch == old(pitch) && format == old(format)
      ensures palette == old(palette) && deleteData == old(deleteData) && deletePalette == old(deletePalette)
      ensures forall x, y :: 0 <= x < width && 0 <= y < height ==> GetColor(x, y) == old(GetColor(x, height - 1 - y))
    {
      var y := 0;
      while true
        invariant 0 <= y && y <= height - y
        invariant Valid()
        invariant width == old(width) && height == old(height) && pitch == old(pitch) && format == old(format)
        invariant palette == old(palette) && deleteData == old(deleteData) && deletePalette == old(deletePalette)
        invariant forall u, v :: 0 <= u < width && 0 <= v < height ==> GetColor(u, v) == old(GetColor(u, FlipOutside(v, y, height)))
        decreases height - y
      {
        var yy := height - 1 - y;
        if yy <= y {
          break;
        }
        label before:
        SwapRows(y, yy);
        forall u, v | 0 <= u < width && 0 <= v < height
          ensures GetColor(u, v) == old(GetColor(u, FlipOutside(v, y + 1, height)))
        {
          FlipOutsideStep(v, y, height);
          assert GetColor(u, v) == old@before(GetColor(u, RowSwap(v, y, yy)));
        }
        y := y + 1;
      }
      forall u, v | 0 <= u < width && 0 <= v < height
        ensures GetColor(u, v) == old(GetColor(u, height - 1 - v))
      {
        assert FlipOutside(v, y, height) == height - 1 - v;
      }
    }

    /** SwapBGR on one row. */
    method SwapRowBGR(y: int)
      requires Valid() && Writable(format) && 0 <= y < height
      modifies this
      ensures Valid()
      ensures width == old(width) && height == old(height) && pitch == old(pitch) && format == old(format)
      ensures palette == old(palette) && deleteData == old(deleteData) && deletePalette == old(deletePalette)
      ensures forall u :: 0 <= u < width ==> GetColor(u, y) == SwapRB(old(GetColor(u, y)))
      ensures forall u, v :: 0 <= u < width && 0 <= v < height && v != y ==> GetColor(u, v) == old(GetColor(u, v))
    {
      var x := 0;
      while x < width
        invariant 0 <= x <= width
        invariant Valid()
        invariant width == old(width) && height == old(height) && pitch == old(pitch) && format == old(format)
        invariant palette == old(palette) && deleteData == old(deleteData) && deletePalette == old(deletePalette)
        invariant forall u :: 0 <= u < x ==> GetColor(u, y) == SwapRB(old(GetColor(u, y)))
        invariant forall u, v :: 0 <= u < width && 0 <= v < height && (v != y || u >= x) ==>
                    GetColor(u, v) == old(GetColor(u, v))
      {
        var c := GetColor(x, y);
        StoredOfDecode(format, data.value, Offset(x, y), Pal());
        StoredSwapRB(format, c);
        SetColor(x, y, SwapRB(c));
        x := x + 1;
      }
    }

    /** SwapBGR: every pixel has its red and blue channels exchanged. */
    method SwapBGR()
      requires Valid() && Writable(format)
      modifies this
      ensures Valid()
      ensures width == old(width) && height == old(height) && pitch == old(pitch) && format == old(format)
      ensures palette == old(palette) && deleteData == old(deleteData) && deletePalette == old(deletePalette)
      ensures forall x, y :: 0 <= x < width && 0 <= y < height ==> GetColor(x, y) == SwapRB(old(GetColor(x, y)))
    {
      var y := 0;
      while y < height
        invariant 0 <= y <= height
        invariant Valid()
        invariant width == old(width) && height == old(height) && pitch == old(pitch) && format == old(format)
        invariant palette == old(palette) && deleteData == old(deleteData) && deletePalette == old(deletePalette)
        invariant forall u, v :: 0 <= u < width && 0 <= v < y ==> GetColor(u, v) == SwapRB(old(GetColor(u, v)))
        invariant forall u, v :: 0 <= u < width && y <= v < height ==> GetColor(u, v) == old(GetColor(u, v))
      {
        SwapRowBGR(y);
        y := y + 1;
      }
    }

    /**
     * Transpose: a 24-bit image becomes its transpose, (x, y) reading what
     * (y, x) read, in a fresh owned buffer with tightly packed rows; any
     * other format is left as it is.
     */
    method Transpose()
      requires format == R8G8B8 ==> Valid()
      modifies this
      ensures old(format) != R8G8B8 ==> unchanged(this)
      ensures old(format) == R8G8B8 ==>
                Valid() && format == R8G8B8 && width == old(height) && height == old(width)
                && pitch == width * 3 && deleteData && palette == old(palette) && deletePalette == old(deletePalette)
      ensures old(format) == R8G8B8 ==>
                forall x, y :: 0 <= x < width && 0 <= y < height ==> GetColor(x, y) == old(GetColor(y, x))
    {
      if format != R8G8B8 {
        return;
      }
      var od, oPitch := data.value, pitch;
      var w, h := height, width;
      var nd := TransposedBytes(od, oPitch, w, h);
      width, height := w, h;
      data := Some(nd);
      deleteData := true;
      pitch := w * 3;
      forall x, y | 0 <= x < width && 0 <= y < height
        ensures GetColor(x, y) == Decode(R8G8B8, od, At(y, x, oPitch, 3), Pal())
      {
      }
    }

    /**
     * Force8BitGray: an image not yet L8 becomes an L8 image of the same size
     * whose pixels are the grey levels of the old colours, with pitch equal to
     * the width and no palette; an L8 image is left as it is.
     */
    method Force8BitGray()
      requires Valid()
      modifies this
      ensures old(format) == L8 ==> unchanged(this)
      ensures Valid() && format == L8 && width == old(width) && height == old(height)
      ensures old(format) != L8 ==> pitch == width && deleteData && palette == None && !deletePalette
      ensures forall x, y :: 0 <= x < width && 0 <= y < height ==> GetColor(x, y) == Stored(L8, old(GetColor(x, y)))
    {
      if format == L8 {
        forall x, y | 0 <= x < width && 0 <= y < height
          ensures GetColor(x, y) == Stored(L8, GetColor(x, y))
        {
          StoredOfDecode(L8, data.value, Offset(x, y), Pal());
        }
        return;
      }
      var od, oPitch, oFormat, oPal := data.value, pitch, format, Pal();
      var nd := GrayBytes(od, oPitch, oFormat, oPal, width, height);
      palette := None;
      deletePalette := false;
      format := L8;
      pitch := width;
      data := Some(nd);
      deleteData := true;
      forall x, y | 0 <= x < width && 0 <= y < height
        ensures GetColor(x, y) == Stored(L8, Decode(oFormat, od, At(x, y, oPitch, GetBytesFromFormat(oFormat)), oPal))
      {
      }
    }

    /**
     * CreateCopy, corrected: a new image with the same geometry, format and
     * colours, owning a copy of the height * pitch bytes of pixel data and of
     * the palette.
     */
    static method CreateCopy(from: Image) returns (to: Image)
      ensures fresh(to)
      ensures to.width == from.width && to.height == from.height && to.pitch == from.pitch && to.format == from.format
      ensures to.deleteData && to.deletePalette && to.palette == from.palette
      ensures from.data.None? ==> to.data.None?
      ensures from.Valid() ==> to.Valid() && |to.data.value| == from.height * from.pitch
      ensures from.Valid() ==>
                forall x, y :: 0 <= x < to.width && 0 <= y < to.height ==> to.GetColor(x, y) == from.GetColor(x, y)
    {
      var d: Option<seq<Byte>> := None;
      if from.data.Some? {
        var size := from.height * from.pitch;
        if 0 <= size <= |from.data.value| {
          d := Some(from.data.value[..size]);
        } else {
          d := Some(from.data.value);
        }
      }
      to := new Image.Owning(from.width, from.height, from.pitch, from.format, d, from.palette);
      if from.Valid() {
        PrefixKeepsColors(from.format, from.data.value, from.width, from.height, from.pitch, from.Pal());
      }
    }

    /** An image with the given fields that owns its data and palette. */
    constructor Owning(w: int, h: int, p: int, f: Format, d: Option<seq<Byte>>, pal: Option<seq<Word>>)
      ensures width == w && height == h && pitch == p && format == f && data == d && palette == pal
      ensures deleteData && deletePalette
    {
      width, height, pitch, format := w, h, p, f;
      data, palette := d, pal;
      deleteData, deletePalette := true, true;
    }
  }

  /** The first h rows of a buffer hold the colours of all its pixels. */
  lemma PrefixKeepsColors(f: Format, d: seq<Byte>, w: int, h: int, pitch: int, pal: seq<Word>)
    requires 0 <= w && 0 <= h && 0 < GetBytesFromFormat(f) && w * GetBytesFromFormat(f) <= pitch && h * pitch <= |d|
    ensures forall x, y :: 0 <= x < w && 0 <= y < h ==>
              Decode(f, d[..h * pitch], At(x, y, pitch, GetBytesFromFormat(f)), pal) == Decode(f, d, At(x, y, pitch, GetBytesFromFormat(f)), pal)
  {
    var n := GetBytesFromFormat(f);
    forall x, y | 0 <= x < w && 0 <= y < h
      ensures Decode(f, d[..h * pitch], At(x, y, pitch, n), pal) == Decode(f, d, At(x, y, pitch, n), pal)
    {
      PixelInBuffer(x, y, w, h, pitch, n);
      PrefixSameBytes(d, h * pitch, At(x, y, pitch, n), n);
      DecodeLocal(f, d[..h * pitch], d, At(x, y, pitch, n), At(x, y, pitch, n), pal);
    }
  }

  /**
   * Transpose's loops: a tightly packed 24-bit buffer for a w x h image whose
   * pixel (x, y) holds the three bytes of pixel (y, x) of the old buffer.
   */
  method TransposedBytes(od: seq<Byte>, oPitch: int, w: int, h: int) returns (nd: seq<Byte>)
    requires 0 <= w && 0 <= h && h * 3 <= oPitch && w * oPitch <= |od|
    ensures |nd| == h * (w * 3)
    ensures forall x, y :: 0 <= x < w && 0 <= y < h ==>
              Decode(R8G8B8, nd, At(x, y, w * 3, 3), []) == Decode(R8G8B8, od, At(y, x, oPitch, 3), [])
  {
    nd := seq(h * (w * 3), _ => 0);
    var y := 0;
    while y < h
      invariant 0 <= y <= h && |nd| == h * (w * 3)
      invariant forall u, v :: 0 <= u < w && 0 <= v < y ==>
                  Decode(R8G8B8, nd, At(u, v, w * 3, 3), []) == Decode(R8G8B8, od, At(v, u, oPitch, 3), [])
    {
      var x := 0;
      while x < w
        invariant 0 <= x <= w && |nd| == h * (w * 3)
        invariant forall u, v :: 0 <= u < w && 0 <= v < h && (v < y || (v == y && u < x)) ==>
                    Decode(R8G8B8, nd, At(u, v, w * 3, 3), []) == Decode(R8G8B8, od, At(v, u, oPitch, 3), [])
      {
        nd := TransposeStep(nd, od, oPitch, w, h, x, y);
        x := x + 1;
      }
      y := y + 1;
    }
  }

  /** One pixel of Transpose: p1[0..3] = p2[0..3]. */
  method TransposeStep(nd: seq<Byte>, od: seq<Byte>, oPitch: int, w: int, h: int, x: int, y: int) returns (nd': seq<Byte>)
    requires 0 <= x < w && 0 <= y < h && h * 3 <= oPitch && w * oPitch <= |od| && |nd| == h * (w * 3)
    requires forall u, v :: 0 <= u < w && 0 <= v < h && (v < y || (v == y && u < x)) ==>
               Decode(R8G8B8, nd, At(u, v, w * 3, 3), []) == Decode(R8G8B8, od, At(v, u, oPitch, 3), [])
    ensures |nd'| == h * (w * 3)
    ensures forall u, v :: 0 <= u < w && 0 <= v < h && (v < y || (v == y && u <= x)) ==>
              Decode(R8G8B8, nd', At(u, v, w * 3, 3), []) == Decode(R8G8B8, od, At(v, u, oPitch, 3), [])
  {
    var p1 := At(x, y, w * 3, 3);
    var p2 := At(y, x, oPitch, 3);
    PixelInBuffer(x, y, w, h, w * 3, 3);
    PixelInBuffer(y, x, h, w, oPitch, 3);
    var e := [od[p2], od[p2 + 1], od[p2 + 2]];
    nd' := Splice(nd, p1, e);
    SpliceReads(R8G8B8, nd, p1, e, []);
    DecodeLocal(R8G8B8, e, od, 0, p2, []);
    forall u, v | 0 <= u < w && 0 <= v < h && (v < y || (v == y && u < x))
      ensures Decode(R8G8B8, nd', At(u, v, w * 3, 3), []) == Decode(R8G8B8, nd, At(u, v, w * 3, 3), [])
    {
      PixelsApart(x, y, u, v, w, w * 3, 3);
      PixelInBuffer(u, v, w, h, w * 3, 3);
      SpliceKeeps(R8G8B8, nd, p1, e, At(u, v, w * 3, 3), []);
    }
  }

  /**
   * Force8BitGray's loops: a w x h L8 buffer with pitch w whose pixel (x, y)
   * is the grey level of the old pixel (x, y).
   */
  method GrayBytes(od: seq<Byte>, oPitch: int, oFormat: Format, oPal: seq<Word>, w: int, h: int) returns (nd: seq<Byte>)
    requires 0 <= w && 0 <= h
    ensures |nd| == h * w
    ensures forall x, y :: 0 <= x < w && 0 <= y < h ==>
              Decode(L8, nd, At(x, y, w, 1), []) == Stored(L8, Decode(oFormat, od, At(x, y, oPitch, GetBytesFromFormat(oFormat)), oPal))
  {
    nd := seq(h * w, _ => 0);
    var y := 0;
    while y < h
      invariant 0 <= y <= h && |nd| == h * w
      invariant forall u, v :: 0 <= u < w && 0 <= v < y ==>
                  Decode(L8, nd, At(u, v, w, 1), []) == Stored(L8, Decode(oFormat, od, At(u, v, oPitch, GetBytesFromFormat(oFormat)), oPal))
    {
      var x := 0;
      while x < w
        invariant 0 <= x <= w && |nd| == h * w
        invariant forall u, v :: 0 <= u < w && 0 <= v < h && (v < y || (v == y && u < x)) ==>
                    Decode(L8, nd, At(u, v, w, 1), []) == Stored(L8, Decode(oFormat, od, At(u, v, oPitch, GetBytesFromFormat(oFormat)), oPal))
      {
        nd := GrayStep(nd, od, oPitch, oFormat, oPal, w, h, x, y);
        x := x + 1;
      }
      y := y + 1;
    }
  }

  /** One pixel of Force8BitGray: *ptr++ = L of the old colour. */
  method GrayStep(nd: seq<Byte>, od: seq<Byte>, oPitch: int, oFormat: Format, oPal: seq<Word>, w: int, h: int, x: int, y: int)
    returns (nd': seq<Byte>)
    requires 0 <= x < w && 0 <= y < h && |nd| == h * w
    requires forall u, v :: 0 <= u < w && 0 <= v < h && (v < y || (v == y && u < x)) ==>
               Decode(L8, nd, At(u, v, w, 1), []) == Stored(L8, Decode(oFormat, od, At(u, v, oPitch, GetBytesFromFormat(oFormat)), oPal))
    ensures |nd'| == h * w
    ensures forall u, v :: 0 <= u < w && 0 <= v < h && (v < y || (v == y && u <= x)) ==>
              Decode(L8, nd', At(u, v, w, 1), []) == Stored(L8, Decode(oFormat, od, At(u, v, oPitch, GetBytesFromFormat(oFormat)), oPal))
  {
    var c := Decode(oFormat, od, At(x, y, oPitch, GetBytesFromFormat(oFormat)), oPal);
    var p1 := At(x, y, w, 1);
    PixelInBuffer(x, y, w, h, w, 1);
    var e := Encode(L8, c);
    nd' := Splice(nd, p1, e);
    SpliceReads(L8, nd, p1, e, []);
    DecodeEncode(L8, c, []);
    forall u, v | 0 <= u < w && 0 <= v < h && (v < y || (v == y && u < x))
      ensures Decode(L8, nd', At(u, v, w, 1), []) == Decode(L8, nd, At(u, v, w, 1), [])
    {
      PixelsApart(x, y, u, v, w, w, 1);
      PixelInBuffer(u, v, w, h, w, 1);
      SpliceKeeps(L8, nd, p1, e, At(u, v, w, 1), []);
    }
  }
}
