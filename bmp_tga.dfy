/**
 * BmpImage::LoadTGA: a Truevision TGA file with an 18-byte header, an ID
 * field, an optional colour map, then the image rows, raw or run-length
 * encoded, in any of the four row and column orders.  24-bit images are
 * widened to X8R8G8B8 in place once decoded.
 */
module BmpTga {
  import opened Wrappers
  import opened Color
  import opened BmpImage
  import opened BmpLoad
  import BmpRle

  /** sizeof(TGAHEADER), packed. */
  const HeaderSize := 18

  /** x & m on a header byte. */
  function And(x: Byte, m: bv8): nat {
    ((x as bv8) & m) as nat
  }

  /** (bits + 7) >> 3: the bytes a pixel or colour-map entry of that many bits takes. */
  function BytesFor(bits: Byte): (n: nat)
    ensures n <= 32 && (n > 0 <==> bits > 0)
  {
    (bits + 7) / 8
  }

  /** The colour-map entry format ColormapType 1 allows. */
  function ColorMapFormat(bits: Byte): (f: Option<Format>)
    ensures f.Some? ==> BytesFor(bits) == EntryBytes(f.value) == DepthBytes(f.value)
  {
    if bits == 15 then Some(X1R5G5B5)
    else if bits == 16 then Some(A1R5G5B5)
    else if bits == 24 then Some(X8R8G8B8)
    else if bits == 32 then Some(A8R8G8B8)
    else None
  }

  /** The pixel format for ImageType & 3 and PixelDepth. */
  function PixelFormat(kind: nat, depth: Byte, colorMapped: bool): (f: Option<Format>)
    ensures f.Some? ==> BytesFor(depth) == DepthBytes(f.value)
    ensures f == Some(P8) ==> colorMapped
  {
    if kind == 1 then (if colorMapped && depth == 8 then Some(P8) else None)
    else if kind == 2 then ColorMapFormat(depth)
    else if kind == 3 then (if depth == 8 then Some(L8) else None)
    else None
  }

  /** The bytes a pixel of each format LoadTGA produces takes in the file. */
  function DepthBytes(f: Format): nat {
    match f
    case P8 => 1
    case L8 => 1
    case X1R5G5B5 => 2
    case A1R5G5B5 => 2
    case X8R8G8B8 => 3
    case _ => 4
  }

  lemma DepthBytesRange(f: Format)
    ensures 1 <= DepthBytes(f) <= 4 && (f == X8R8G8B8 ==> DepthBytes(f) == 3) && (f == P8 ==> DepthBytes(f) == 1)
  {
  }

  /** What the header says, with where the colour map and the image data start. */
  datatype Tga = Tga(width: nat, height: nat, nBytes: nat, format: Format, rle: bool, topDown: bool, leftToRight: bool,
                     mapFormat: Option<Format>, mapStart: nat, mapIndex: nat, mapLength: nat, mapBytes: nat, image: nat)
  {
    /** m_pitch while decoding: wWidth * nBytes. */
    function Pitch(): nat { width * nBytes }

    /** cbImage: one byte more per pixel for X8R8G8B8, which is widened in place. */
    function ImageBytes(): nat {
      if format == X8R8G8B8 then Pixels() * (nBytes + 1) else Pixels() * nBytes
    }

    function Pixels(): nat { width * height }

    /** Already in the order the buffer wants: copied without conversion. */
    predicate Direct() { !rle && topDown && leftToRight }
  }

  predicate Sane(L: Tga) {
    L.width > 0 && L.height > 0 && 1 <= L.nBytes <= 4
    && (L.format == X8R8G8B8 ==> L.nBytes == 3)
    && (L.format == P8 ==> L.nBytes == 1 && L.mapFormat.Some? && L.mapIndex + L.mapLength <= 256)
    && (L.mapFormat.Some? ==> L.mapBytes == EntryBytes(L.mapFormat.value))
    && L.mapStart + L.mapLength * L.mapBytes == L.image
  }

  /** TGAHEADER, packed: the fields LoadTGA reads (the origin at 8 and 10 is not used). */
  datatype Header = Header(idLength: Byte, colormapType: Byte, imageType: Byte, mapIndex: nat, mapLength: nat,
                           mapBits: Byte, width: nat, height: nat, depth: Byte, descriptor: Byte)

  function ReadHeader(d: seq<Byte>): (h: Header)
    requires |d| >= HeaderSize
    ensures h.mapIndex < 0x1_0000 && h.mapLength < 0x1_0000 && h.width < 0x1_0000 && h.height < 0x1_0000
  {
    Header(d[0], d[1], d[2], U16(d, 3), U16(d, 5), d[7], U16(d, 12), U16(d, 14), d[16], d[17])
  }

  /** The first header checks: colour-map type, image type, size, then the colour-map and pixel formats. */
  function TgaFormats(h: Header): (r: Result<(Format, Option<Format>), Outcome>)
    ensures r.Err? ==> r.error == Rejected
    ensures r.Ok? ==> h.width > 0 && h.height > 0 && BytesFor(h.depth) == DepthBytes(r.value.0)
                      && (r.value.0 == P8 ==> r.value.1.Some?)
                      && (r.value.1.Some? ==> BytesFor(h.mapBits) == EntryBytes(r.value.1.value))
  {
    if And(h.colormapType, !0x01) != 0 then Err(Rejected)
    else if And(h.imageType, !0x0b) != 0 then Err(Rejected)
    else if h.width == 0 || h.height == 0 then Err(Rejected)
    else
      var mapFormat := if h.colormapType != 0 then ColorMapFormat(h.mapBits) else None;
      if h.colormapType != 0 && mapFormat.None? then Err(Rejected)
      else
        var format := PixelFormat(And(h.imageType, 0x03), h.depth, h.colormapType != 0);
        if format.None? then Err(Rejected)
        else Ok((format.value, mapFormat))
  }

  /** The header checks of LoadTGA, in the order it makes them, then the ID field and colour map skipped. */
  function ParseTga(d: seq<Byte>): (r: Result<Tga, Outcome>)
    ensures r.Err? ==> r.error == Rejected
    ensures r.Ok? ==> Sane(r.value) && HeaderSize <= r.value.image <= |d|
    ensures r.Ok? ==> r.value.width == U16(d, 12) && r.value.height == U16(d, 14)
                      && r.value.nBytes == DepthBytes(r.value.format)
  {
    if |d| < HeaderSize then Err(Rejected)
    else
      var h := ReadHeader(d);
      match TgaFormats(h)
      case Err(o) => Err(o)
      case Ok((format, mapFormat)) => TgaLayout(|d|, h, format, mapFormat)
  }

  /** The ID field and the colour map must fit in the size bytes that follow the header; a palette holds 256 entries. */
  function TgaLayout(size: nat, h: Header, format: Format, mapFormat: Option<Format>): (r: Result<Tga, Outcome>)
    requires size >= HeaderSize && h.width > 0 && h.height > 0 && BytesFor(h.depth) == DepthBytes(format)
    requires (format == P8 ==> mapFormat.Some?) && (mapFormat.Some? ==> BytesFor(h.mapBits) == EntryBytes(mapFormat.value))
    ensures r.Err? ==> r.error == Rejected
    ensures r.Ok? ==> Sane(r.value) && HeaderSize <= r.value.image <= size
    ensures r.Ok? ==> r.value.width == h.width && r.value.height == h.height && r.value.format == format
                      && r.value.nBytes == DepthBytes(format)
  {
    var mapStart := HeaderSize + h.idLength;
    var mapBytes := BytesFor(h.mapBits);
    var cbColorMap := h.mapLength * mapBytes;
    if size - HeaderSize < h.idLength then Err(Rejected)
    else if size - mapStart < cbColorMap then Err(Rejected)
    else if format == P8 && h.mapIndex + h.mapLength > 256 then Err(Rejected)
    else
      DepthBytesRange(format);
      Ok(Tga(h.width, h.height, BytesFor(h.depth), format, And(h.imageType, 0x08) != 0,
             And(h.descriptor, 0x20) == 0x20, And(h.descriptor, 0x10) != 0x10,
             mapFormat, mapStart, h.mapIndex, h.mapLength, mapBytes, mapStart + cbColorMap))
  }

  // ---------------------------------------------------------------------------
  // The colour map
  // ---------------------------------------------------------------------------

  function EntryBytes(f: Format): nat {
    match f
    case X1R5G5B5 => 2
    case A1R5G5B5 => 2
    case X8R8G8B8 => 3
    case _ => 4
  }

  /** (x << 3) | (x >> 2): a 5-bit channel widened to 8 bits, its top bits repeated below. */
  function Widen5(x: nat): (v: nat)
    requires x < 32
    ensures IsByte(v) && v / 8 == x && (x == 0 ==> v == 0) && (x == 31 ==> v == 255)
  {
    x * 8 + x / 4
  }

  /** The colour of the colour-map entry at p. */
  function MapEntry(d: seq<Byte>, f: Format, p: nat): (c: Word)
    requires p + EntryBytes(f) <= |d|
  {
    match f
    case X1R5G5B5 =>
      var u := U16(d, p);
      Pack(Widen5(u / 0x400 % 0x20), Widen5(u / 0x20 % 0x20), Widen5(u % 0x20), 0xff)
    case A1R5G5B5 =>
      var u := U16(d, p);
      Pack(Widen5(u / 0x400 % 0x20), Widen5(u / 0x20 % 0x20), Widen5(u % 0x20), (u / 0x8000) * 0xff)
    case X8R8G8B8 =>
      Pack(d[p + 2], d[p + 1], d[p], 0xff)
    case _ =>
      Pack(d[p + 2], d[p + 1], d[p], d[p + 3])
  }

  lemma EntryInside(L: Tga, d: seq<Byte>, i: nat)
    requires Sane(L) && L.format == P8 && L.image <= |d| && i < L.mapLength
    ensures L.mapStart + i * L.mapBytes + EntryBytes(L.mapFormat.value) <= |d|
  {
    MulLe(i + 1, L.mapLength, L.mapBytes);
  }

  /** Palette entry i: colour-map entry i - wColorMapIndex, or the white memset leaves. */
  function PaletteAt(d: seq<Byte>, L: Tga, i: nat): (c: Word)
    requires Sane(L) && L.format == P8 && L.image <= |d|
    ensures !(L.mapIndex <= i < L.mapIndex + L.mapLength) ==> c == 0xFFFF_FFFF
  {
    if L.mapIndex <= i < L.mapIndex + L.mapLength then
      EntryInside(L, d, i - L.mapIndex);
      MapEntry(d, L.mapFormat.value, L.mapStart + (i - L.mapIndex) * L.mapBytes)
    else 0xFFFF_FFFF
  }

  /** The 256 palette entries. */
  function TgaPalette(d: seq<Byte>, L: Tga): (pal: seq<Word>)
    requires Sane(L) && L.format == P8 && L.image <= |d|
    ensures |pal| == 256
  {
    seq(256, i requires 0 <= i < 256 => PaletteAt(d, L, i))
  }

  /** The palette loop: pColor from wColorMapIndex to its limit, pb one entry further each time. */
  method ReadTgaPalette(d: seq<Byte>, L: Tga) returns (pal: array<Word>)
    requires Sane(L) && L.format == P8 && L.image <= |d|
    ensures pal[..] == TgaPalette(d, L)
  {
    pal := new Word[256](_ => 0xFFFF_FFFF);
    var f := L.mapFormat.value;
    var pb := L.mapStart;
    var i := L.mapIndex;
    while i < L.mapIndex + L.mapLength
      invariant L.mapIndex <= i <= L.mapIndex + L.mapLength
      invariant pb == L.mapStart + (i - L.mapIndex) * L.mapBytes
      invariant forall k :: 0 <= k < 256 ==> pal[k] == if i <= k < L.mapIndex + L.mapLength then 0xFFFF_FFFF else PaletteAt(d, L, k)
    {
      EntryInside(L, d, i - L.mapIndex);
      pal[i] := MapEntry(d, f, pb);
      NextEntry(L.mapStart, i - L.mapIndex, L.mapBytes);
      pb := pb + EntryBytes(f);
      i := i + 1;
    }
    assert pal[..] == TgaPalette(d, L);
  }

  lemma NextEntry(start: int, j: int, n: int)
    ensures start + (j + 1) * n == start + j * n + n
  {
  }

  /**
   * A 15- or 16-bit colour-map entry keeps its 5-bit channels as the top bits
   * of each 8-bit channel; its alpha is opaque, or the top bit of the entry
   * for A1R5G5B5.
   */
  lemma MapEntry16(d: seq<Byte>, f: Format, p: nat)
    requires f == X1R5G5B5 || f == A1R5G5B5
    requires p + 2 <= |d|
    ensures var c := MapEntry(d, f, p);
            var u := U16(d, p);
            Red(c) / 8 == u / 0x400 % 0x20 && Green(c) / 8 == u / 0x20 % 0x20 && Blue(c) / 8 == u % 0x20
            && Alpha(c) == (if f == X1R5G5B5 || u >= 0x8000 then 255 else 0)
  {
    var u := U16(d, p);
    var a := if f == X1R5G5B5 then 0xff else (u / 0x8000) * 0xff;
    ChannelsOfPack(Widen5(u / 0x400 % 0x20), Widen5(u / 0x20 % 0x20), Widen5(u % 0x20), a);
  }

  /** A 24-bit colour-map entry is blue, green, red, and opaque; a 32-bit one is the little-endian word. */
  lemma MapEntryBytes(d: seq<Byte>, f: Format, p: nat)
    requires f == X8R8G8B8 || f == A8R8G8B8
    requires p + EntryBytes(f) <= |d|
    ensures var c := MapEntry(d, f, p);
            Red(c) == d[p + 2] && Green(c) == d[p + 1] && Blue(c) == d[p]
            && Alpha(c) == (if f == X8R8G8B8 then 255 else d[p + 3])
            && (f == A8R8G8B8 ==> c == U32(d, p))
  {
    if f == X8R8G8B8 {
      ChannelsOfPack(d[p + 2], d[p + 1], d[p], 0xff);
    } else {
      ChannelsOfPack(d[p + 2], d[p + 1], d[p], d[p + 3]);
    }
  }

  // ---------------------------------------------------------------------------
  // The image rows
  // ---------------------------------------------------------------------------

  /**
   * Where the decoding loops stand: row y, column x (past the packet being
   * copied), the start of the destination row and the destination pixel, the
   * source byte, the pixels the packet still copies, and whether it is a run.
   */
  datatype Pos = Pos(y: nat, x: nat, destY: int, destX: int, src: nat, count: nat, run: bool)

  /** pbDestX at the start of a row: its first pixel, or its last when right to left. */
  function RowStart(L: Tga, destY: int): int {
    if L.leftToRight then destY else destY + L.Pitch() - L.nBytes
  }

  function FirstRow(L: Tga): int {
    if L.topDown then 0 else (L.height - 1) * L.Pitch()
  }

  function Start(L: Tga): Pos {
    Pos(0, 0, FirstRow(L), RowStart(L, FirstRow(L)), L.image, 0, false)
  }

  /** The conversion loops from p on, over the buffer buf. */
  function Walk(d: seq<Byte>, L: Tga, p: Pos, buf: seq<Byte>): (r: Result<seq<Byte>, Outcome>)
    requires Sane(L)
    ensures r.Ok? ==> |r.value| == |buf|
    ensures r.Err? ==> r.error == Rejected || r.error == Undefined(OverWrite)
    decreases L.height - p.y, if p.x < L.width then L.width - p.x else 0, p.count, if p.run then 1 else 0
  {
    if p.y >= L.height then Ok(buf)
    else if p.count > 0 then
      if |d| - p.src < L.nBytes then Err(Rejected)
      else if p.destX < 0 || p.destX + L.nBytes > |buf| then Err(Undefined(OverWrite))
      else
        var next := p.(count := p.count - 1,
                       src := if p.run then p.src else p.src + L.nBytes,
                       destX := if L.leftToRight then p.destX + L.nBytes else p.destX - L.nBytes);
        Walk(d, L, next, BmpRle.Put(buf, p.destX, d[p.src..p.src + L.nBytes]))
    else if p.run then
      Walk(d, L, p.(src := p.src + L.nBytes, run := false), buf)
    else if p.x < L.width then
      if L.rle then
        if p.src >= |d| then Err(Rejected)
        else
          var count := d[p.src] % 0x80 + 1;
          Walk(d, L, p.(run := d[p.src] >= 0x80, count := count, x := p.x + count, src := p.src + 1), buf)
      else
        Walk(d, L, p.(count := L.width, x := p.x + L.width), buf)
    else
      var destY := if L.topDown then p.destY + L.Pitch() else p.destY - L.Pitch();
      Walk(d, L, Pos(p.y + 1, 0, destY, RowStart(L, destY), p.src, 0, false), buf)
  }

  /** The bytes as decoded, before X8R8G8B8 is widened. */
  function TgaRows(d: seq<Byte>, L: Tga): (r: Result<seq<Byte>, Outcome>)
    requires Sane(L) && L.image <= |d|
    ensures r.Ok? ==> |r.value| == L.ImageBytes()
  {
    var n := L.ImageBytes();
    if L.Direct() then
      var m := if |d| - L.image < n then |d| - L.image else n;
      Ok(d[L.image..L.image + m] + Zeros(n - m))
    else
      Walk(d, L, Start(L), Zeros(n))
  }

  // ---------------------------------------------------------------------------
  // Widening 24-bit pixels
  // ---------------------------------------------------------------------------

  /** One step of the widening loop: pixel j's three bytes moved to 4j and an opaque alpha after them. */
  function Widen(buf: seq<Byte>, j: nat): (r: seq<Byte>)
    requires 4 * j + 4 <= |buf|
    ensures |r| == |buf|
  {
    var b3 := buf[4 * j + 3 := 0xff];
    var b2 := b3[4 * j + 2 := b3[3 * j + 2]];
    var b1 := b2[4 * j + 1 := b2[3 * j + 1]];
    b1[4 * j := b1[3 * j]]
  }

  /** The widening loop from the last of the first k pixels down to the first. */
  function WidenDown(buf: seq<Byte>, k: nat): (r: seq<Byte>)
    requires 4 * k <= |buf|
    ensures |r| == |buf|
    decreases k
  {
    if k == 0 then buf else WidenDown(Widen(buf, k - 1), k - 1)
  }

  function Quad(s: seq<Byte>, j: nat): seq<Byte>
    requires 4 * j + 4 <= |s|
  {
    s[4 * j..4 * j + 4]
  }

  function Triple(s: seq<Byte>, j: nat): seq<Byte>
    requires 3 * j + 3 <= |s|
  {
    s[3 * j..3 * j + 3]
  }

  /**
   * Widening from pixel k - 1 down, when the bytes below 3k are still the
   * packed pixels and pixel k on are already widened, widens every pixel:
   * walking backwards never overwrites a packed byte before it is read.
   */
  lemma {:induction false} WidenDownFrom(cur: seq<Byte>, orig: seq<Byte>, k: nat, m: nat)
    requires |cur| == 4 * m && |orig| == 4 * m && k <= m
    requires forall i :: 0 <= i < 3 * k ==> cur[i] == orig[i]
    requires forall j :: k <= j < m ==> Quad(cur, j) == Triple(orig, j) + [0xff]
    ensures forall j :: 0 <= j < m ==> Quad(WidenDown(cur, k), j) == Triple(orig, j) + [0xff]
    decreases k
  {
    if k > 0 {
      var next := Widen(cur, k - 1);
      assert Quad(next, k - 1) == Triple(orig, k - 1) + [0xff];
      forall j | k <= j < m
        ensures Quad(next, j) == Triple(orig, j) + [0xff]
      {
        assert Quad(next, j) == Quad(cur, j);
      }
      WidenDownFrom(next, orig, k - 1, m);
    }
  }

  /** Widening every pixel of a 4m-byte buffer gives each its three bytes and alpha 0xff. */
  lemma WidenAll(buf: seq<Byte>, m: nat)
    requires |buf| == 4 * m
    ensures forall j :: 0 <= j < m ==> Quad(WidenDown(buf, m), j) == Triple(buf, j) + [0xff]
  {
    WidenDownFrom(buf, buf, m, m);
  }

  /** The in-place conversion from 24-bit to X8R8G8B8: pSrc and pDst walk back from the last pixel. */
  method WidenInPlace(a: array<Byte>, m: nat)
    requires a.Length == 4 * m
    modifies a
    ensures a[..] == WidenDown(old(a[..]), m)
  {
    var src := 3 * m - 3;
    var dst := 4 * m - 4;
    ghost var k := m;
    while src >= 0
      invariant 0 <= k <= m && src == 3 * k - 3 && dst == 4 * k - 4
      invariant WidenDown(a[..], k) == WidenDown(old(a[..]), m)
      decreases k
    {
      WidenPixel(a, src, dst, k - 1);
      src := src - 3;
      dst := dst - 4;
      k := k - 1;
    }
  }

  /** One iteration of the widening loop, in the order the C++ writes the four bytes. */
  method WidenPixel(a: array<Byte>, src: int, dst: int, ghost j: nat)
    requires src == 3 * j && dst == 4 * j && dst + 4 <= a.Length
    modifies a
    ensures a[..] == Widen(old(a[..]), j)
  {
    a[dst + 3] := 0xff;
    ghost var b3 := a[..];
    a[dst + 2] := a[src + 2];
    ghost var b2 := a[..];
    assert b2 == b3[4 * j + 2 := b3[3 * j + 2]];
    a[dst + 1] := a[src + 1];
    ghost var b1 := a[..];
    assert b1 == b2[4 * j + 1 := b2[3 * j + 1]];
    a[dst] := a[src];
    assert a[..] == b1[4 * j := b1[3 * j]];
  }

  // ---------------------------------------------------------------------------
  // LoadTGA
  // ---------------------------------------------------------------------------

  /** LoadTGA: the header, the palette of a P8 image, the rows, then the widening of 24-bit pixels. */
  function TgaOutcome(d: seq<Byte>): Outcome {
    match ParseTga(d)
    case Err(o) => o
    case Ok(L) =>
      var pal := if L.format == P8 then Some(TgaPalette(d, L)) else None;
      match TgaRows(d, L)
      case Err(o) => o
      case Ok(buf) =>
        if L.format == X8R8G8B8 then
          Loaded(Decoded(L.width, L.height, L.width * (L.nBytes + 1), L.format, WidenDown(buf, L.Pixels()), pal))
        else
          Loaded(Decoded(L.width, L.height, L.Pitch(), L.format, buf, pal))
  }

  /** memcpy(dest, src, n) into the pixel buffer. */
  method Copy(d: seq<Byte>, s: nat, a: array<Byte>, p: nat, n: nat)
    requires s + n <= |d| && p + n <= a.Length
    modifies a
    ensures a[..] == BmpRle.Put(old(a[..]), p, d[s..s + n])
  {
    ghost var a0 := a[..];
    for i := 0 to n
      invariant forall k :: 0 <= k < a.Length ==> a[k] == if p <= k < p + i then d[s + k - p] else a0[k]
    {
      a[p + i] := d[s + i];
    }
    BmpRle.PutAt(a0, p, d[s..s + n]);
  }

  /** One pixel of a packet: the source check, then the copy and both cursors moved. */
  method CopyPixel(d: seq<Byte>, L: Tga, a: array<Byte>, p: Pos) returns (r: Option<Outcome>, next: Pos)
    requires Sane(L) && p.y < L.height && p.count > 0
    modifies a
    ensures r.Some? ==> Walk(d, L, p, old(a[..])) == Err(r.value)
    ensures r.None? ==> next == p.(count := next.count, src := next.src, destX := next.destX) && next.count == p.count - 1
    ensures r.None? ==> Walk(d, L, next, a[..]) == Walk(d, L, p, old(a[..]))
  {
    next := p;
    if |d| - p.src < L.nBytes {
      return Some(Rejected), next;
    }
    if p.destX < 0 || p.destX + L.nBytes > a.Length {
      return Some(Undefined(OverWrite)), next;
    }
    Copy(d, p.src, a, p.destX, L.nBytes);
    next := p.(count := p.count - 1,
               src := if p.run then p.src else p.src + L.nBytes,
               destX := if L.leftToRight then p.destX + L.nBytes else p.destX - L.nBytes);
    return None, next;
  }

  /** One packet: its header (or the whole row when not run-length encoded), then its pixels. */
  method CopyPacket(d: seq<Byte>, L: Tga, a: array<Byte>, p: Pos) returns (r: Option<Outcome>, next: Pos)
    requires Sane(L) && p.y < L.height && p.x < L.width && p.count == 0 && !p.run
    modifies a
    ensures r.Some? ==> Walk(d, L, p, old(a[..])) == Err(r.value)
    ensures r.None? ==> next.y == p.y && next.destY == p.destY && next.count == 0 && !next.run && next.x > p.x
    ensures r.None? ==> Walk(d, L, next, a[..]) == Walk(d, L, p, old(a[..]))
  {
    var q := p;
    if L.rle {
      if p.src >= |d| {
        return Some(Rejected), p;
      }
      var count := d[p.src] % 0x80 + 1;
      q := p.(run := d[p.src] >= 0x80, count := count, x := p.x + count, src := p.src + 1);
    } else {
      q := p.(count := L.width, x := p.x + L.width);
    }
    while q.count > 0
      invariant q.y == p.y && q.x > p.x && q.destY == p.destY
      invariant Walk(d, L, q, a[..]) == Walk(d, L, p, old(a[..]))
      decreases q.count
    {
      r, q := CopyPixel(d, L, a, q);
      if r.Some? {
        return r, q;
      }
    }
    if q.run {
      q := q.(src := q.src + L.nBytes, run := false);
    }
    return None, q;
  }

  /**
   * The conversion loops of LoadTGA for compressed or reordered images:
   * rows from the top or the bottom, pixels from the left or the right,
   * packets that may run on past the end of a row.
   */
  method DecodeTgaRows(d: seq<Byte>, L: Tga, a: array<Byte>) returns (r: Option<Outcome>)
    requires Sane(L)
    modifies a
    ensures match Walk(d, L, Start(L), old(a[..]))
            case Ok(b) => r.None? && a[..] == b
            case Err(o) => r == Some(o)
  {
    var p := Start(L);
    while p.y < L.height
      invariant p.x == 0 && p.count == 0 && !p.run && p.destX == RowStart(L, p.destY)
      invariant Walk(d, L, p, a[..]) == Walk(d, L, Start(L), old(a[..]))
      decreases L.height - p.y
    {
      ghost var y := p.y;
      while p.x < L.width
        invariant p.y == y < L.height && p.count == 0 && !p.run
        invariant Walk(d, L, p, a[..]) == Walk(d, L, Start(L), old(a[..]))
        decreases L.width - p.x
      {
        r, p := CopyPacket(d, L, a, p);
        if r.Some? {
          return r;
        }
      }
      var destY := if L.topDown then p.destY + L.Pitch() else p.destY - L.Pitch();
      p := Pos(p.y + 1, 0, destY, RowStart(L, destY), p.src, 0, false);
    }
    return None;
  }

  /** The image data: a copy when already in order, otherwise the conversion loops. */
  method DecodeTgaPixels(d: seq<Byte>, L: Tga) returns (r: Result<array<Byte>, Outcome>)
    requires Sane(L) && L.image <= |d|
    ensures match TgaRows(d, L)
            case Ok(b) => r.Ok? && fresh(r.value) && r.value[..] == b
            case Err(o) => r == Err(o)
  {
    var n := L.ImageBytes();
    var a := new Byte[n](_ => 0);
    assert a[..] == Zeros(n);
    if L.Direct() {
      var m := if |d| - L.image < n then |d| - L.image else n;
      Copy(d, L.image, a, 0, m);
      assert a[..] == d[L.image..L.image + m] + Zeros(n - m);
    } else {
      var fault := DecodeTgaRows(d, L, a);
      if fault.Some? {
        return Err(fault.value);
      }
    }
    return Ok(a);
  }

  method LoadTGA(d: seq<Byte>) returns (r: Outcome)
    ensures r == TgaOutcome(d)
  {
    var parsed := ParseTga(d);
    if parsed.Err? {
      return parsed.error;
    }
    var L := parsed.value;
    var pal: Option<seq<Word>> := None;
    if L.format == P8 {
      var p := ReadTgaPalette(d, L);
      pal := Some(p[..]);
    }
    var pixels := DecodeTgaPixels(d, L);
    if pixels.Err? {
      return pixels.error;
    }
    var a := pixels.value;
    if L.format == X8R8G8B8 {
      var m := L.Pixels();
      assert a.Length == 4 * m;
      WidenInPlace(a, m);
      return Loaded(Decoded(L.width, L.height, L.width * (L.nBytes + 1), L.format, a[..], pal));
    }
    return Loaded(Decoded(L.width, L.height, L.Pitch(), L.format, a[..], pal));
  }

  // ---------------------------------------------------------------------------
  // What LoadTGA accepts and what it leaves
  // ---------------------------------------------------------------------------

  /** The header checks: no magic number, so these are all LoadTGA has to turn a file down early. */
  lemma TgaChecks(d: seq<Byte>)
    ensures |d| < HeaderSize ==> TgaOutcome(d) == Rejected
    ensures ParseTga(d).Ok? ==>
              d[1] <= 1 && d[2] in {1, 2, 3, 9, 10, 11} && U16(d, 12) > 0 && U16(d, 14) > 0
              && (d[1] == 1 ==> d[7] in {15, 16, 24, 32})
              && (d[2] % 4 == 1 ==> d[1] == 1 && d[16] == 8)
              && (d[2] % 4 == 2 ==> d[16] in {15, 16, 24, 32})
              && (d[2] % 4 == 3 ==> d[16] == 8)
              && HeaderSize + d[0] + U16(d, 5) * BytesFor(d[7]) <= |d|
              && ParseTga(d).value.rle == (d[2] >= 8)
  {
    if ParseTga(d).Ok? {
      TypeBits(d[1], d[2]);
    }
  }

  /** The image-type bits LoadTGA allows, as values. */
  lemma TypeBits(cmType: Byte, imageType: Byte)
    requires And(cmType, !0x01) == 0 && And(imageType, !0x0b) == 0
    ensures cmType <= 1 && imageType in {0, 1, 2, 3, 8, 9, 10, 11}
    ensures And(imageType, 0x03) == imageType % 4 && (And(imageType, 0x08) != 0 <==> imageType >= 8)
  {
    var c := cmType as bv8;
    var t := imageType as bv8;
    assert c & !0x01 == 0;
    assert t & !0x0b == 0;
    assert c <= 1;
    assert t == 0 || t == 1 || t == 2 || t == 3 || t == 8 || t == 9 || t == 10 || t == 11;
  }

  /**
   * A loaded TGA has the width and height of its header, rows of width
   * pixels of the format's size (four bytes once 24-bit pixels are widened),
   * height rows of data, and a 256-entry palette exactly when it is P8.
   */
  lemma TgaLoadedShape(d: seq<Byte>)
    requires TgaOutcome(d).Loaded?
    ensures var x := TgaOutcome(d).image;
            x.width == U16(d, 12) > 0 && x.height == U16(d, 14) > 0
            && x.format in {P8, L8, X1R5G5B5, A1R5G5B5, X8R8G8B8, A8R8G8B8}
            && x.pitch == x.width * (if x.format in {X1R5G5B5, A1R5G5B5} then 2 else if x.format in {P8, L8} then 1 else 4)
            && |x.pixels| == x.height * x.pitch
            && (x.palette.Some? <==> x.format == P8)
            && (x.palette.Some? ==> |x.palette.value| == 256)
  {
    var L := ParseTga(d).value;
    var rows := TgaRows(d, L).value;
    var x := TgaOutcome(d).image;
    var b := if L.format == X8R8G8B8 then 4 else L.nBytes;
    assert x.width == L.width && x.height == L.height && x.format == L.format;
    assert x.pitch == L.width * b;
    assert |x.pixels| == |rows| == L.ImageBytes();
    SizeOfRows(L.width, L.height, b);
  }

  lemma SizeOfRows(w: nat, h: nat, b: nat)
    ensures w * h * b == h * (w * b)
  {
  }

  /** Every widened X8R8G8B8 pixel holds the three bytes decoded for it and an opaque alpha. */
  lemma TgaWidened(d: seq<Byte>)
    requires TgaOutcome(d).Loaded? && TgaOutcome(d).image.format == X8R8G8B8
    ensures var L := ParseTga(d).value;
            var x := TgaOutcome(d).image;
            var rows := TgaRows(d, L).value;
            |rows| == |x.pixels| == 4 * L.Pixels()
            && forall j :: 0 <= j < L.Pixels() ==> Quad(x.pixels, j) == Triple(rows, j) + [0xff]
  {
    var L := ParseTga(d).value;
    WidenAll(TgaRows(d, L).value, L.Pixels());
  }

  /** An image that is not copied as is needs at least one byte after the colour map. */
  lemma TgaNoImageData(d: seq<Byte>)
    requires ParseTga(d).Ok? && !ParseTga(d).value.Direct() && ParseTga(d).value.image == |d|
    ensures TgaOutcome(d) == Rejected
  {
    var L := ParseTga(d).value;
    var n := L.ImageBytes();
    var p := Start(L);
    if L.rle {
      assert Walk(d, L, p, Zeros(n)) == Err(Rejected);
    } else {
      var q := p.(count := L.width, x := p.x + L.width);
      assert Walk(d, L, q, Zeros(n)) == Err(Rejected);
      assert Walk(d, L, p, Zeros(n)) == Walk(d, L, q, Zeros(n));
    }
  }
}
