/**
 * BmpImage::LoadPPM: a Netpbm pixmap, "P3" (decimal samples) or "P6"
 * (binary samples), read by a loop that skips whitespace and '#' comments
 * and assigns each decimal number in turn to the width, the height, the
 * maximum value, then the red, green and blue samples of each pixel.  A P6
 * file switches to its binary samples as soon as the maximum is read.
 * Every pixel becomes an X8R8G8B8 word, stored little-endian.
 */
module BmpPpm {
  import opened Wrappers
  import opened CLib
  import opened Color
  import opened BmpImage
  import opened BmpLoad

  /** The modes of the header and sample loop, in the order it moves through them. */
  const ModeWidth := 0
  const ModeHeight := 1
  const ModeMax := 2
  const ModeR := 3
  const ModeG := 4
  const ModeB := 5

  /** isspace in the C locale: space, \t, \n, \v, \f, \r. */
  predicate IsSpace(b: Byte) { b == 0x20 || 0x09 <= b <= 0x0d }

  predicate IsDigit(b: Byte) { '0' as int <= b <= '9' as int }

  // ---------------------------------------------------------------------------
  // 32-bit words
  // ---------------------------------------------------------------------------

  /** A pixel as the loop writes it through pdw: a uint32, on which | and << act bit by bit. */
  type Px = bv32

  /** c << k on a 32-bit value: the bits shifted past bit 31 are lost. */
  function Shl(c: nat, k: nat): Px
    requires k <= 16
  {
    ((c % 0x1_0000_0000) as bv32) << k
  }

  /** A sample scaled from 0..max to 0..255: u * 255 / max. */
  function Scale(u: nat, max: nat): (c: nat)
    requires max > 0
    ensures u <= max ==> c <= 255
    ensures u == max ==> c == 255
  {
    ScaleBound(u, max);
    u * 255 / max
  }

  lemma ScaleBound(u: nat, max: nat)
    requires max > 0
    ensures u <= max ==> u * 255 / max <= 255
    ensures u == max ==> u * 255 / max == 255
  {
    var n := u * 255;
    var q, rem := n / max, n % max;
    assert n == q * max + rem && 0 <= rem;
    if u <= max && q > 255 {
      MulMonotone(q, 256, max);
      MulMonotone(max, u, 255);
      assert false;
    }
    if u == max {
      DivModUnique(n, max, 255, 0);
    }
  }

  const Opaque: Px := 0xFF00_0000

  /** The word for a binary sample triple at p: ((255 * b0 / max) << 16) | ((255 * b1 / max) << 8) | (255 * b2 / max) | 0xff000000. */
  function BinaryWord(d: seq<Byte>, p: nat, max: nat): Px
    requires p + 3 <= |d| && max > 0
  {
    Shl(Scale(d[p], max), 16) | Shl(Scale(d[p + 1], max), 8) | Shl(Scale(d[p + 2], max), 0) | Opaque
  }

  /** The bytes of a pixel word in memory, least significant first: blue, green, red, alpha. */
  function WordBytes(w: Px): (b: seq<Byte>)
    ensures |b| == 4
  {
    [(w & 0xFF) as int, ((w >> 8) & 0xFF) as int, ((w >> 16) & 0xFF) as int, (w >> 24) as int]
  }

  lemma ByteRoundTrip(x: nat)
    requires x <= 255
    ensures (x as bv32) as int == x && (x as bv32) <= 0xFF
  {
  }

  /** The word ((R << 16) | (G << 8) | B | 0xff000000) of three byte-sized channels. */
  function Pack(R: Px, G: Px, B: Px): Px
  {
    (R << 16) | (G << 8) | B | Opaque
  }

  lemma PackBlue(R: Px, G: Px, B: Px)
    requires R <= 0xFF && G <= 0xFF && B <= 0xFF
    ensures Pack(R, G, B) & 0xFF == B
  {
  }

  lemma PackGreen(R: Px, G: Px, B: Px)
    requires R <= 0xFF && G <= 0xFF && B <= 0xFF
    ensures (Pack(R, G, B) >> 8) & 0xFF == G
  {
  }

  lemma PackRed(R: Px, G: Px, B: Px)
    requires R <= 0xFF && G <= 0xFF && B <= 0xFF
    ensures (Pack(R, G, B) >> 16) & 0xFF == R
  {
  }

  lemma PackAlpha(R: Px, G: Px, B: Px)
    requires R <= 0xFF && G <= 0xFF && B <= 0xFF
    ensures Pack(R, G, B) >> 24 == 0xFF
  {
  }

  lemma ShlByte(c: nat, k: nat)
    requires c <= 255 && k <= 16
    ensures Shl(c, k) == (c as bv32) << k
  {
    assert c % 0x1_0000_0000 == c;
  }

  lemma PackBytes(R: Px, G: Px, B: Px)
    requires R <= 0xFF && G <= 0xFF && B <= 0xFF
    ensures WordBytes(Pack(R, G, B)) == [B as int, G as int, R as int, 255]
  {
    PackBlue(R, G, B);
    PackGreen(R, G, B);
    PackRed(R, G, B);
    PackAlpha(R, G, B);
  }

  /** Samples that do not exceed the maximum fill their own byte: the pixel is blue, green, red, 0xff. */
  lemma ChannelBytes(r: nat, g: nat, b: nat)
    requires r <= 255 && g <= 255 && b <= 255
    ensures WordBytes(Shl(r, 16) | Shl(g, 8) | Shl(b, 0) | Opaque) == [b, g, r, 255]
    ensures WordBytes(((Opaque | Shl(r, 16)) | Shl(g, 8)) | Shl(b, 0)) == [b, g, r, 255]
  {
    ByteRoundTrip(r);
    ByteRoundTrip(g);
    ByteRoundTrip(b);
    ShlByte(r, 16);
    ShlByte(g, 8);
    ShlByte(b, 0);
    var R, G, B := r as bv32, g as bv32, b as bv32;
    PackBytes(R, G, B);
    PackOrder(R << 16, G << 8, B);
  }

  /** OR is associative and commutative: the order the channels are ORed in does not matter. */
  lemma PackOrder(x: Px, y: Px, z: Px)
    ensures ((Opaque | x) | y) | z == x | y | z | Opaque
  {
  }

  /** Whatever is ORed in, a word with 0xff in its top byte keeps it. */
  lemma OrKeepsOpaque(a: Px, b: Px)
    requires a >> 24 == 0xFF
    ensures (a | b) >> 24 == 0xFF && (b | a) >> 24 == 0xFF
  {
  }

  // ---------------------------------------------------------------------------
  // The inner loops
  // ---------------------------------------------------------------------------

  /** The comment loop: the first '\n' from pos on, or the end of the data. */
  function CommentEnd(d: seq<Byte>, pos: nat): (e: nat)
    requires pos <= |d|
    ensures pos <= e <= |d| && (e < |d| ==> d[e] == '\n' as int)
    ensures forall i :: pos <= i < e ==> d[i] != '\n' as int
    decreases |d| - pos
  {
    if pos == |d| || d[pos] == '\n' as int then pos else CommentEnd(d, pos + 1)
  }

  /** The number loop: digits up to whitespace or the end, accumulated into u; None at any other byte. */
  function Number(d: seq<Byte>, pos: nat, u: nat): (r: Option<(nat, nat)>)
    requires pos <= |d|
    ensures r.Some? ==> pos <= r.value.1 <= |d| && (r.value.1 < |d| ==> IsSpace(d[r.value.1]))
    ensures r.Some? && pos < |d| && !IsSpace(d[pos]) ==> r.value.1 > pos
    decreases |d| - pos
  {
    if pos == |d| || IsSpace(d[pos]) then Some((u, pos))
    else if !IsDigit(d[pos]) then None
    else Number(d, pos + 1, u * 10 + (d[pos] - '0' as int))
  }

  /** The value of a string of decimal digits, most significant first. */
  function DecimalValue(s: seq<Byte>): nat
    decreases |s|
  {
    if s == [] then 0
    else
      var v := s[|s| - 1] - '0' as int;
      DecimalValue(s[..|s| - 1]) * 10 + (if v < 0 then 0 else v)
  }

  lemma DecimalSnoc(s: seq<Byte>, c: Byte)
    requires IsDigit(c)
    ensures DecimalValue(s + [c]) == DecimalValue(s) * 10 + (c - '0' as int)
  {
    assert (s + [c])[..|s|] == s;
  }

  /**
   * The number loop, started with the value of the digits from start to pos,
   * ends on the value of all the digits of the token; the token is turned
   * down exactly when it holds a byte that is neither a digit nor whitespace.
   */
  lemma {:induction false} NumberIsDecimal(d: seq<Byte>, start: nat, pos: nat, u: nat)
    requires start <= pos <= |d| && u == DecimalValue(d[start..pos])
    ensures match Number(d, pos, u)
            case Some((v, e)) =>
              (forall i :: pos <= i < e ==> IsDigit(d[i])) && v == DecimalValue(d[start..e])
            case None =>
              exists i :: pos <= i < |d| && !IsDigit(d[i]) && !IsSpace(d[i])
    decreases |d| - pos
  {
    if pos < |d| && !IsSpace(d[pos]) && IsDigit(d[pos]) {
      var u' := u * 10 + (d[pos] - '0' as int);
      assert u' == DecimalValue(d[start..pos + 1]) by {
        assert d[start..pos + 1] == d[start..pos] + [d[pos]];
        DecimalSnoc(d[start..pos], d[pos]);
      }
      assert Number(d, pos, u) == Number(d, pos + 1, u');
      NumberIsDecimal(d, start, pos + 1, u');
    }
  }

  /** The binary sample loop, from pdw on: triples while bytes remain and the buffer is not full. */
  function BinaryFrom(d: seq<Byte>, pos: int, max: nat, buf: seq<Px>, pdw: nat): (r: Result<seq<Px>, Outcome>)
    requires pdw <= |buf| && max > 0
    ensures r.Ok? ==> |r.value| == |buf|
    ensures r.Err? ==> r.error == Rejected || r.error == Undefined(OverRead)
    decreases |buf| - pdw
  {
    if pos == |d| || pdw == |buf| then
      if pdw == |buf| then Ok(buf) else Err(Rejected)
    else if pos < 0 || pos > |d| - 3 then Err(Undefined(OverRead))
    else BinaryFrom(d, pos + 3, max, buf[pdw := BinaryWord(d, pos, max)], pdw + 1)
  }

  /** The binary samples fill the buffer from pdw on with one word per consecutive triple. */
  lemma {:induction false} BinaryFills(d: seq<Byte>, pos: int, max: nat, buf: seq<Px>, pdw: nat)
    requires pdw <= |buf| && max > 0 && BinaryFrom(d, pos, max, buf, pdw).Ok?
    ensures var out := BinaryFrom(d, pos, max, buf, pdw).value;
            (pdw < |buf| ==> 0 <= pos && pos + 3 * (|buf| - pdw) <= |d|)
            && (forall k :: 0 <= k < pdw ==> out[k] == buf[k])
            && (forall k :: pdw <= k < |buf| ==> out[k] == BinaryWord(d, pos + 3 * (k - pdw), max))
    decreases |buf| - pdw
  {
    if pdw < |buf| {
      BinaryFills(d, pos + 3, max, buf[pdw := BinaryWord(d, pos, max)], pdw + 1);
    }
  }

  // ---------------------------------------------------------------------------
  // The outer loop
  // ---------------------------------------------------------------------------

  /** The loop's variables: the read position, the mode, the numbers so far, the pixel words and pdw. */
  datatype Ppm = Ppm(pos: int, mode: nat, width: nat, height: nat, max: nat, buf: seq<Px>, pdw: nat, ascii: bool)

  predicate Inv(s: Ppm) {
    s.pos >= 0 && s.mode <= ModeB && s.pdw <= |s.buf|
    && (s.mode >= ModeHeight ==> s.width > 0)
    && (s.mode >= ModeMax ==> s.width > 0 && s.height > 0 && |s.buf| == s.width * s.height)
    && (s.mode >= ModeR ==> s.max > 0)
    && (s.mode >= ModeG ==> s.pdw < |s.buf|)
  }

  /** The switch on the mode: what a number does, and the mode after it. */
  function Store(s: Ppm, u: nat): (r: Result<Ppm, Outcome>)
    requires Inv(s)
    ensures r.Err? ==> r.error == Rejected
    ensures r.Ok? ==> Inv(r.value) && r.value.pos == s.pos && r.value.ascii == s.ascii
  {
    if s.mode == ModeWidth then
      if u == 0 then Err(Rejected) else Ok(s.(width := u, mode := ModeHeight))
    else if s.mode == ModeHeight then
      if u == 0 then Err(Rejected)
      else Ok(s.(height := u, buf := seq(s.width * u, _ => 0), pdw := 0, mode := ModeMax))
    else if s.mode == ModeMax then
      if u == 0 then Err(Rejected) else Ok(s.(max := u, mode := ModeR))
    else Sample(s, u)
  }

  /** The sample cases of the switch: red starts a word, green and blue are ORed into it, blue moves pdw on. */
  function Sample(s: Ppm, u: nat): (r: Result<Ppm, Outcome>)
    requires Inv(s) && s.mode >= ModeR
    ensures r.Err? ==> r.error == Rejected
    ensures r.Ok? ==> Inv(r.value) && r.value.pos == s.pos && r.value.ascii == s.ascii
  {
    if s.mode == ModeR then
      if s.pdw >= |s.buf| then Err(Rejected)
      else Ok(s.(buf := s.buf[s.pdw := Shl(Scale(u, s.max), 16) | Opaque], mode := ModeG))
    else if s.mode == ModeG then
      Ok(s.(buf := s.buf[s.pdw := s.buf[s.pdw] | Shl(Scale(u, s.max), 8)], mode := ModeB))
    else
      Ok(s.(buf := s.buf[s.pdw := s.buf[s.pdw] | Shl(Scale(u, s.max), 0)], pdw := s.pdw + 1, mode := ModeR))
  }

  /** A P6 file's binary samples: max at most 255, an optional '\r', one separator byte, then the triples. */
  function Binary(d: seq<Byte>, s: Ppm): (r: Result<Ppm, Outcome>)
    requires Inv(s) && s.mode == ModeR
    ensures r.Err? ==> !r.error.Loaded?
  {
    if s.max > 255 then Err(Rejected)
    else
      var p := if |d| - s.pos > 1 && d[s.pos] == '\r' as int then s.pos + 1 else s.pos;
      match BinaryFrom(d, p + 1, s.max, s.buf, s.pdw)
      case Ok(buf) => Ok(s.(buf := buf, pdw := |buf|))
      case Err(o) => Err(o)
  }

  /** The outer loop from s on: the final state when LoadPPM returns true. */
  function PpmFrom(d: seq<Byte>, s: Ppm): (r: Result<Ppm, Outcome>)
    requires Inv(s)
    ensures r.Ok? ==> Inv(r.value) && r.value.mode >= ModeR && r.value.pdw == |r.value.buf|
    ensures r.Err? ==> !r.error.Loaded?
    decreases |d| - s.pos
  {
    if s.pos == |d| then Err(Rejected)
    else if !s.ascii && s.mode == ModeR then Binary(d, s)
    else if s.pos > |d| then Err(Undefined(OverRead))
    else if IsSpace(d[s.pos]) then PpmFrom(d, s.(pos := s.pos + 1))
    else if d[s.pos] == '#' as int then PpmFrom(d, s.(pos := CommentEnd(d, s.pos) + 1))
    else
      match Number(d, s.pos, 0)
      case None => Err(Rejected)
      case Some((u, e)) =>
        match Store(s, u)
        case Err(o) => Err(o)
        case Ok(t) =>
          if s.mode == ModeB && t.pdw == |t.buf| then Ok(t.(pos := e))
          else PpmFrom(d, t.(pos := e))
  }

  /** The pixel words as the bytes of the buffer they were written to. */
  function LeBytes(ws: seq<Px>): (b: seq<Byte>)
    ensures |b| == 4 * |ws|
  {
    if ws == [] then [] else WordBytes(ws[0]) + LeBytes(ws[1..])
  }

  function Start(ascii: bool): Ppm {
    Ppm(2, ModeWidth, 0, 0, 255, [], 0, ascii)
  }

  /** LoadPPM: the magic number, then the loop. */
  /** The image LoadPPM leaves when it returns true. */
  function Image(s: Ppm): Outcome {
    Loaded(Decoded(s.width, s.height, s.width * 4, X8R8G8B8, LeBytes(s.buf), None))
  }

  /** What LoadPPM leaves once its loop has ended as r. */
  function Finish(r: Result<Ppm, Outcome>): Outcome {
    match r
    case Err(o) => o
    case Ok(s) => Image(s)
  }

  function PpmOutcome(d: seq<Byte>): Outcome {
    if |d| < 2 then Rejected
    else if d[0] == 'P' as int && (d[1] == '3' as int || d[1] == '6' as int) then
      Finish(PpmFrom(d, Start(d[1] == '3' as int)))
    else Rejected
  }

  // ---------------------------------------------------------------------------
  // The loops
  // ---------------------------------------------------------------------------

  method SkipComment(d: seq<Byte>, pos: nat) returns (e: nat)
    requires pos <= |d|
    ensures e == CommentEnd(d, pos)
  {
    e := pos;
    while e != |d| && d[e] != '\n' as int
      invariant pos <= e <= |d| && CommentEnd(d, e) == CommentEnd(d, pos)
      decreases |d| - e
    {
      e := e + 1;
    }
  }

  method ReadNumber(d: seq<Byte>, pos: nat) returns (r: Option<(nat, nat)>)
    requires pos <= |d|
    ensures r == Number(d, pos, 0)
  {
    var u: nat := 0;
    var e := pos;
    while e != |d| && !IsSpace(d[e])
      invariant pos <= e <= |d| && Number(d, e, u) == Number(d, pos, 0)
      decreases |d| - e
    {
      if !IsDigit(d[e]) {
        return None;
      }
      u := u * 10 + (d[e] - '0' as int);
      e := e + 1;
    }
    return Some((u, e));
  }

  /** The binary sample loop over the pixel buffer: None when it filled the buffer, else what LoadPPM does instead. */
  method ReadBinary(d: seq<Byte>, pos: int, max: nat, px: array<Px>, pdw: nat) returns (r: Option<Outcome>)
    requires pdw <= px.Length && max > 0
    modifies px
    ensures BinaryFrom(d, pos, max, old(px[..]), pdw) == if r.None? then Ok(px[..]) else Err(r.value)
  {
    var p, q := pos, pdw;
    while p != |d| && q != px.Length
      invariant q <= px.Length
      invariant BinaryFrom(d, p, max, px[..], q) == BinaryFrom(d, pos, max, old(px[..]), pdw)
      decreases px.Length - q
    {
      if p < 0 || p > |d| - 3 {
        return Some(Undefined(OverRead));
      }
      px[q] := BinaryWord(d, p, max);
      p, q := p + 3, q + 1;
    }
    if q != px.Length {
      return Some(Rejected);
    }
    return None;
  }

  /** The loop's variables as the state PpmFrom runs on. */
  ghost function State(pos: int, mode: nat, width: nat, height: nat, max: nat, px: array<Px>, pdw: nat, ascii: bool): Ppm
    reads px
  {
    Ppm(pos, mode, width, height, max, px[..], pdw, ascii)
  }

  /** The binary branch of the loop, which always ends LoadPPM. */
  method FinishBinary(d: seq<Byte>, pos: int, width: nat, height: nat, max: nat, px: array<Px>, pdw: nat) returns (r: Outcome)
    requires Inv(Ppm(pos, ModeR, width, height, max, px[..], pdw, false))
    modifies px
    ensures match Binary(d, Ppm(pos, ModeR, width, height, max, old(px[..]), pdw, false))
            case Err(o) => r == o
            case Ok(t) => r == Image(t)
  {
    if max > 255 {
      return Rejected;
    }
    var p := if |d| - pos > 1 && d[pos] == '\r' as int then pos + 1 else pos;
    var fault := ReadBinary(d, p + 1, max, px, pdw);
    if fault.Some? {
      return fault.value;
    }
    return Loaded(Decoded(width, height, width * 4, X8R8G8B8, LeBytes(px[..]), None));
  }

  /** The header cases of the switch: the width, the height (which allocates the pixels) and the maximum. */
  method StoreHeader(pos: int, mode: nat, width: nat, height: nat, max: nat, px: array<Px>, pdw: nat, ascii: bool, u: nat)
    returns (r: Option<Outcome>, mode1: nat, width1: nat, height1: nat, max1: nat, px1: array<Px>, pdw1: nat)
    requires Inv(Ppm(pos, mode, width, height, max, px[..], pdw, ascii)) && mode < ModeR
    ensures fresh(px1) || px1 == px
    ensures match Store(Ppm(pos, mode, width, height, max, px[..], pdw, ascii), u)
            case Err(o) => r == Some(o)
            case Ok(t) => r.None? && t == Ppm(pos, mode1, width1, height1, max1, px1[..], pdw1, ascii)
  {
    r, mode1, width1, height1, max1, px1, pdw1 := None, mode, width, height, max, px, pdw;
    if u == 0 {
      r := Some(Rejected);
    } else if mode == ModeWidth {
      width1, mode1 := u, ModeHeight;
    } else if mode == ModeHeight {
      height1, mode1 := u, ModeMax;
      px1 := new Px[width * u](_ => 0);
      pdw1 := 0;
      assert px1[..] == seq(width * u, _ => 0);
    } else {
      max1, mode1 := u, ModeR;
    }
  }

  /** Sample on the loop's variables and the pixel buffer. */
  method StoreSample(pos: int, mode: nat, width: nat, height: nat, max: nat, px: array<Px>, pdw: nat, ascii: bool, u: nat)
    returns (r: Option<Outcome>, mode1: nat, pdw1: nat)
    requires Inv(Ppm(pos, mode, width, height, max, px[..], pdw, ascii)) && mode >= ModeR
    modifies px
    ensures match Sample(Ppm(pos, mode, width, height, max, old(px[..]), pdw, ascii), u)
            case Err(o) => r == Some(o)
            case Ok(t) =>
              if mode == ModeB && t.pdw == |t.buf| then r == Some(Image(t))
              else r.None? && t == Ppm(pos, mode1, width, height, max, px[..], pdw1, ascii)
  {
    r, mode1, pdw1 := None, mode, pdw;
    if mode == ModeR && pdw >= px.Length {
      r := Some(Rejected);
      return;
    }
    ghost var s := Ppm(pos, mode, width, height, max, px[..], pdw, ascii);
    var c := Scale(u, max);
    if mode == ModeR {
      var w := Shl(c, 16) | Opaque;
      px[pdw] := w;
      assert px[..] == s.buf[pdw := w];
      mode1 := ModeG;
      assert Sample(s, u) == Ok(Ppm(pos, mode1, width, height, max, px[..], pdw1, ascii));
    } else if mode == ModeG {
      var w := px[pdw] | Shl(c, 8);
      px[pdw] := w;
      assert px[..] == s.buf[pdw := w];
      mode1 := ModeB;
      assert Sample(s, u) == Ok(Ppm(pos, mode1, width, height, max, px[..], pdw1, ascii));
    } else {
      var w := px[pdw] | Shl(c, 0);
      px[pdw] := w;
      assert px[..] == s.buf[pdw := w];
      pdw1 := pdw + 1;
      mode1 := ModeR;
      assert Sample(s, u) == Ok(Ppm(pos, mode1, width, height, max, px[..], pdw1, ascii));
      if pdw1 == px.Length {
        r := Some(Loaded(Decoded(width, height, width * 4, X8R8G8B8, LeBytes(px[..]), None)));
      }
    }
  }

  /** One pass of the loop in the text part: whitespace, a comment, or a number and the switch on the mode.
      Some when LoadPPM returns, else the variables after the pass. */
  method Advance(d: seq<Byte>, pos: int, mode: nat, width: nat, height: nat, max: nat, px: array<Px>, pdw: nat, ascii: bool)
    returns (r: Option<Outcome>, pos1: int, mode1: nat, width1: nat, height1: nat, max1: nat, px1: array<Px>, pdw1: nat)
    requires Inv(Ppm(pos, mode, width, height, max, px[..], pdw, ascii)) && pos < |d| && (ascii || mode != ModeR)
    modifies px
    ensures fresh(px1) || px1 == px
    ensures r.Some? ==> r.value == Finish(PpmFrom(d, Ppm(pos, mode, width, height, max, old(px[..]), pdw, ascii)))
    ensures r.None? ==> pos < pos1 && Inv(Ppm(pos1, mode1, width1, height1, max1, px1[..], pdw1, ascii))
    ensures r.None? ==>
              PpmFrom(d, Ppm(pos1, mode1, width1, height1, max1, px1[..], pdw1, ascii))
              == PpmFrom(d, Ppm(pos, mode, width, height, max, old(px[..]), pdw, ascii))
  {
    ghost var s := Ppm(pos, mode, width, height, max, px[..], pdw, ascii);
    pos1, mode1, width1, height1, max1, px1, pdw1 := pos, mode, width, height, max, px, pdw;
    if IsSpace(d[pos]) {
      pos1 := pos + 1;
      return None, pos1, mode1, width1, height1, max1, px1, pdw1;
    } else if d[pos] == '#' as int {
      var e := SkipComment(d, pos);
      pos1 := e + 1;
      return None, pos1, mode1, width1, height1, max1, px1, pdw1;
    }
    var n := ReadNumber(d, pos);
    if n.None? {
      return Some(Rejected), pos1, mode1, width1, height1, max1, px1, pdw1;
    }
    var (u, e) := n.value;
    if mode < ModeR {
      r, mode1, width1, height1, max1, px1, pdw1 := StoreHeader(pos, mode, width, height, max, px, pdw, ascii, u);
    } else {
      r, mode1, pdw1 := StoreSample(pos, mode, width, height, max, px, pdw, ascii, u);
    }
    pos1 := e;
  }

  method LoadPPM(d: seq<Byte>) returns (r: Outcome)
    ensures r == PpmOutcome(d)
  {
    if |d| < 2 || d[0] != 'P' as int || (d[1] != '3' as int && d[1] != '6' as int) {
      return Rejected;
    }
    var ascii := d[1] == '3' as int;
    var pos: int, mode: nat, width: nat, height: nat, max: nat := 2, ModeWidth, 0, 0, 255;
    var px := new Px[0];
    var pdw: nat := 0;
    while pos != |d|
      invariant fresh(px)
      invariant Inv(State(pos, mode, width, height, max, px, pdw, ascii))
      invariant PpmFrom(d, State(pos, mode, width, height, max, px, pdw, ascii)) == PpmFrom(d, Start(ascii))
      decreases |d| - pos
    {
      if !ascii && mode == ModeR {
        r := FinishBinary(d, pos, width, height, max, px, pdw);
        return;
      }
      if pos > |d| {
        return Undefined(OverRead);
      }
      var done;
      done, pos, mode, width, height, max, px, pdw := Advance(d, pos, mode, width, height, max, px, pdw, ascii);
      if done.Some? {
        return done.value;
      }
    }
    return Rejected;
  }

  // ---------------------------------------------------------------------------
  // What a loaded pixmap looks like
  // ---------------------------------------------------------------------------

  /** Every word written so far, and the one being built, has 0xff in its top byte. */
  predicate Opaq(s: Ppm) {
    (forall k :: 0 <= k < s.pdw && k < |s.buf| ==> s.buf[k] >> 24 == 0xFF)
    && (s.mode >= ModeG && s.pdw < |s.buf| ==> s.buf[s.pdw] >> 24 == 0xFF)
  }

  lemma StoreOpaque(s: Ppm, u: nat)
    requires Inv(s) && Opaq(s) && Store(s, u).Ok?
    ensures Opaq(Store(s, u).value)
  {
    if s.mode >= ModeR {
      var c := Scale(u, s.max);
      if s.mode == ModeR {
        OrKeepsOpaque(Opaque, Shl(c, 16));
      } else if s.mode == ModeG {
        OrKeepsOpaque(s.buf[s.pdw], Shl(c, 8));
      } else {
        OrKeepsOpaque(s.buf[s.pdw], Shl(c, 0));
      }
    }
  }

  lemma {:induction false} BinaryOpaque(d: seq<Byte>, pos: int, max: nat, buf: seq<Px>, pdw: nat)
    requires pdw <= |buf| && max > 0 && BinaryFrom(d, pos, max, buf, pdw).Ok?
    requires forall k :: 0 <= k < pdw ==> buf[k] >> 24 == 0xFF
    ensures forall k :: 0 <= k < |buf| ==> BinaryFrom(d, pos, max, buf, pdw).value[k] >> 24 == 0xFF
    decreases |buf| - pdw
  {
    if pos != |d| && pdw != |buf| {
      var w := BinaryWord(d, pos, max);
      OrKeepsOpaque(Opaque, Shl(Scale(d[pos], max), 16) | Shl(Scale(d[pos + 1], max), 8) | Shl(Scale(d[pos + 2], max), 0));
      BinaryOpaque(d, pos + 3, max, buf[pdw := w], pdw + 1);
    }
  }

  lemma NumberOpaque(d: seq<Byte>, s: Ppm)
    requires Inv(s) && Opaq(s) && s.pos < |d| && Number(d, s.pos, 0).Some?
    requires Store(s, Number(d, s.pos, 0).value.0).Ok?
    ensures Opaq(Store(s, Number(d, s.pos, 0).value.0).value.(pos := Number(d, s.pos, 0).value.1))
  {
    StoreOpaque(s, Number(d, s.pos, 0).value.0);
  }

  lemma BinaryStateOpaque(d: seq<Byte>, s: Ppm)
    requires Inv(s) && Opaq(s) && s.mode == ModeR && Binary(d, s).Ok?
    ensures Opaq(Binary(d, s).value)
  {
    var p := if |d| - s.pos > 1 && d[s.pos] == '\r' as int then s.pos + 1 else s.pos;
    BinaryOpaque(d, p + 1, s.max, s.buf, s.pdw);
  }

  lemma {:induction false} PpmFromOpaque(d: seq<Byte>, s: Ppm)
    requires Inv(s) && Opaq(s) && PpmFrom(d, s).Ok?
    ensures Opaq(PpmFrom(d, s).value)
    decreases |d| - s.pos
  {
    if !s.ascii && s.mode == ModeR && s.pos != |d| {
      assert PpmFrom(d, s) == Binary(d, s);
      BinaryStateOpaque(d, s);
    } else if s.pos < |d| && IsSpace(d[s.pos]) {
      assert PpmFrom(d, s) == PpmFrom(d, s.(pos := s.pos + 1));
      PpmFromOpaque(d, s.(pos := s.pos + 1));
    } else if s.pos < |d| && d[s.pos] == '#' as int {
      assert PpmFrom(d, s) == PpmFrom(d, s.(pos := CommentEnd(d, s.pos) + 1));
      PpmFromOpaque(d, s.(pos := CommentEnd(d, s.pos) + 1));
    } else if s.pos < |d| {
      var (u, e) := Number(d, s.pos, 0).value;
      var t := Store(s, u).value.(pos := e);
      NumberOpaque(d, s);
      if s.mode == ModeB && t.pdw == |t.buf| {
        assert PpmFrom(d, s) == Ok(t);
      } else {
        assert PpmFrom(d, s) == PpmFrom(d, t);
        PpmFromOpaque(d, t);
      }
    }
  }

  /** Word k of the buffer is bytes 4k to 4k+3 of the image. */
  lemma {:induction false} LeBytesWord(ws: seq<Px>, k: nat)
    requires k < |ws|
    ensures LeBytes(ws)[4 * k..4 * k + 4] == WordBytes(ws[k])
  {
    if k > 0 {
      LeBytesWord(ws[1..], k - 1);
      assert LeBytes(ws) == WordBytes(ws[0]) + LeBytes(ws[1..]);
      assert LeBytes(ws)[4 * k..4 * k + 4] == LeBytes(ws[1..])[4 * (k - 1)..4 * (k - 1) + 4];
    }
  }

  /**
   * A PPM that loads is a "P3" or "P6" file; it becomes a width x height
   * X8R8G8B8 image with no palette, 4 * width bytes to a row, and every
   * pixel's fourth byte (the alpha) is 0xff.
   */
  lemma PpmLoadedShape(d: seq<Byte>)
    requires PpmOutcome(d).Loaded?
    ensures |d| >= 2 && d[0] == 'P' as int && (d[1] == '3' as int || d[1] == '6' as int)
    ensures var x := PpmOutcome(d).image;
            x.format == X8R8G8B8 && x.palette == None && x.width > 0 && x.height > 0
            && x.pitch == 4 * x.width && |x.pixels| == x.pitch * x.height
            && forall k :: 0 <= k < x.width * x.height ==> x.pixels[4 * k + 3] == 0xFF
  {
    var s := PpmFrom(d, Start(d[1] == '3' as int)).value;
    PpmFromOpaque(d, Start(d[1] == '3' as int));
    var x := PpmOutcome(d).image;
    assert |x.pixels| == 4 * |s.buf| == x.pitch * x.height;
    forall k | 0 <= k < x.width * x.height
      ensures x.pixels[4 * k + 3] == 0xFF
    {
      LeBytesWord(s.buf, k);
      assert x.pixels[4 * k + 3] == WordBytes(s.buf[k])[3];
    }
  }

  /**
   * A P3 pixel: red, green and blue samples no larger than the maximum are
   * scaled to 0..255 and become the bytes blue, green, red, 0xff of the next
   * word; the other words are untouched.
   */
  lemma RedStep(s: Ppm, r: nat)
    requires Inv(s) && s.mode == ModeR && s.pdw < |s.buf|
    ensures Store(s, r) == Ok(s.(buf := s.buf[s.pdw := Opaque | Shl(Scale(r, s.max), 16)], mode := ModeG))
  {
    assert Shl(Scale(r, s.max), 16) | Opaque == Opaque | Shl(Scale(r, s.max), 16);
  }

  lemma GreenStep(s: Ppm, g: nat)
    requires Inv(s) && s.mode == ModeG
    ensures Store(s, g) == Ok(s.(buf := s.buf[s.pdw := s.buf[s.pdw] | Shl(Scale(g, s.max), 8)], mode := ModeB))
  {
  }

  lemma BlueStep(s: Ppm, b: nat)
    requires Inv(s) && s.mode == ModeB
    ensures Store(s, b) == Ok(s.(buf := s.buf[s.pdw := s.buf[s.pdw] | Shl(Scale(b, s.max), 0)], pdw := s.pdw + 1, mode := ModeR))
  {
  }

  /**
   * A P3 pixel: red, green and blue samples no larger than the maximum are
   * scaled to 0..255 and become the bytes blue, green, red, 0xff of the next
   * word; the other words are untouched.
   */
  lemma AsciiPixel(s: Ppm, r: nat, g: nat, b: nat)
    requires Inv(s) && s.mode == ModeR && s.pdw < |s.buf| && r <= s.max && g <= s.max && b <= s.max
    ensures Store(s, r).Ok? && Store(Store(s, r).value, g).Ok? && Store(Store(Store(s, r).value, g).value, b).Ok?
    ensures var t := Store(Store(Store(s, r).value, g).value, b).value;
            t.mode == ModeR && t.pdw == s.pdw + 1 && |t.buf| == |s.buf|
            && WordBytes(t.buf[s.pdw]) == [Scale(b, s.max), Scale(g, s.max), Scale(r, s.max), 255]
            && forall k :: 0 <= k < |s.buf| && k != s.pdw ==> t.buf[k] == s.buf[k]
  {
    RedStep(s, r);
    var s1 := Store(s, r).value;
    GreenStep(s1, g);
    var s2 := Store(s1, g).value;
    BlueStep(s2, b);
    ChannelBytes(Scale(r, s.max), Scale(g, s.max), Scale(b, s.max));
  }

  /** A P6 pixel: three bytes no larger than the maximum, scaled, become blue, green, red, 0xff. */
  lemma BinaryPixel(d: seq<Byte>, p: nat, max: nat)
    requires p + 3 <= |d| && max > 0 && d[p] <= max && d[p + 1] <= max && d[p + 2] <= max
    ensures WordBytes(BinaryWord(d, p, max)) == [Scale(d[p + 2], max), Scale(d[p + 1], max), Scale(d[p], max), 255]
  {
    ChannelBytes(Scale(d[p], max), Scale(d[p + 1], max), Scale(d[p + 2], max));
  }

  /** A P6 file whose maximum exceeds 255 is turned down when its samples begin. */
  lemma BinaryNeedsByteMax(d: seq<Byte>, s: Ppm)
    requires Inv(s) && !s.ascii && s.mode == ModeR && s.pos != |d| && s.max > 255
    ensures PpmFrom(d, s) == Err(Rejected)
  {
  }
}
