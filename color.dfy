/**
  ColorDW of Color.h: a 32-bit word holding four 8-bit channels laid out as
  D3D does, A in bits 24..31, R in 16..23, G in 8..15 and B in 0..7.

  The masks and shifts are written as arithmetic on the unsigned word:
  `(c & RMASK) >> RSHIFT` is `c / 2^16 % 256`, and an OR of fields that do
  not overlap is their sum.
*/
module Color {
  import opened CLib
  import opened Util

  /** uint32. */
  type Word = x: int | 0 <= x < 0x1_0000_0000

  /** A channel value in the 0..255 range the setters ASSERT. */
  predicate IsByte(x: int) { 0 <= x <= 255 }

  /** (R << RSHIFT) | (G << GSHIFT) | (B << BSHIFT) | (A << ASHIFT). */
  function Pack(r: int, g: int, b: int, a: int): (w: Word)
    requires IsByte(r) && IsByte(g) && IsByte(b) && IsByte(a)
  {
    a * 0x100_0000 + r * 0x1_0000 + g * 0x100 + b
  }

  /** GetR: (c & RMASK) >> RSHIFT. */
  function Red(c: Word): (r: int)
    ensures IsByte(r)
  {
    c / 0x1_0000 % 0x100
  }

  /** GetG: (c & GMASK) >> GSHIFT. */
  function Green(c: Word): (g: int)
    ensures IsByte(g)
  {
    c / 0x100 % 0x100
  }

  /** GetB: c & BMASK. */
  function Blue(c: Word): (b: int)
    ensures IsByte(b)
  {
    c % 0x100
  }

  /** GetA: (c & AMASK) >> ASHIFT. */
  function Alpha(c: Word): (a: int)
    ensures IsByte(a)
  {
    c / 0x100_0000
  }

  /** Unpacking a packed colour gives back each channel. */
  lemma ChannelsOfPack(r: int, g: int, b: int, a: int)
    requires IsByte(r) && IsByte(g) && IsByte(b) && IsByte(a)
    ensures var w := Pack(r, g, b, a);
            Red(w) == r && Green(w) == g && Blue(w) == b && Alpha(w) == a
  {
    var w := Pack(r, g, b, a);
    DivModUnique(w, 0x100, a * 0x1_0000 + r * 0x100 + g, b);
    DivModUnique(w / 0x100, 0x100, a * 0x100 + r, g);
    DivModUnique(w, 0x1_0000, a * 0x100 + r, g * 0x100 + b);
    DivModUnique(w / 0x1_0000, 0x100, a, r);
    DivModUnique(w, 0x100_0000, a, r * 0x1_0000 + g * 0x100 + b);
  }

  /** Packing the four channels of a word gives the word back. */
  lemma PackOfChannels(c: Word)
    ensures Pack(Red(c), Green(c), Blue(c), Alpha(c)) == c
  {
    var q1 := c / 0x100;
    var q2 := q1 / 0x100;
    var q3 := q2 / 0x100;
    assert c == q1 * 0x100 + c % 0x100;
    assert q1 == q2 * 0x100 + q1 % 0x100;
    assert q2 == q3 * 0x100 + q2 % 0x100;
    DivModUnique(c, 0x1_0000, q2, (q1 % 0x100) * 0x100 + c % 0x100);
    DivModUnique(c, 0x100_0000, q3, (q2 % 0x100) * 0x1_0000 + (q1 % 0x100) * 0x100 + c % 0x100);
  }

  /** Two words are equal exactly when all four channels are. */
  lemma WordChannels(c: Word, d: Word)
    ensures c == d <==> Red(c) == Red(d) && Green(c) == Green(d) && Blue(c) == Blue(d) && Alpha(c) == Alpha(d)
  {
    PackOfChannels(c);
    PackOfChannels(d);
  }

  /** Clamp255: Clamp(i, 0, 255). */
  function Clamp255(i: int): (r: int)
    ensures IsByte(r) && (IsByte(i) <==> r == i)
    ensures i < 0 ==> r == 0
    ensures i > 255 ==> r == 255
  {
    Clamp(i, 0, 255)
  }

  /** DistanceSqr: the sum of the four squared channel differences. */
  function DistanceSqr(fm: Word, to: Word): (d: nat)
    ensures d <= 4 * 255 * 255
  {
    Sq(Red(fm) - Red(to)) + Sq(Green(fm) - Green(to)) + Sq(Blue(fm) - Blue(to)) + Sq(Alpha(fm) - Alpha(to))
  }

  /** DistanceSqrRGB: the same over R, G and B only. */
  function DistanceSqrRGB(fm: Word, to: Word): (d: nat)
    ensures d <= 3 * 255 * 255
  {
    Sq(Red(fm) - Red(to)) + Sq(Green(fm) - Green(to)) + Sq(Blue(fm) - Blue(to))
  }

  /** The square of a channel difference. */
  function Sq(x: int): (s: nat)
    requires -255 <= x <= 255
    ensures s <= 255 * 255 && (s == 0 <==> x == 0)
  {
    if x >= 0 then SqNat(x) else SqNat(-x)
  }

  function SqNat(x: nat): (s: nat)
    requires x <= 255
    ensures s <= 255 * 255 && (s == 0 <==> x == 0)
  {
    SqBound(x);
    x * x
  }

  lemma SqBound(x: nat)
    requires x <= 255
    ensures x * x <= 255 * 255 && (x * x == 0 <==> x == 0)
  {
    MulMonotone(255, x, x);
    MulMonotone(255, x, 255);
    if x > 0 {
      MulGrows(x, x);
    }
  }

  /** Both distances are symmetric; DistanceSqr is zero exactly for equal
      words and DistanceSqrRGB exactly when R, G and B agree. */
  lemma DistanceSqrZero(fm: Word, to: Word)
    ensures DistanceSqr(fm, to) == DistanceSqr(to, fm)
    ensures DistanceSqrRGB(fm, to) == DistanceSqrRGB(to, fm)
    ensures DistanceSqr(fm, to) == 0 <==> fm == to
    ensures DistanceSqrRGB(fm, to) == 0 <==> Red(fm) == Red(to) && Green(fm) == Green(to) && Blue(fm) == Blue(to)
  {
    WordChannels(fm, to);
  }

  /** A colour as ColorDW stores it: the packed word. */
  class ColorDW {
    var color: Word

    /** ColorDW(uint32): the raw word. */
    constructor FromWord(c: Word)
      ensures color == c
    {
      color := c;
    }

    /** ColorDW(R, G, B, A); A defaults to opaque 255. */
    constructor (r: int, g: int, b: int, a: int := 255)
      requires IsByte(r) && IsByte(g) && IsByte(b) && IsByte(a)
      ensures color == Pack(r, g, b, a)
      ensures GetR() == r && GetG() == g && GetB() == b && GetA() == a
    {
      color := Pack(r, g, b, a);
      ChannelsOfPack(r, g, b, a);
    }

    function GetR(): (r: int) reads this ensures IsByte(r) { Red(color) }
    function GetG(): (g: int) reads this ensures IsByte(g) { Green(color) }
    function GetB(): (b: int) reads this ensures IsByte(b) { Blue(color) }
    function GetA(): (a: int) reads this ensures IsByte(a) { Alpha(color) }

    /** Set(R, G, B, A): all four channels at once. */
    method Set(r: int, g: int, b: int, a: int := 255)
      requires IsByte(r) && IsByte(g) && IsByte(b) && IsByte(a)
      modifies this
      ensures color == Pack(r, g, b, a)
      ensures GetR() == r && GetG() == g && GetB() == b && GetA() == a
    {
      color := Pack(r, g, b, a);
      ChannelsOfPack(r, g, b, a);
    }

    /** SetR: (m_color & ~RMASK) | (R << RSHIFT). */
    method SetR(r: int)
      requires IsByte(r)
      modifies this
      ensures GetR() == r
      ensures GetG() == old(GetG()) && GetB() == old(GetB()) && GetA() == old(GetA())
    {
      PackOfChannels(color);
      ChannelsOfPack(r, Green(color), Blue(color), Alpha(color));
      color := color - Red(color) * 0x1_0000 + r * 0x1_0000;
    }

    /** SetG: (m_color & ~GMASK) | (G << GSHIFT). */
    method SetG(g: int)
      requires IsByte(g)
      modifies this
      ensures GetG() == g
      ensures GetR() == old(GetR()) && GetB() == old(GetB()) && GetA() == old(GetA())
    {
      PackOfChannels(color);
      ChannelsOfPack(Red(color), g, Blue(color), Alpha(color));
      color := color - Green(color) * 0x100 + g * 0x100;
    }

    /** SetB: (m_color & ~BMASK) | B. */
    method SetB(b: int)
      requires IsByte(b)
      modifies this
      ensures GetB() == b
      ensures GetR() == old(GetR()) && GetG() == old(GetG()) && GetA() == old(GetA())
    {
      PackOfChannels(color);
      ChannelsOfPack(Red(color), Green(color), b, Alpha(color));
      color := color - Blue(color) + b;
    }

    /** SetA: (m_color & ~AMASK) | (A << ASHIFT). */
    method SetA(a: int)
      requires IsByte(a)
      modifies this
      ensures GetA() == a
      ensures GetR() == old(GetR()) && GetG() == old(GetG()) && GetB() == old(GetB())
    {
      PackOfChannels(color);
      ChannelsOfPack(Red(color), Green(color), Blue(color), a);
      color := color - Alpha(color) * 0x100_0000 + a * 0x100_0000;
    }

    /** operator==: the packed words are equal, so every channel is. */
    function Equals(other: ColorDW): (r: bool)
      reads this, other
      ensures r <==> GetR() == other.GetR() && GetG() == other.GetG() && GetB() == other.GetB() && GetA() == other.GetA()
    {
      WordChannels(color, other.color);
      color == other.color
    }
  }
}
