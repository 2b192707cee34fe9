/**
  The LOCO-I colour transforms of ColorConversions.cpp: R and B are stored
  as their offsets from G, biased by 128 and wrapped to a byte.  `x & 0xFF`
  on a two's-complement int is `x % 256`.
*/
module ColorConversions {
  import opened CLib
  import opened Color

  /** (x & 0xFF) on an int. */
  function LowByte(x: int): (b: int)
    ensures IsByte(b)
  {
    x % 256
  }

  /** ColorDW((R - G + 128) & 0xFF, G, (B - G + 128) & 0xFF, A). */
  function LocoPack(r: int, g: int, b: int, a: int): (d: Word)
    requires IsByte(r) && IsByte(g) && IsByte(b) && IsByte(a)
  {
    Pack(LowByte(r - g + 128), g, LowByte(b - g + 128), a)
  }

  /** ColorDW((R + G - 128) & 0xFF, G, (B + G - 128) & 0xFF, A). */
  function LocoInversePack(r: int, g: int, b: int, a: int): (d: Word)
    requires IsByte(r) && IsByte(g) && IsByte(b) && IsByte(a)
  {
    Pack(LowByte(r + g - 128), g, LowByte(b + g - 128), a)
  }

  /** ColorTransformLocoWrap: {R, G, B, A} -> {(R - G + 128) & 0xFF, G, (B - G + 128) & 0xFF, A}. */
  function LocoWrap(c: Word): Word
  {
    LocoPack(Red(c), Green(c), Blue(c), Alpha(c))
  }

  /** ColorTransformLocoWrapInverse: {R', G, B', A} -> {(R' + G - 128) & 0xFF, G, (B' + G - 128) & 0xFF, A}. */
  function LocoWrapInverse(c: Word): Word
  {
    LocoInversePack(Red(c), Green(c), Blue(c), Alpha(c))
  }

  /** Both transforms keep G and A; R and B become their wrapped offsets
      from G and back. */
  lemma LocoChannels(c: Word)
    ensures var d := LocoWrap(c);
            Green(d) == Green(c) && Alpha(d) == Alpha(c) &&
            Red(d) == LowByte(Red(c) - Green(c) + 128) && Blue(d) == LowByte(Blue(c) - Green(c) + 128)
    ensures var e := LocoWrapInverse(c);
            Green(e) == Green(c) && Alpha(e) == Alpha(c) &&
            Red(e) == LowByte(Red(c) + Green(c) - 128) && Blue(e) == LowByte(Blue(c) + Green(c) - 128)
  {
    LocoPackChannels(Red(c), Green(c), Blue(c), Alpha(c));
  }

  lemma LocoPackChannels(r: int, g: int, b: int, a: int)
    requires IsByte(r) && IsByte(g) && IsByte(b) && IsByte(a)
    ensures var d := LocoPack(r, g, b, a);
            Green(d) == g && Alpha(d) == a && Red(d) == LowByte(r - g + 128) && Blue(d) == LowByte(b - g + 128)
    ensures var e := LocoInversePack(r, g, b, a);
            Green(e) == g && Alpha(e) == a && Red(e) == LowByte(r + g - 128) && Blue(e) == LowByte(b + g - 128)
  {
    ChannelsOfPack(LowByte(r - g + 128), g, LowByte(b - g + 128), a);
    ChannelsOfPack(LowByte(r + g - 128), g, LowByte(b + g - 128), a);
  }

  /** Undoing the offset of a byte gives the byte back. */
  lemma LowByteRoundTrip(x: int, g: int)
    requires IsByte(x)
    ensures LowByte(LowByte(x - g + 128) + g - 128) == x
    ensures LowByte(LowByte(x + g - 128) - g + 128) == x
  {
    var q := (x - g + 128) / 256;
    assert LowByte(x - g + 128) + g - 128 == q * -256 + x;
    DivModUnique(q * -256 + x, 256, -q, x);
    var p := (x + g - 128) / 256;
    assert LowByte(x + g - 128) - g + 128 == p * -256 + x;
    DivModUnique(p * -256 + x, 256, -p, x);
  }

  /** On channels: the inverse undoes the transform and the other way round. */
  lemma LocoPackRoundTrip(r: int, g: int, b: int, a: int)
    requires IsByte(r) && IsByte(g) && IsByte(b) && IsByte(a)
    ensures var d := LocoPack(r, g, b, a);
            LocoInversePack(Red(d), Green(d), Blue(d), Alpha(d)) == Pack(r, g, b, a)
    ensures var e := LocoInversePack(r, g, b, a);
            LocoPack(Red(e), Green(e), Blue(e), Alpha(e)) == Pack(r, g, b, a)
  {
    InverseUndoesLoco(r, g, b, a);
    LocoUndoesInverse(r, g, b, a);
    ChannelsOfPack(LowByte(r - g + 128), g, LowByte(b - g + 128), a);
    ChannelsOfPack(LowByte(r + g - 128), g, LowByte(b + g - 128), a);
  }

  lemma InverseUndoesLoco(r: int, g: int, b: int, a: int)
    requires IsByte(r) && IsByte(g) && IsByte(b) && IsByte(a)
    ensures LocoInversePack(LowByte(r - g + 128), g, LowByte(b - g + 128), a) == Pack(r, g, b, a)
  {
    LowByteRoundTrip(r, g);
    LowByteRoundTrip(b, g);
  }

  lemma LocoUndoesInverse(r: int, g: int, b: int, a: int)
    requires IsByte(r) && IsByte(g) && IsByte(b) && IsByte(a)
    ensures LocoPack(LowByte(r + g - 128), g, LowByte(b + g - 128), a) == Pack(r, g, b, a)
  {
    LowByteRoundTrip(r, g);
    LowByteRoundTrip(b, g);
  }

  /** The two transforms are inverse to each other on every colour. */
  lemma LocoRoundTrip(c: Word)
    ensures LocoWrapInverse(LocoWrap(c)) == c
    ensures LocoWrap(LocoWrapInverse(c)) == c
  {
    LocoPackRoundTrip(Red(c), Green(c), Blue(c), Alpha(c));
    PackOfChannels(c);
  }
}
