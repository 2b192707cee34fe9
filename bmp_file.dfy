/**
 * BmpImage::Load: the decoders tried in turn on the same bytes, BMP first,
 * then PPM, TGA and a bare DIB.  The first one that returns true wins; after
 * each one that returns false the image's buffer and palette are released and
 * forgotten.  Undefined behaviour in a decoder ends the sequence.
 */
module BmpFile {
  import opened Wrappers
  import opened Color
  import opened BmpImage
  import opened BmpLoad
  import BmpTga
  import BmpPpm

  /** The number of decoders Load knows. */
  const Decoders := 4

  /** Decoder i of the sequence: LoadBMP, LoadPPM, LoadTGA, LoadDIB. */
  function Attempt(i: nat, d: seq<Byte>): Outcome
    requires i < Decoders
  {
    if i == 0 then BmpOutcome(d)
    else if i == 1 then BmpPpm.PpmOutcome(d)
    else if i == 2 then BmpTga.TgaOutcome(d)
    else DibOutcome(d)
  }

  /** How the sequence ends: the outcome that stopped it and how many decoders returned false before. */
  datatype Attempted = Attempted(outcome: Outcome, tries: nat)

  /** The sequence from decoder i on. */
  function LoadFrom(d: seq<Byte>, i: nat): (r: Attempted)
    requires i <= Decoders
    ensures i <= r.tries <= Decoders
    decreases Decoders - i
  {
    if i == Decoders then Attempted(Rejected, Decoders)
    else
      var o := Attempt(i, d);
      if o.Rejected? then LoadFrom(d, i + 1) else Attempted(o, i)
  }

  /**
   * The sequence stops at the first decoder that does not return false, with
   * that decoder's outcome, and Load returns false exactly when all four do.
   */
  lemma {:induction false} LoadFromFirst(d: seq<Byte>, i: nat)
    requires i <= Decoders
    ensures var r := LoadFrom(d, i);
            (forall j :: i <= j < r.tries ==> Attempt(j, d).Rejected?)
            && (r.tries < Decoders ==> r.outcome == Attempt(r.tries, d) && !r.outcome.Rejected?)
            && (r.outcome.Rejected? <==> r.tries == Decoders)
    decreases Decoders - i
  {
    if i < Decoders && Attempt(i, d).Rejected? {
      LoadFromFirst(d, i + 1);
    }
  }

  /** A file that starts "P3" or "P6" is never a BMP: it reaches LoadPPM. */
  lemma PpmIsNotBmp(d: seq<Byte>)
    requires |d| >= 2 && d[0] == 'P' as int
    ensures Attempt(0, d) == Rejected
    ensures LoadFrom(d, 0) == LoadFrom(d, 1)
  {
    if |d| >= FileHeaderSize {
      assert U16(d, 0) % 0x100 == d[0];
    }
  }

  /** Case i of the switch in the loop. */
  method Try(i: nat, d: seq<Byte>) returns (o: Outcome)
    requires i < Decoders
    ensures o == Attempt(i, d)
  {
    if i == 0 {
      o := LoadBMP(d);
    } else if i == 1 {
      o := BmpPpm.LoadPPM(d);
    } else if i == 2 {
      o := BmpTga.LoadTGA(d);
    } else {
      o := LoadDIB(d);
    }
  }

  /** What a decoder that returns true has set: the geometry, the format, the owned buffer and, for P8, the palette. */
  method Install(img: Image, x: Decoded)
    modifies img
    ensures img.width == x.width && img.height == x.height && img.pitch == x.pitch && img.format == x.format
    ensures img.data == Some(x.pixels) && img.deleteData
    ensures x.palette.Some? ==> img.palette == x.palette && img.deletePalette
    ensures x.palette.None? ==> img.palette == old(img.palette) && img.deletePalette == old(img.deletePalette)
  {
    img.width, img.height, img.pitch, img.format := x.width, x.height, x.pitch, x.format;
    img.data, img.deleteData := Some(x.pixels), true;
    if x.palette.Some? {
      img.palette, img.deletePalette := x.palette, true;
    }
  }

  /**
   * Load: the loop over the decoders.  On success the image holds the decoded
   * buffer, which it owns, and the decoder's palette when it set one (a P8
   * image); otherwise the palette the image had, if no decoder failed before,
   * or none.  When every decoder returns false the image has neither buffer
   * nor palette.
   */
  method Load(img: Image, d: seq<Byte>) returns (r: Outcome)
    modifies img
    ensures r == LoadFrom(d, 0).outcome
    ensures var tries := LoadFrom(d, 0).tries;
            match r
            case Loaded(x) =>
              img.width == x.width && img.height == x.height && img.pitch == x.pitch && img.format == x.format
              && img.data == Some(x.pixels) && img.deleteData
              && (x.palette.Some? ==> img.palette == x.palette && img.deletePalette)
              && (x.palette.None? && tries == 0 ==> img.palette == old(img.palette) && img.deletePalette == old(img.deletePalette))
              && (x.palette.None? && tries > 0 ==> img.palette == None && !img.deletePalette)
            case _ =>
              img.width == old(img.width) && img.height == old(img.height)
              && img.pitch == old(img.pitch) && img.format == old(img.format)
              && (tries == 0 ==> img.data == old(img.data) && img.deleteData == old(img.deleteData)
                                 && img.palette == old(img.palette) && img.deletePalette == old(img.deletePalette))
              && (tries > 0 ==> img.data == None && img.palette == None && !img.deleteData && !img.deletePalette)
  {
    var i := 0;
    while i < Decoders
      invariant 0 <= i <= Decoders && LoadFrom(d, i) == LoadFrom(d, 0)
      invariant img.width == old(img.width) && img.height == old(img.height)
      invariant img.pitch == old(img.pitch) && img.format == old(img.format)
      invariant i == 0 ==> img.data == old(img.data) && img.deleteData == old(img.deleteData)
                           && img.palette == old(img.palette) && img.deletePalette == old(img.deletePalette)
      invariant i > 0 ==> img.data == None && img.palette == None && !img.deleteData && !img.deletePalette
    {
      var o := Try(i, d);
      if o.Loaded? {
        Install(img, o.image);
        return o;
      }
      if o.Undefined? {
        return o;
      }
      img.data, img.palette, img.deleteData, img.deletePalette := None, None, false, false;
      i := i + 1;
    }
    return Rejected;
  }
}
