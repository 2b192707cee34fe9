/**
  The index and copy logic of FloatImage (FloatImage.cpp): an image of
  `depth` planes of width × height samples, each plane a row-major array
  in which sample (x, y) sits at x + y·width.

  Samples are only copied or filled, never computed, so they are modelled
  as `real` values standing for the source's floats.
*/
module FloatImage {

  // ---- row-major index arithmetic ----

  /** The index of sample (x, y) in a row-major plane whose rows are `w` long. */
  function Idx(x: int, y: int, w: int): int
  {
    x + y * w
  }

  /** The index of sample (x + xlo, y + ylo). */
  function ShiftedIdx(x: int, y: int, xlo: int, ylo: int, w: int): int
  {
    Idx(x + xlo, y + ylo, w)
  }

  lemma MulMono(a: int, b: int, c: nat)
    requires a <= b
    ensures a * c <= b * c
  {
  }

  /** A sample inside a w × h window of a plane with rows `stride` long
      comes before the end of the window's last row. */
  lemma IdxBounds(x: int, y: int, w: int, h: int, stride: int)
    requires 0 <= x < w <= stride && 0 <= y < h
    ensures 0 <= Idx(x, y, stride) < h * stride
  {
    MulMono(y + 1, h, stride);
    assert (y + 1) * stride == y * stride + stride;
  }

  /** A sample of an earlier row comes before the start of a later row. */
  lemma RowOrder(x: int, yy: int, y: int, stride: int)
    requires 0 <= x < stride && 0 <= yy < y
    ensures Idx(x, yy, stride) < y * stride
  {
    MulMono(yy + 1, y, stride);
    assert (yy + 1) * stride == yy * stride + stride;
  }

  // ---- the copy loops ----

  /** Sample (x, y) of the plane `out`, whose rows are `stride` long, holds
      src[at(x, y)] for every x < w and y < h. */
  ghost predicate Resampled(out: seq<real>, stride: int, w: int, h: int, src: seq<real>, at: (int, int) -> int)
  {
    forall x, y :: 0 <= x < w && 0 <= y < h ==>
      0 <= Idx(x, y, stride) < |out| && 0 <= at(x, y) < |src| && out[Idx(x, y, stride)] == src[at(x, y)]
  }

  /** Outside its first w columns and h rows the plane `out` is `before`. */
  ghost predicate KeptOutside(out: seq<real>, before: seq<real>, stride: int, w: int, h: int)
  {
    |out| == |before| &&
    forall x, y :: 0 <= x < stride && 0 <= y && Idx(x, y, stride) < |out| && !(x < w && y < h) ==>
      out[Idx(x, y, stride)] == before[Idx(x, y, stride)]
  }

  /** Row y of a resampling loop: out[base + x] holds src[at(x, y)] for x < w. */
  ghost predicate RowResampled(out: seq<real>, base: int, w: int, y: int, src: seq<real>, at: (int, int) -> int)
  {
    0 <= base && base + w <= |out| &&
    forall x :: 0 <= x < w ==> 0 <= at(x, y) < |src| && out[base + x] == src[at(x, y)]
  }

  /** Outside [lo, hi) the sequence `out` is `before`. */
  ghost predicate KeptOutsideRange(out: seq<real>, before: seq<real>, lo: int, hi: int)
  {
    |out| == |before| && forall i :: 0 <= i < |out| && !(lo <= i < hi) ==> out[i] == before[i]
  }

  /** Row `y` of a resampling loop: dst[base + x] takes src[at(x, y)] for
      every x < w, and nothing else of dst changes. */
  method ResampleRow(dst: array<real>, base: nat, w: nat, y: int, src: array<real>, at: (int, int) -> int)
    requires dst != src && base + w <= dst.Length
    requires forall x :: 0 <= x < w ==> 0 <= at(x, y) < src.Length
    modifies dst
    ensures RowResampled(dst[..], base, w, y, src[..], at)
    ensures KeptOutsideRange(dst[..], old(dst[..]), base, base + w)
  {
    var x := 0;
    while x < w
      invariant 0 <= x <= w
      invariant forall x' :: 0 <= x' < x ==> dst[base + x'] == src[at(x', y)]
      invariant forall i :: 0 <= i < dst.Length && !(base <= i < base + x) ==> dst[i] == old(dst[i])
    {
      dst[base + x] := src[at(x, y)];
      x := x + 1;
    }
  }

  /** The nested copy loop shared by the Create and Copy functions: sample
      (x, y) of a w × h window of dst, whose rows are `stride` long, takes
      src[at(x, y)]; every other sample of dst is left as it was. */
  method Resample(dst: array<real>, stride: nat, w: nat, h: nat, src: array<real>, at: (int, int) -> int)
    requires dst != src && w <= stride && h * stride <= dst.Length
    requires forall x, y :: 0 <= x < w && 0 <= y < h ==> 0 <= at(x, y) < src.Length
    modifies dst
    ensures Resampled(dst[..], stride, w, h, src[..], at)
    ensures KeptOutside(dst[..], old(dst[..]), stride, w, h)
  {
    var y := 0;
    while y < h
      invariant 0 <= y <= h
      invariant Resampled(dst[..], stride, w, y, src[..], at)
      invariant KeptOutside(dst[..], old(dst[..]), stride, w, y)
    {
      RowStart(y, h, stride);
      ghost var before := dst[..];
      ResampleRow(dst, y * stride, w, y, src, at);
      RowStep(dst[..], before, old(dst[..]), src[..], stride, w, y, at);
      y := y + 1;
    }
  }

  lemma RowStart(y: int, h: int, stride: nat)
    requires 0 <= y < h
    ensures 0 <= y * stride && y * stride + stride <= h * stride
  {
    MulMono(y + 1, h, stride);
    assert (y + 1) * stride == y * stride + stride;
  }

  /** A sample of a later row comes after the end of an earlier row. */
  lemma RowAfter(x: int, y': int, y: int, stride: int)
    requires 0 <= x && 0 <= y < y' && 0 <= stride
    ensures Idx(x, y', stride) >= y * stride + stride
  {
    MulMono(y + 1, y', stride);
    assert (y + 1) * stride == y * stride + stride;
  }

  /** One pass of Resample's row loop: writing row y, which is
      [y·stride, y·stride + w), extends the window by that row. */
  lemma RowStep(now: seq<real>, before: seq<real>, orig: seq<real>, src: seq<real>, stride: nat, w: nat, y: nat,
                at: (int, int) -> int)
    requires w <= stride
    requires Resampled(before, stride, w, y, src, at) && KeptOutside(before, orig, stride, w, y)
    requires RowResampled(now, y * stride, w, y, src, at) && KeptOutsideRange(now, before, y * stride, y * stride + w)
    ensures Resampled(now, stride, w, y + 1, src, at) && KeptOutside(now, orig, stride, w, y + 1)
  {
    forall x, y' | 0 <= x < stride && 0 <= y' && Idx(x, y', stride) < |now| && !(x < w && y' == y)
      ensures now[Idx(x, y', stride)] == before[Idx(x, y', stride)]
    {
      if y' < y {
        RowOrder(x, y', y, stride);
      } else if y' > y {
        RowAfter(x, y', y, stride);
      }
    }
    forall x, y' | 0 <= x < w && 0 <= y' < y + 1
      ensures 0 <= Idx(x, y', stride) < |now| && 0 <= at(x, y') < |src| && now[Idx(x, y', stride)] == src[at(x, y')]
    {
      if y' < y {
        assert now[Idx(x, y', stride)] == before[Idx(x, y', stride)];
      } else {
        assert Idx(x, y', stride) == y * stride + x;
      }
    }
  }

  /** The plane loop of the Create functions: every plane of dst, w × h
      samples, is resampled from the plane of src at the same depth. */
  method ResamplePlanes(dst: seq<array<real>>, w: nat, h: nat, src: seq<array<real>>, srcSize: nat,
                        at: (int, int) -> int)
    requires |dst| == |src|
    requires forall p :: 0 <= p < |dst| ==> dst[p].Length == w * h && src[p].Length == srcSize
    requires forall p, q :: 0 <= p < q < |dst| ==> dst[p] != dst[q]
    requires forall p, q :: 0 <= p < |dst| && 0 <= q < |src| ==> dst[p] != src[q]
    requires forall x, y :: 0 <= x < w && 0 <= y < h ==> 0 <= at(x, y) < srcSize
    modifies set p | 0 <= p < |dst| :: dst[p]
    ensures forall p :: 0 <= p < |dst| ==> Resampled(dst[p][..], w, w, h, src[p][..], at)
  {
    var p := 0;
    while p < |dst|
      invariant 0 <= p <= |dst|
      invariant forall q :: 0 <= q < p ==> Resampled(dst[q][..], w, w, h, src[q][..], at)
    {
      Resample(dst[p], w, w, h, src[p], at);
      p := p + 1;
    }
  }

  /** Sample (x, y) of the plane `out`, whose rows are `stride` long, holds
      sample (x + xlo, y + ylo) of `src`, whose rows are `sw` long, for every
      x < w and y < h. */
  ghost predicate CopiedInto(out: seq<real>, stride: int, w: int, h: int, src: seq<real>, sw: int, xlo: int, ylo: int)
  {
    forall x, y :: 0 <= x < w && 0 <= y < h ==>
      0 <= Idx(x, y, stride) < |out| && 0 <= Idx(x + xlo, y + ylo, sw) < |src| &&
      out[Idx(x, y, stride)] == src[Idx(x + xlo, y + ylo, sw)]
  }

  /** A resampling through the shifted index is a shifted copy. */
  lemma ShiftedCopy(out: seq<real>, stride: int, w: int, h: int, src: seq<real>, sw: int, xlo: int, ylo: int,
                    at: (int, int) -> int)
    requires Resampled(out, stride, w, h, src, at)
    requires forall x, y :: 0 <= x < w && 0 <= y < h ==> at(x, y) == ShiftedIdx(x, y, xlo, ylo, sw)
    ensures CopiedInto(out, stride, w, h, src, sw, xlo, ylo)
  {
    forall x, y | 0 <= x < w && 0 <= y < h
      ensures 0 <= Idx(x, y, stride) < |out| && 0 <= Idx(x + xlo, y + ylo, sw) < |src|
      ensures out[Idx(x, y, stride)] == src[Idx(x + xlo, y + ylo, sw)]
    {
      assert at(x, y) == ShiftedIdx(x, y, xlo, ylo, sw);
    }
  }

  // ---- edge handling of sample lookups ----

  /** IndexMirror on one axis: a coordinate before 0 is reflected about 0
      and one past the end about the last sample, neither repeating the
      edge sample. */
  function MirrorCoord(x: int, w: int): (r: int)
    ensures 0 <= x < w ==> r == x
  {
    if x < 0 then -x else if x >= w then 2 * w - x - 2 else x
  }

  /** The range IndexMirror asserts: a coordinate at most one reflection
      away lands inside [0, w). */
  lemma MirrorCoordRange(x: int, w: int)
    requires -w < x <= 2 * w - 2
    ensures 0 <= MirrorCoord(x, w) < w
  {
  }

  /** Mirroring reflects about the edge samples themselves: k steps before
      0 reads the sample k steps after it, and k steps past w − 1 reads the
      sample k steps before it; so sample −1 is sample 1, not sample 0. */
  lemma MirrorReflects(k: int, w: int)
    requires 0 <= k < w
    ensures MirrorCoord(-k, w) == k
    ensures MirrorCoord(w - 1 + k, w) == w - 1 - k
  {
  }

  /** IndexClamp on one axis: Clamp(x, 0, w − 1). */
  function ClampCoord(x: int, w: int): (r: int)
    ensures 1 <= w ==> 0 <= r < w
    ensures 0 <= x < w ==> r == x
  {
    if x < 0 then 0 else if x > w - 1 then w - 1 else x
  }

  // ---- what the Create functions produce, plane by plane ----

  /** `out` is a w × h plane holding the transpose of the h × w plane `src`. */
  ghost predicate IsTransposeOf(out: seq<real>, w: int, h: int, src: seq<real>)
  {
    0 <= w && 0 <= h && |out| == w * h && |src| == h * w &&
    forall x, y :: 0 <= x < w && 0 <= y < h ==>
      0 <= Idx(x, y, w) < |out| && 0 <= Idx(y, x, h) < |src| && out[Idx(x, y, w)] == src[Idx(y, x, h)]
  }

  /** `out` is the w × h portion at (xlo, ylo) of the plane `src`, whose rows
      are `sw` long. */
  ghost predicate IsPortionOf(out: seq<real>, w: int, h: int, src: seq<real>, sw: int, xlo: int, ylo: int)
  {
    0 <= w && 0 <= h && |out| == w * h && CopiedInto(out, w, w, h, src, sw, xlo, ylo)
  }

  /** `out` is the w × h plane sampling the even rows and columns of `src`,
      whose rows are `sw` long. */
  ghost predicate IsHalvedOf(out: seq<real>, w: int, h: int, src: seq<real>, sw: int)
  {
    0 <= w && 0 <= h && |out| == w * h &&
    forall x, y :: 0 <= x < w && 0 <= y < h ==>
      0 <= Idx(x, y, w) < |out| && 0 <= Idx(2 * x, 2 * y, sw) < |src| &&
      out[Idx(x, y, w)] == src[Idx(2 * x, 2 * y, sw)]
  }

  /** `out` is the w × h plane in which every sample of `src`, whose rows are
      `sw` long, covers a 2 × 2 block. */
  ghost predicate IsDoubledOf(out: seq<real>, w: int, h: int, src: seq<real>, sw: int)
  {
    0 <= w && 0 <= h && |out| == w * h &&
    forall x, y :: 0 <= x < w && 0 <= y < h ==>
      0 <= Idx(x, y, w) < |out| && 0 <= Idx(x / 2, y / 2, sw) < |src| &&
      out[Idx(x, y, w)] == src[Idx(x / 2, y / 2, sw)]
  }

  /** A resampling through the swapped index is a transpose. */
  lemma TransposeResampled(out: seq<real>, w: int, h: int, src: seq<real>, at: (int, int) -> int)
    requires 0 <= w && 0 <= h && |out| == w * h && |src| == h * w
    requires Resampled(out, w, w, h, src, at)
    requires forall x, y :: 0 <= x < w && 0 <= y < h ==> at(x, y) == Idx(y, x, h)
    ensures IsTransposeOf(out, w, h, src)
  {
    forall x, y | 0 <= x < w && 0 <= y < h
      ensures 0 <= Idx(x, y, w) < |out| && 0 <= Idx(y, x, h) < |src| && out[Idx(x, y, w)] == src[Idx(y, x, h)]
    {
      assert at(x, y) == Idx(y, x, h);
    }
  }

  /** A resampling through the doubled index is the halved plane. */
  lemma HalvedResampled(out: seq<real>, w: int, h: int, src: seq<real>, sw: int, at: (int, int) -> int)
    requires 0 <= w && 0 <= h && |out| == w * h
    requires Resampled(out, w, w, h, src, at)
    requires forall x, y :: 0 <= x < w && 0 <= y < h ==> at(x, y) == Idx(2 * x, 2 * y, sw)
    ensures IsHalvedOf(out, w, h, src, sw)
  {
    forall x, y | 0 <= x < w && 0 <= y < h
      ensures 0 <= Idx(x, y, w) < |out| && 0 <= Idx(2 * x, 2 * y, sw) < |src|
      ensures out[Idx(x, y, w)] == src[Idx(2 * x, 2 * y, sw)]
    {
      assert at(x, y) == Idx(2 * x, 2 * y, sw);
    }
  }

  /** A resampling through the halved index is the doubled plane. */
  lemma DoubledResampled(out: seq<real>, w: int, h: int, src: seq<real>, sw: int, at: (int, int) -> int)
    requires 0 <= w && 0 <= h && |out| == w * h
    requires Resampled(out, w, w, h, src, at)
    requires forall x, y :: 0 <= x < w && 0 <= y < h ==> at(x, y) == Idx(x / 2, y / 2, sw)
    ensures IsDoubledOf(out, w, h, src, sw)
  {
    forall x, y | 0 <= x < w && 0 <= y < h
      ensures 0 <= Idx(x, y, w) < |out| && 0 <= Idx(x / 2, y / 2, sw) < |src|
      ensures out[Idx(x, y, w)] == src[Idx(x / 2, y / 2, sw)]
    {
      assert at(x, y) == Idx(x / 2, y / 2, sw);
    }
  }

  /** Every index of a w × h plane names one sample (x, y). */
  lemma IdxCovers(i: int, w: int, h: int)
    requires 0 <= i < w * h && 0 < w
    ensures 0 <= i % w < w && 0 <= i / w < h && Idx(i % w, i / w, w) == i
  {
    if i / w >= h {
      MulMono(h, i / w, w);
      assert false;
    }
  }

  /** CreateTranspose applied twice gives the original plane back. */
  lemma TransposeTwice(a: seq<real>, b: seq<real>, c: seq<real>, w: int, h: int)
    requires IsTransposeOf(b, h, w, a) && IsTransposeOf(c, w, h, b)
    ensures c == a
  {
    if 0 < w {
      forall i | 0 <= i < |a|
        ensures c[i] == a[i]
      {
        IdxCovers(i, w, h);
        var x, y := i % w, i / w;
        assert c[Idx(x, y, w)] == b[Idx(y, x, h)];
      }
    }
  }

  /** Doubling with the box filter and then halving by point sampling gives
      the original plane back. */
  lemma DoubledThenHalved(a: seq<real>, b: seq<real>, c: seq<real>, w: int, h: int)
    requires |a| == w * h && IsDoubledOf(b, 2 * w, 2 * h, a, w) && IsHalvedOf(c, w, h, b, 2 * w)
    ensures c == a
  {
    if 0 < w {
      forall i | 0 <= i < |a|
        ensures c[i] == a[i]
      {
        IdxCovers(i, w, h);
        var x, y := i % w, i / w;
        assert c[Idx(x, y, w)] == b[Idx(2 * x, 2 * y, 2 * w)];
        assert (2 * x) / 2 == x && (2 * y) / 2 == y;
      }
    }
  }

  /** A portion of a portion is the portion at the summed offsets. */
  lemma PortionOfPortion(a: seq<real>, sw: int, b: seq<real>, w1: int, h1: int, x1: int, y1: int,
                         c: seq<real>, w2: int, h2: int, x2: int, y2: int)
    requires IsPortionOf(b, w1, h1, a, sw, x1, y1) && IsPortionOf(c, w2, h2, b, w1, x2, y2)
    requires 0 <= x2 && x2 + w2 <= w1 && 0 <= y2 && y2 + h2 <= h1
    ensures IsPortionOf(c, w2, h2, a, sw, x1 + x2, y1 + y2)
  {
    forall x, y | 0 <= x < w2 && 0 <= y < h2
      ensures 0 <= Idx(x + (x1 + x2), y + (y1 + y2), sw) < |a|
      ensures c[Idx(x, y, w2)] == a[Idx(x + (x1 + x2), y + (y1 + y2), sw)]
    {
      assert b[Idx(x + x2, y + y2, w1)] == a[Idx(x + x2 + x1, y + y2 + y1, sw)];
    }
  }

  /** The portion at (0, 0) as large as the whole plane is a copy of it. */
  lemma WholePortion(a: seq<real>, b: seq<real>, w: int, h: int)
    requires |a| == w * h && IsPortionOf(b, w, h, a, w, 0, 0)
    ensures b == a
  {
    if 0 < w {
      forall i | 0 <= i < |a|
        ensures b[i] == a[i]
      {
        IdxCovers(i, w, h);
        var x, y := i % w, i / w;
        assert b[Idx(x, y, w)] == a[Idx(x + 0, y + 0, w)];
      }
    }
  }

  // ---- the image ----

  /** `n` freshly allocated planes of `size` samples each. */
  method NewPlanes(n: nat, size: nat) returns (ps: seq<array<real>>)
    ensures |ps| == n
    ensures forall p :: 0 <= p < n ==> fresh(ps[p]) && ps[p].Length == size
    ensures forall p, q :: 0 <= p < q < n ==> ps[p] != ps[q]
  {
    ps := [];
    while |ps| < n
      invariant |ps| <= n
      invariant forall p :: 0 <= p < |ps| ==> fresh(ps[p]) && ps[p].Length == size
      invariant forall p, q :: 0 <= p < q < |ps| ==> ps[p] != ps[q]
    {
      var a := new real[size];
      ps := ps + [a];
    }
  }

  /** FloatImage: `depth` planes of width × height samples.  Of the
      TextureInfo only the dimensions are kept. */
  class FloatImage {
    var width: int
    var height: int
    var depth: nat
    var planes: seq<array<real>>

    /** Each plane holds width × height samples and no two planes share
        their storage. */
    ghost predicate Valid()
      reads this
    {
      0 <= width && 0 <= height && |planes| == depth &&
      (forall p :: 0 <= p < depth ==> planes[p].Length == width * height) &&
      (forall p, q :: 0 <= p < q < depth ==> planes[p] != planes[q])
    }

    /** The planes, the storage the image owns. */
    ghost function Storage(): set<array<real>>
      reads this
    {
      set p | 0 <= p < |planes| :: planes[p]
    }

    /** FloatImage(info, depth): `depth` new planes of the info's size. */
    constructor (w: int, h: int, depth: nat)
      requires 0 <= w && 0 <= h
      ensures Valid() && width == w && height == h && this.depth == depth
      ensures forall p :: 0 <= p < depth ==> fresh(planes[p])
    {
      var ps := NewPlanes(depth, w * h);
      width := w;
      height := h;
      this.depth := depth;
      planes := ps;
    }

    /** IndexMirror: each coordinate outside the image is reflected back
        without repeating the edge sample. */
    function IndexMirror(x: int, y: int): (r: int)
      reads this
      ensures Valid() && -width < x <= 2 * width - 2 && -height < y <= 2 * height - 2 ==>
                0 <= r < width * height
    {
      MirrorInPlane(x, y, width, height);
      Idx(MirrorCoord(x, width), MirrorCoord(y, height), width)
    }

    /** IndexClamp: each coordinate is clamped to the image. */
    function IndexClamp(x: int, y: int): (r: int)
      reads this
      ensures 1 <= width && 1 <= height ==> 0 <= r < width * height
      ensures 0 <= x < width && 0 <= y < height ==> r == Idx(x, y, width)
    {
      ClampInPlane(x, y, width, height);
      Idx(ClampCoord(x, width), ClampCoord(y, height), width)
    }

    /** CreateCopy: a new image of src's size with `depth` planes; the first
        min(depth, src depth) are copies of src's and the rest are zero. */
    static method CreateCopy(src: FloatImage, depth: nat) returns (r: FloatImage)
      requires src.Valid()
      ensures fresh(r) && r.Valid() && r.width == src.width && r.height == src.height && r.depth == depth
      ensures forall p :: 0 <= p < depth ==> fresh(r.planes[p])
      ensures forall p :: 0 <= p < depth && p < src.depth ==> r.planes[p][..] == src.planes[p][..]
      ensures forall p :: src.depth <= p < depth ==> forall i :: 0 <= i < r.planes[p].Length ==> r.planes[p][i] == 0.0
    {
      r := new FloatImage(src.width, src.height, depth);
      var mdepth := if depth < src.depth then depth else src.depth;
      var i := 0;
      while i < mdepth
        invariant 0 <= i <= mdepth
        invariant r.Valid() && r.width == src.width && r.height == src.height && r.depth == depth
        invariant forall p :: 0 <= p < depth ==> fresh(r.planes[p])
        invariant forall p :: 0 <= p < i ==> r.planes[p][..] == src.planes[p][..]
      {
        CopySamples(r.planes[i], src.planes[i]);
        i := i + 1;
      }
      while i < depth
        invariant mdepth <= i <= depth
        invariant r.Valid() && r.width == src.width && r.height == src.height && r.depth == depth
        invariant forall p :: 0 <= p < depth ==> fresh(r.planes[p])
        invariant forall p :: 0 <= p < mdepth ==> r.planes[p][..] == src.planes[p][..]
        invariant forall p :: mdepth <= p < i ==> forall k :: 0 <= k < r.planes[p].Length ==> r.planes[p][k] == 0.0
      {
        ZeroSamples(r.planes[i]);
        i := i + 1;
      }
    }

    /** SetCopy: the first min(depth, src depth) planes take src's samples
        and the rest are zeroed; both images must have the same size. */
    method SetCopy(src: FloatImage)
      requires Valid() && src.Valid() && width == src.width && height == src.height
      requires src == this || Storage() !! src.Storage()
      modifies Storage()
      ensures Valid() && planes == old(planes)
      ensures forall p :: 0 <= p < depth && p < src.depth ==> planes[p][..] == old(src.planes[p][..])
      ensures forall p :: src.depth <= p < depth ==> forall i :: 0 <= i < planes[p].Length ==> planes[p][i] == 0.0
    {
      var mdepth := if depth < src.depth then depth else src.depth;
      var i := 0;
      while i < mdepth
        invariant 0 <= i <= mdepth
        invariant forall p :: 0 <= p < i ==> planes[p][..] == old(src.planes[p][..])
        invariant forall p :: i <= p < src.depth ==> src.planes[p][..] == old(src.planes[p][..])
      {
        assert planes[i] in Storage();
        CopySamples(planes[i], src.planes[i]);
        i := i + 1;
      }
      while i < depth
        invariant mdepth <= i <= depth
        invariant forall p :: 0 <= p < mdepth ==> planes[p][..] == old(src.planes[p][..])
        invariant forall p :: mdepth <= p < i ==> forall k :: 0 <= k < planes[p].Length ==> planes[p][k] == 0.0
      {
        ZeroSamples(planes[i]);
        i := i + 1;
      }
    }

    /** CopyPlanePortion: sample (x, y) of plane `top`, for x < w and y < h,
        takes sample (x + xlo, y + ylo) of plane `fmp` of `fm`; every other
        sample keeps its value. */
    method CopyPlanePortion(top: int, fm: FloatImage, fmp: int, xlo: int, ylo: int, w: int, h: int)
      requires Valid() && fm.Valid() && 0 <= top < depth && 0 <= fmp < fm.depth
      requires w <= width && h <= height && xlo + w <= fm.width && ylo + h <= fm.height
      requires 0 < w && 0 < h ==> 0 <= xlo && 0 <= ylo
      requires planes[top] != fm.planes[fmp]
      modifies planes[top]
      ensures CopiedInto(planes[top][..], width, w, h, old(fm.planes[fmp][..]), fm.width, xlo, ylo)
      ensures KeptOutside(planes[top][..], old(planes[top][..]), width, w, h)
    {
      if 0 < w && 0 < h {
        var dst, src, fw := planes[top], fm.planes[fmp], fm.width;
        MulMono(h, height, width);
        forall x, y | 0 <= x < w && 0 <= y < h
          ensures 0 <= ShiftedIdx(x, y, xlo, ylo, fw) < src.Length
        {
          IdxBounds(x + xlo, y + ylo, fw, fm.height, fw);
        }
        Resample(dst, width, w, h, src, (x, y) => ShiftedIdx(x, y, xlo, ylo, fw));
        ShiftedCopy(dst[..], width, w, h, src[..], fw, xlo, ylo, (x, y) => ShiftedIdx(x, y, xlo, ylo, fw));
      }
    }

    /** CreateCopyPortion: NULL when the w × h portion at (xlo, ylo) does
        not fit in src, otherwise a new w × h image holding that portion of
        every plane. */
    static method CreateCopyPortion(src: FloatImage, xlo: int, ylo: int, w: int, h: int) returns (r: FloatImage?)
      requires src.Valid() && 0 <= xlo && 0 <= ylo && 0 <= w && 0 <= h
      ensures r == null <==> xlo + w > src.width || ylo + h > src.height
      ensures r != null ==> fresh(r) && r.Valid() && r.width == w && r.height == h && r.depth == src.depth
      ensures r != null ==> forall p :: 0 <= p < r.depth ==>
                fresh(r.planes[p]) && IsPortionOf(r.planes[p][..], w, h, src.planes[p][..], src.width, xlo, ylo)
    {
      if xlo + w > src.width || ylo + h > src.height {
        return null;
      }
      var sw := src.width;
      var res := new FloatImage(w, h, src.depth);
      forall x, y | 0 <= x < w && 0 <= y < h
        ensures 0 <= ShiftedIdx(x, y, xlo, ylo, sw) < src.width * src.height
      {
        IdxBounds(x + xlo, y + ylo, sw, src.height, sw);
      }
      var at := (x, y) => ShiftedIdx(x, y, xlo, ylo, sw);
      ResamplePlanes(res.planes, w, h, src.planes, src.width * src.height, at);
      forall p | 0 <= p < res.depth
        ensures IsPortionOf(res.planes[p][..], w, h, src.planes[p][..], sw, xlo, ylo)
      {
        ShiftedCopy(res.planes[p][..], w, w, h, src.planes[p][..], sw, xlo, ylo, at);
      }
      r := res;
    }

    /** CreateTranspose: a new image with width and height swapped in which
        sample (x, y) of every plane is sample (y, x) of src's. */
    static method CreateTranspose(src: FloatImage) returns (r: FloatImage)
      requires src.Valid()
      ensures fresh(r) && r.Valid() && r.width == src.height && r.height == src.width && r.depth == src.depth
      ensures forall p :: 0 <= p < r.depth ==>
                fresh(r.planes[p]) && IsTransposeOf(r.planes[p][..], r.width, r.height, src.planes[p][..])
    {
      r := new FloatImage(src.height, src.width, src.depth);
      var w, h := r.width, r.height;
      forall x, y | 0 <= x < w && 0 <= y < h
        ensures 0 <= Idx(y, x, h) < src.width * src.height
      {
        IdxBounds(y, x, h, w, h);
      }
      var at := (x, y) => Idx(y, x, h);
      ResamplePlanes(r.planes, w, h, src.planes, src.width * src.height, at);
      forall p | 0 <= p < r.depth
        ensures IsTransposeOf(r.planes[p][..], w, h, src.planes[p][..])
      {
        TransposeResampled(r.planes[p][..], w, h, src.planes[p][..], at);
      }
    }

    /** CreateHalvedPointSampled: a new image of half the width and height
        (rounded down) taking every sample at even coordinates. */
    method CreateHalvedPointSampled() returns (r: FloatImage)
      requires Valid()
      ensures fresh(r) && r.Valid() && r.width == width / 2 && r.height == height / 2 && r.depth == depth
      ensures forall p :: 0 <= p < r.depth ==>
                fresh(r.planes[p]) && IsHalvedOf(r.planes[p][..], r.width, r.height, planes[p][..], width)
    {
      r := new FloatImage(width / 2, height / 2, depth);
      var sw := width;
      forall x, y | 0 <= x < width / 2 && 0 <= y < height / 2
        ensures 0 <= Idx(2 * x, 2 * y, sw) < width * height
      {
        IdxBounds(2 * x, 2 * y, sw, height, sw);
      }
      var at := (x, y) => Idx(2 * x, 2 * y, sw);
      ResamplePlanes(r.planes, width / 2, height / 2, planes, width * height, at);
      forall p | 0 <= p < r.depth
        ensures IsHalvedOf(r.planes[p][..], r.width, r.height, planes[p][..], sw)
      {
        HalvedResampled(r.planes[p][..], r.width, r.height, planes[p][..], sw, at);
      }
    }

    /** CreateDoubledBoxFilter: a new image of twice the width and height in
        which every sample covers a 2 × 2 block. */
    method CreateDoubledBoxFilter() returns (r: FloatImage)
      requires Valid()
      ensures fresh(r) && r.Valid() && r.width == 2 * width && r.height == 2 * height && r.depth == depth
      ensures forall p :: 0 <= p < r.depth ==>
                fresh(r.planes[p]) && IsDoubledOf(r.planes[p][..], r.width, r.height, planes[p][..], width)
    {
      r := new FloatImage(width * 2, height * 2, depth);
      var sw := width;
      forall x, y | 0 <= x < 2 * width && 0 <= y < 2 * height
        ensures 0 <= Idx(x / 2, y / 2, sw) < width * height
      {
        IdxBounds(x / 2, y / 2, sw, height, sw);
      }
      var at := (x, y) => Idx(x / 2, y / 2, sw);
      ResamplePlanes(r.planes, 2 * width, 2 * height, planes, width * height, at);
      forall p | 0 <= p < r.depth
        ensures IsDoubledOf(r.planes[p][..], r.width, r.height, planes[p][..], sw)
      {
        DoubledResampled(r.planes[p][..], r.width, r.height, planes[p][..], sw, at);
      }
    }

    /** FillPlane: every sample of plane p becomes f. */
    method FillPlane(p: int, f: real)
      requires Valid() && 0 <= p < depth
      modifies planes[p]
      ensures forall i :: 0 <= i < planes[p].Length ==> planes[p][i] == f
    {
      var plane := planes[p];
      var size := width * height;
      var i := 0;
      while i < size
        invariant 0 <= i <= size
        invariant forall k :: 0 <= k < i ==> plane[k] == f
      {
        plane[i] := f;
        i := i + 1;
      }
    }
  }

  /** memcpy of one plane. */
  method CopySamples(dst: array<real>, src: array<real>)
    requires dst.Length == src.Length
    modifies dst
    ensures dst[..] == old(src[..])
  {
    forall i | 0 <= i < dst.Length {
      dst[i] := src[i];
    }
  }

  /** memset of one plane to zero. */
  method ZeroSamples(dst: array<real>)
    modifies dst
    ensures forall i :: 0 <= i < dst.Length ==> dst[i] == 0.0
  {
    forall i | 0 <= i < dst.Length {
      dst[i] := 0.0;
    }
  }

  lemma MirrorInPlane(x: int, y: int, w: int, h: int)
    ensures 0 <= w && 0 <= h && -w < x <= 2 * w - 2 && -h < y <= 2 * h - 2 ==>
              0 <= Idx(MirrorCoord(x, w), MirrorCoord(y, h), w) < w * h
  {
    if 0 <= w && 0 <= h && -w < x <= 2 * w - 2 && -h < y <= 2 * h - 2 {
      MirrorCoordRange(x, w);
      MirrorCoordRange(y, h);
      IdxBounds(MirrorCoord(x, w), MirrorCoord(y, h), w, h, w);
    }
  }

  lemma ClampInPlane(x: int, y: int, w: int, h: int)
    ensures 1 <= w && 1 <= h ==> 0 <= Idx(ClampCoord(x, w), ClampCoord(y, h), w) < w * h
  {
    if 1 <= w && 1 <= h {
      IdxBounds(ClampCoord(x, w), ClampCoord(y, h), w, h, w);
    }
  }
}
