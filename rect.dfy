/**
  RectI of Rect.h: an integer rectangle made of an X range and a Y range,
  both inclusive. The class keeps the four bounds as fields that its
  setters update in place; each setter is specified by a function on the
  `Box` value of the bounds, and the geometry is proved about those
  functions.
*/
module Rect {
  import opened CLib

  /** The four bounds m_xLo, m_xHi, m_yLo, m_yHi as a value. */
  datatype Box = Box(xLo: int, xHi: int, yLo: int, yHi: int)

  /** IsValid: hi >= lo on both axes. */
  predicate ValidBox(b: Box) { b.xHi >= b.xLo && b.yHi >= b.yLo }

  /** Every bound fits the int the class stores. */
  predicate Int32Box(b: Box)
  {
    IsInt32(b.xLo) && IsInt32(b.xHi) && IsInt32(b.yLo) && IsInt32(b.yHi)
  }

  /** Contains(x, y): inclusive bounds. */
  predicate Inside(b: Box, x: int, y: int)
  {
    b.xLo <= x && b.xHi >= x && b.yLo <= y && b.yHi >= y
  }

  /** Contains(r): every bound of `inner` lies within `outer`. */
  predicate Encloses(outer: Box, inner: Box)
  {
    outer.xLo <= inner.xLo && outer.xHi >= inner.xHi && outer.yLo <= inner.yLo && outer.yHi >= inner.yHi
  }

  function Min(a: int, b: int): int { if a < b then a else b }
  function Max(a: int, b: int): int { if a < b then b else a }

  /** Intersects(r1, r2): the larger low is at most the smaller high on both axes. */
  predicate Overlaps(b1: Box, b2: Box)
  {
    Max(b1.xLo, b2.xLo) <= Min(b1.xHi, b2.xHi) && Max(b1.yLo, b2.yLo) <= Min(b1.yHi, b2.yHi)
  }

  /** The bounds ExtendToPoint leaves. */
  function ExtendedTo(b: Box, x: int, y: int): Box
  {
    Box(Min(b.xLo, x), Max(b.xHi, x), Min(b.yLo, y), Max(b.yHi, y))
  }

  /** The bounds SetEnclosing leaves: the componentwise min and max. */
  function Enclosing(b1: Box, b2: Box): Box
  {
    Box(Min(b1.xLo, b2.xLo), Max(b1.xHi, b2.xHi), Min(b1.yLo, b2.yLo), Max(b1.yHi, b2.yHi))
  }

  /** The bounds SetIntersection leaves, valid or not. */
  function Meet(b1: Box, b2: Box): Box
  {
    Box(Max(b1.xLo, b2.xLo), Min(b1.xHi, b2.xHi), Max(b1.yLo, b2.yLo), Min(b1.yHi, b2.yHi))
  }

  /** The bounds Expand(r) leaves: every edge moved outward by r. */
  function Grown(b: Box, r: int): Box
  {
    Box(b.xLo - r, b.xHi + r, b.yLo - r, b.yHi + r)
  }

  /** For a valid inner box, bound containment is containment of every point. */
  lemma EnclosesIffPoints(outer: Box, inner: Box)
    requires ValidBox(inner)
    ensures Encloses(outer, inner) <==> forall x, y :: Inside(inner, x, y) ==> Inside(outer, x, y)
  {
    if forall x, y :: Inside(inner, x, y) ==> Inside(outer, x, y) {
      assert Inside(inner, inner.xLo, inner.yLo);
      assert Inside(inner, inner.xHi, inner.yHi);
    }
  }

  /** The extended box is valid, holds the point and the old box, and is the
      smallest box that does. */
  lemma ExtendedToLeast(b: Box, x: int, y: int)
    requires ValidBox(b)
    ensures ValidBox(ExtendedTo(b, x, y)) && Inside(ExtendedTo(b, x, y), x, y)
    ensures Encloses(ExtendedTo(b, x, y), b)
    ensures forall c :: Encloses(c, b) && Inside(c, x, y) ==> Encloses(c, ExtendedTo(b, x, y))
  {
  }

  /** The enclosing box is valid, holds both boxes, and is the smallest box that does. */
  lemma EnclosingLeast(b1: Box, b2: Box)
    requires ValidBox(b1) && ValidBox(b2)
    ensures ValidBox(Enclosing(b1, b2))
    ensures Encloses(Enclosing(b1, b2), b1) && Encloses(Enclosing(b1, b2), b2)
    ensures forall c :: Encloses(c, b1) && Encloses(c, b2) ==> Encloses(c, Enclosing(b1, b2))
  {
  }

  /** Enclosing is SetEnclosing of a point box: ExtendToPoint(x, y) is the
      enclosing box of the old box and the point. */
  lemma ExtendedIsEnclosing(b: Box, x: int, y: int)
    ensures ExtendedTo(b, x, y) == Enclosing(b, Box(x, x, y, y))
  {
  }

  /** Two valid boxes overlap exactly when they share a point, and then the
      meet is valid and holds exactly the shared points. */
  lemma MeetIsIntersection(b1: Box, b2: Box)
    requires ValidBox(b1) && ValidBox(b2)
    ensures ValidBox(Meet(b1, b2)) <==> Overlaps(b1, b2)
    ensures Overlaps(b1, b2) <==> exists x, y :: Inside(b1, x, y) && Inside(b2, x, y)
    ensures forall x, y :: Inside(Meet(b1, b2), x, y) <==> Inside(b1, x, y) && Inside(b2, x, y)
    ensures Encloses(b1, Meet(b1, b2)) && Encloses(b2, Meet(b1, b2))
  {
    var m := Meet(b1, b2);
    if Overlaps(b1, b2) {
      assert Inside(b1, m.xLo, m.yLo) && Inside(b2, m.xLo, m.yLo);
    }
  }

  /** Overlap does not depend on the order of the two boxes. */
  lemma OverlapsSymmetric(b1: Box, b2: Box)
    ensures Overlaps(b1, b2) <==> Overlaps(b2, b1)
    ensures Meet(b1, b2) == Meet(b2, b1) && Enclosing(b1, b2) == Enclosing(b2, b1)
  {
  }

  /** Expanding keeps a box valid, encloses the old box, and two expansions add up. */
  lemma GrownProperties(b: Box, r: nat, s: nat)
    requires ValidBox(b)
    ensures ValidBox(Grown(b, r)) && Encloses(Grown(b, r), b)
    ensures Grown(Grown(b, r), s) == Grown(b, r + s)
    ensures r == 0 ==> Grown(b, r) == b
  {
  }

  /** RectI: the four int bounds, updated in place by the setters. */
  class RectI {
    var xLo: int
    var xHi: int
    var yLo: int
    var yHi: int

    function Bounds(): (b: Box)
      reads this
      ensures b.xLo == xLo && b.xHi == xHi && b.yLo == yLo && b.yHi == yHi
    {
      Box(xLo, xHi, yLo, yHi)
    }

    /** IsValid, with the bounds held in 32-bit ints. */
    predicate Valid()
      reads this
    {
      ValidBox(Bounds()) && Int32Box(Bounds())
    }

    /** RectI(eZero): all four bounds 0. */
    constructor Zero()
      ensures Bounds() == Box(0, 0, 0, 0) && Valid()
    {
      xLo, xHi, yLo, yHi := 0, 0, 0, 0;
    }

    /** RectI(xLo, xHi, yLo, yHi), which ASSERTs validity. */
    constructor (xl: int, xh: int, yl: int, yh: int)
      requires ValidBox(Box(xl, xh, yl, yh)) && Int32Box(Box(xl, xh, yl, yh))
      ensures Bounds() == Box(xl, xh, yl, yh) && Valid()
    {
      xLo, xHi, yLo, yHi := xl, xh, yl, yh;
    }

    /** RectI(x, y): the point rectangle, always valid. */
    constructor Point(x: int, y: int)
      requires IsInt32(x) && IsInt32(y)
      ensures Bounds() == Box(x, x, y, y) && Valid()
      ensures forall px, py :: Inside(Bounds(), px, py) <==> px == x && py == y
    {
      xLo, xHi, yLo, yHi := x, x, y, y;
    }

    /** Contains(x, y). */
    function ContainsPoint(x: int, y: int): (r: bool)
      reads this
      requires Valid()
      ensures r <==> Inside(Bounds(), x, y)
    {
      xLo <= x && xHi >= x && yLo <= y && yHi >= y
    }

    /** Contains(r): r's bounds lie within these, so every point of r is here. */
    function ContainsRect(r: RectI): (c: bool)
      reads this, r
      requires Valid() && r.Valid()
      ensures c <==> forall x, y :: Inside(r.Bounds(), x, y) ==> Inside(Bounds(), x, y)
    {
      EnclosesIffPoints(Bounds(), r.Bounds());
      xLo <= r.xLo && xHi >= r.xHi && yLo <= r.yLo && yHi >= r.yHi
    }

    /** Intersects(r1, r2): the two rectangles share a point. */
    static function Intersects(r1: RectI, r2: RectI): (c: bool)
      reads r1, r2
      requires r1.Valid() && r2.Valid()
      ensures c <==> exists x, y :: Inside(r1.Bounds(), x, y) && Inside(r2.Bounds(), x, y)
    {
      MeetIsIntersection(r1.Bounds(), r2.Bounds());
      Max(r1.xLo, r2.xLo) <= Min(r1.xHi, r2.xHi) && Max(r1.yLo, r2.yLo) <= Min(r1.yHi, r2.yHi)
    }

    /** ExtendToPoint: grows only as far as needed to take in (x, y). */
    method ExtendToPoint(x: int, y: int)
      requires Valid() && IsInt32(x) && IsInt32(y)
      modifies this
      ensures Bounds() == ExtendedTo(old(Bounds()), x, y)
      ensures Valid() && ContainsPoint(x, y) && Encloses(Bounds(), old(Bounds()))
    {
      ExtendedToLeast(Bounds(), x, y);
      xLo := Min(xLo, x);
      xHi := Max(xHi, x);
      yLo := Min(yLo, y);
      yHi := Max(yHi, y);
    }

    /** SetEnclosing(r1, r2); either may be this rectangle itself. */
    method SetEnclosing(r1: RectI, r2: RectI)
      requires r1.Valid() && r2.Valid()
      modifies this
      ensures Bounds() == Enclosing(old(r1.Bounds()), old(r2.Bounds()))
      ensures Valid()
    {
      EnclosingLeast(r1.Bounds(), r2.Bounds());
      var e := Enclosing(r1.Bounds(), r2.Bounds());
      xLo := Min(r1.xLo, r2.xLo);
      xHi := Max(r1.xHi, r2.xHi);
      yLo := Min(r1.yLo, r2.yLo);
      yHi := Max(r1.yHi, r2.yHi);
      assert Bounds() == e;
    }

    /** SetIntersection(r1, r2): the bounds become the meet, valid exactly when
        the result is true; on false the rectangle is left invalid. */
    method SetIntersection(r1: RectI, r2: RectI) returns (ok: bool)
      requires r1.Valid() && r2.Valid()
      modifies this
      ensures Bounds() == Meet(old(r1.Bounds()), old(r2.Bounds()))
      ensures ok <==> Overlaps(old(r1.Bounds()), old(r2.Bounds()))
      ensures ok <==> Valid()
    {
      MeetIsIntersection(r1.Bounds(), r2.Bounds());
      var m := Meet(r1.Bounds(), r2.Bounds());
      xLo := Max(r1.xLo, r2.xLo);
      xHi := Min(r1.xHi, r2.xHi);
      yLo := Max(r1.yLo, r2.yLo);
      yHi := Min(r1.yHi, r2.yHi);
      assert Bounds() == m;
      if xLo > xHi || yLo > yHi {
        return false;
      }
      return true;
    }

    /** Expand(r): r >= 0, every edge moved out by r (the new bounds must
        still fit an int). */
    method Expand(r: int)
      requires Valid() && r >= 0 && Int32Box(Grown(Bounds(), r))
      modifies this
      ensures Bounds() == Grown(old(Bounds()), r)
      ensures Valid() && Encloses(Bounds(), old(Bounds()))
    {
      GrownProperties(Bounds(), r, 0);
      xLo := xLo - r;
      xHi := xHi + r;
      yLo := yLo - r;
      yHi := yHi + r;
    }
  }
}
