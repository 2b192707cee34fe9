/**
  The integer plane of Vec2i.h: a point `Vec2i`, the doubled signed triangle
  area `Area`, and the orientation predicates built on it (`Colinear`,
  `Left`, `Right`, `LeftOrOn`).

  Vec2i.cpp, which holds the definition of `Area`, is not part of this
  model. The header declares it as twice the signed area of abc, positive
  when a, b, c turn counter-clockwise; `Area` below is the cross product
  (b - a) x (c - a), which is exactly that quantity.
*/
module Vec2I {

  datatype Vec2i = Vec2i(x: int, y: int)

  /** Twice the signed area of triangle abc: positive when abc is
      counter-clockwise, negative when clockwise, zero when collinear. */
  function Area(a: Vec2i, b: Vec2i, c: Vec2i): int
  {
    (b.x - a.x) * (c.y - a.y) - (b.y - a.y) * (c.x - a.x)
  }

  /** Area does not depend on which corner the walk starts from. */
  lemma AreaRotate(a: Vec2i, b: Vec2i, c: Vec2i)
    ensures Area(b, c, a) == Area(a, b, c)
    ensures Area(c, a, b) == Area(a, b, c)
  {
    var ux, uy, wx, wy := b.x - a.x, b.y - a.y, c.x - a.x, c.y - a.y;
    assert Area(b, c, a) == (wx - ux) * (-uy) - (wy - uy) * (-ux);
    assert Area(c, a, b) == (-wx) * (uy - wy) - (-wy) * (ux - wx);
  }

  /** Reversing the walk negates the area. */
  lemma AreaSwap(a: Vec2i, b: Vec2i, c: Vec2i)
    ensures Area(b, a, c) == -Area(a, b, c)
    ensures Area(a, c, b) == -Area(a, b, c)
  {
    var ux, uy, wx, wy := b.x - a.x, b.y - a.y, c.x - a.x, c.y - a.y;
    assert Area(b, a, c) == (-ux) * (wy - uy) - (-uy) * (wx - ux);
  }

  /** A triangle with a repeated corner has no area. */
  lemma AreaDegenerate(a: Vec2i, b: Vec2i)
    ensures Area(a, a, b) == 0 && Area(a, b, a) == 0 && Area(b, a, a) == 0
  {
    assert Area(b, a, a) == (a.x - b.x) * (a.y - b.y) - (a.y - b.y) * (a.x - b.x);
  }

  /** The three triangles a point p cuts abc into add up to abc. */
  lemma AreaSplit(a: Vec2i, b: Vec2i, c: Vec2i, p: Vec2i)
    ensures Area(a, b, p) + Area(b, c, p) + Area(c, a, p) == Area(a, b, c)
  {
    var ux, uy, wx, wy, px, py := b.x - a.x, b.y - a.y, c.x - a.x, c.y - a.y, p.x - a.x, p.y - a.y;
    assert Area(a, b, p) == ux * py - uy * px;
    assert Area(b, c, p) == (wx - ux) * (py - uy) - (wy - uy) * (px - ux);
    assert Area(c, a, p) == (-wx) * (py - wy) - (-wy) * (px - wx);
  }

  /** a, b and c lie on one line. */
  predicate Colinear(a: Vec2i, b: Vec2i, c: Vec2i) { Area(a, b, c) == 0 }

  /** c is left of the directed segment ab (abc is counter-clockwise). */
  predicate Left(a: Vec2i, b: Vec2i, c: Vec2i) { Area(a, b, c) > 0 }

  /** c is right of the directed segment ab (abc is clockwise). */
  predicate Right(a: Vec2i, b: Vec2i, c: Vec2i) { Area(a, b, c) < 0 }

  /** c is left of or on the line through ab. */
  predicate LeftOrOn(a: Vec2i, b: Vec2i, c: Vec2i) { Area(a, b, c) >= 0 }

  /** Exactly one of Left, Right and Colinear holds; LeftOrOn is "not
      Right"; and c is left of ab exactly when it is right of ba. */
  lemma Orientation(a: Vec2i, b: Vec2i, c: Vec2i)
    ensures Left(a, b, c) || Right(a, b, c) || Colinear(a, b, c)
    ensures !(Left(a, b, c) && Right(a, b, c))
    ensures Colinear(a, b, c) ==> !Left(a, b, c) && !Right(a, b, c)
    ensures LeftOrOn(a, b, c) <==> !Right(a, b, c)
    ensures Left(a, b, c) <==> Right(b, a, c)
    ensures Colinear(a, b, c) <==> Colinear(b, a, c)
  {
    AreaSwap(a, b, c);
  }
}
