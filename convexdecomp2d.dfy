/**
  The integer predicates and index bookkeeping of ConvexDecomp2d.cpp.

  A polygon is a loop of indices into a vertex list `verts`; corner `cur`
  of a loop of n indices has neighbours `Prev(cur, n)` and `Next(cur, n)`.
  The orientation tests (`IsReflex`, `SignsDiffer`, `Between`,
  `IntersectsOrTouches`, `IntersectsAndCrosses`) are functions on points;
  the loops (`IsConvex`, `CheckSelfIntersection2d`, the two walks of
  `Break`, `CanMerge` and the merge pass of `TryMerges`) are methods proved
  against the quantified statements they decide.
*/
module ConvexDecomp2D {
  import opened Vec2I
  import opened Util
  import Triangulate2D

  // ---- neighbours on a loop ----

  /** (cur + n - 1) % n: the corner before cur. */
  function Prev(cur: int, n: int): (r: int)
    requires 0 <= cur < n
    ensures r == (if cur == 0 then n - 1 else cur - 1)
  {
    (cur + n - 1) % n
  }

  /** (cur + 1) % n: the corner after cur. */
  function Next(cur: int, n: int): (r: int)
    requires 0 <= cur < n
    ensures r == (if cur == n - 1 then 0 else cur + 1)
  {
    (cur + 1) % n
  }

  /** Every entry of the loop indexes verts. */
  predicate ValidLoop(verts: seq<Vec2i>, ix: seq<int>)
  {
    forall i :: 0 <= i < |ix| ==> 0 <= ix[i] < |verts|
  }

  // ---- IsReflex, IsConvex ----

  /** IsReflex(A, B, C): the corner at B of a counter-clockwise loop turns
      clockwise. */
  predicate IsReflex(A: Vec2i, B: Vec2i, C: Vec2i)
  {
    Area(A, B, C) < 0
  }

  /** Being reflex is a property of the corner, not of where the walk
      starts; walking the corner backwards makes a reflex corner convex; a
      straight corner is never reflex. */
  lemma ReflexOrientation(A: Vec2i, B: Vec2i, C: Vec2i)
    ensures IsReflex(A, B, C) == IsReflex(B, C, A)
    ensures IsReflex(A, B, C) ==> !IsReflex(C, B, A)
    ensures Colinear(A, B, C) ==> !IsReflex(A, B, C) && !IsReflex(C, B, A)
  {
    AreaRotate(A, B, C);
    AreaSwap(A, B, C);
    AreaRotate(A, C, B);
  }

  /** Corner cur of the loop ix is reflex. */
  predicate ReflexCorner(verts: seq<Vec2i>, ix: seq<int>, cur: int)
    requires ValidLoop(verts, ix) && 0 <= cur < |ix|
  {
    var n := |ix|;
    IsReflex(verts[ix[Prev(cur, n)]], verts[ix[cur]], verts[ix[Next(cur, n)]])
  }

  /** No corner of the loop is reflex. */
  predicate Convex(verts: seq<Vec2i>, ix: seq<int>)
    requires ValidLoop(verts, ix)
  {
    forall cur :: 0 <= cur < |ix| ==> !ReflexCorner(verts, ix, cur)
  }

  /** IsConvex(verts, indeces): walks the corners and stops at the first
      reflex one. */
  method IsConvex(verts: seq<Vec2i>, ix: seq<int>) returns (r: bool)
    requires ValidLoop(verts, ix)
    ensures r <==> Convex(verts, ix)
  {
    var n := |ix|;
    var cur := 0;
    while cur < n
      invariant 0 <= cur <= n
      invariant forall c :: 0 <= c < cur ==> !ReflexCorner(verts, ix, c)
    {
      var prev := (cur + n - 1) % n;
      var next := (cur + 1) % n;
      if IsReflex(verts[ix[prev]], verts[ix[cur]], verts[ix[next]]) {
        assert ReflexCorner(verts, ix, cur);
        return false;
      }
      cur := cur + 1;
    }
    return true;
  }

  /** A counter-clockwise or flat triangle is convex. */
  lemma TriangleConvex(verts: seq<Vec2i>, a: int, b: int, c: int)
    requires 0 <= a < |verts| && 0 <= b < |verts| && 0 <= c < |verts|
    requires Area(verts[a], verts[b], verts[c]) >= 0
    ensures ValidLoop(verts, [a, b, c]) && Convex(verts, [a, b, c])
  {
    var ix := [a, b, c];
    AreaRotate(verts[a], verts[b], verts[c]);
    assert !ReflexCorner(verts, ix, 0) && !ReflexCorner(verts, ix, 1) && !ReflexCorner(verts, ix, 2);
  }

  // ---- ModDifference, ModDifferenceIs1 ----

  function Abs(a: int): nat { if a < 0 then -a else a }

  function Min(a: int, b: int): int { if a < b then a else b }

  /** ModDifference(a, b, m): a - b taken round a loop of m positions. Its
      magnitude is the shorter way round between a and b, at most
      (m + 1) / 2, and it differs from a - b by a multiple of m. */
  function ModDifference(a: int, b: int, m: int): (d: int)
    requires 0 <= a < m && 0 <= b < m
    ensures Abs(d) <= (m + 1) / 2
    ensures Abs(d) == Min(Abs(a - b), m - Abs(a - b))
    ensures d == a - b || d == a - b - m || d == a - b + m
  {
    var d := a - b;
    if d > m / 2 then d - m
    else if d < -(m / 2) then d + m
    else d
  }

  /** ModDifferenceIs1(a, b, m): a and b are neighbours on a loop of m. */
  function ModDifferenceIs1(a: int, b: int, m: int): (r: bool)
    requires 0 <= a < m && 0 <= b < m
    ensures r <==> a == Next(b, m) || b == Next(a, m)
  {
    if a == b + 1 || a == b - 1 then true
    else if a == 0 && b == m - 1 then true
    else if b == 0 && a == m - 1 then true
    else false
  }

  /** On a loop of at least two positions, neighbours are exactly the pairs
      one step apart the short way round. */
  lemma NeighboursAreOneApart(a: int, b: int, m: int)
    requires 0 <= a < m && 0 <= b < m && m >= 2
    ensures ModDifferenceIs1(a, b, m) <==> Abs(ModDifference(a, b, m)) == 1
  {
    var d := ModDifference(a, b, m);
    if Abs(d) == 1 {
      assert a - b == 1 || a - b == -1 || a - b == m - 1 || a - b == 1 - m;
    }
  }

  // ---- SignsDiffer, Between ----

  /** SignsDiffer(s1, s2): one is positive and the other negative. */
  function SignsDiffer(s1: int, s2: int): (r: bool)
    ensures r <==> s1 * s2 < 0
  {
    SignProduct(s1, s2);
    (s1 > 0 && s2 < 0) || (s1 < 0 && s2 > 0)
  }

  lemma SignProduct(a: int, b: int)
    ensures a * b < 0 <==> (a > 0 && b < 0) || (a < 0 && b > 0)
    ensures a * b <= 0 <==> (a >= 0 && b <= 0) || (a <= 0 && b >= 0)
  {
    if a > 0 && b > 0 {
      PositiveProduct(a, b);
    } else if a < 0 && b < 0 {
      PositiveProduct(-a, -b);
    } else if a > 0 && b < 0 {
      PositiveProduct(a, -b);
    } else if a < 0 && b > 0 {
      PositiveProduct(-a, b);
    }
  }

  lemma PositiveProduct(a: int, b: int)
    requires a > 0 && b > 0
    ensures a * b > 0 && (-a) * (-b) == a * b && (-a) * b == -(a * b) && a * (-b) == -(a * b)
  {
  }

  function Dot(u: Vec2i, v: Vec2i): int { u.x * v.x + u.y * v.y }

  function Sub(u: Vec2i, v: Vec2i): Vec2i { Vec2i(u.x - v.x, u.y - v.y) }

  /** C lies on the closed segment AB: collinear with it, and the vectors
      from C to the two ends do not point the same way. */
  predicate OnSegment(A: Vec2i, B: Vec2i, C: Vec2i)
  {
    Area(A, B, C) == 0 && Dot(Sub(C, A), Sub(C, B)) <= 0
  }

  /** Between(A, B, C), for C on the line AB: C lies between A and B,
      tested on x unless AB is vertical. */
  function Between(A: Vec2i, B: Vec2i, C: Vec2i): (r: bool)
    requires A != B && Area(A, B, C) == 0
    ensures r <==> OnSegment(A, B, C)
  {
    BetweenIsOnSegment(A, B, C);
    if B.x > A.x then C.x >= A.x && C.x <= B.x
    else if B.x < A.x then C.x <= A.x && C.x >= B.x
    else if B.y > A.y then C.y >= A.y && C.y <= B.y
    else C.y <= A.y && C.y >= B.y
  }

  /** For C on the line AB, the sign of the dot product is the sign of
      px * (px - dx) (or of py * (py - dy) when AB is vertical). */
  lemma BetweenIsOnSegment(A: Vec2i, B: Vec2i, C: Vec2i)
    requires A != B && Area(A, B, C) == 0
    ensures B.x != A.x ==> (OnSegment(A, B, C) <==> (C.x - A.x) * (C.x - B.x) <= 0)
    ensures B.x == A.x ==> C.x == A.x && (OnSegment(A, B, C) <==> (C.y - A.y) * (C.y - B.y) <= 0)
  {
    var dx, dy, px, py := B.x - A.x, B.y - A.y, C.x - A.x, C.y - A.y;
    assert dx * py == dy * px;
    var dot := px * (px - dx) + py * (py - dy);
    assert Dot(Sub(C, A), Sub(C, B)) == dot;
    if dx != 0 {
      DotSign(dx, dy, px, py);
    } else {
      assert dy * px == 0;
      assert px == 0;
      assert dot == py * (py - dy);
    }
  }

  /** With dx * py == dy * px and dx != 0, the dot product
      px * (px - dx) + py * (py - dy) has the sign of px * (px - dx). */
  lemma DotSign(dx: int, dy: int, px: int, py: int)
    requires dx != 0 && dx * py == dy * px
    ensures px * (px - dx) + py * (py - dy) <= 0 <==> px * (px - dx) <= 0
  {
    var dot := px * (px - dx) + py * (py - dy);
    calc {
      dx * dx * dot;
      dx * dx * (px * (px - dx)) + (dx * py) * (dx * py - dx * dy);
      dx * dx * (px * (px - dx)) + (dy * px) * (dy * px - dx * dy);
      (dx * dx + dy * dy) * (px * (px - dx));
    }
    PositiveScale(dx * dx, dot);
    PositiveScale(dx * dx + dy * dy, px * (px - dx));
  }

  /** Multiplying by a positive number keeps the sign. */
  lemma PositiveScale(k: int, x: int)
    requires k > 0
    ensures k * x <= 0 <==> x <= 0
  {
    SignProduct(k, x);
  }

  // ---- IntersectsOrTouches, IntersectsAndCrosses ----

  /** IntersectsAndCrosses(A, B, C, D): C and D lie strictly on opposite
      sides of the line AB, and A and B strictly on opposite sides of CD. */
  function IntersectsAndCrosses(A: Vec2i, B: Vec2i, C: Vec2i, D: Vec2i): (r: bool)
    ensures r <==> Area(A, B, C) * Area(A, B, D) < 0 && Area(C, D, A) * Area(C, D, B) < 0
  {
    var abc, abd, cda, cdb := Area(A, B, C), Area(A, B, D), Area(C, D, A), Area(C, D, B);
    SignsDiffer(abc, abd) && SignsDiffer(cda, cdb)
  }

  /** IntersectsOrTouches(A, B, C, D): the closed segments AB and CD meet,
      either properly crossing or with an end of one on the other. */
  function IntersectsOrTouches(A: Vec2i, B: Vec2i, C: Vec2i, D: Vec2i): (r: bool)
    requires A != B && C != D
    ensures r <==> OnSegment(A, B, C) || OnSegment(A, B, D) || OnSegment(C, D, A) || OnSegment(C, D, B)
                   || IntersectsAndCrosses(A, B, C, D)
  {
    var abc, abd, cda, cdb := Area(A, B, C), Area(A, B, D), Area(C, D, A), Area(C, D, B);
    if abc == 0 && Between(A, B, C) then true
    else if abd == 0 && Between(A, B, D) then true
    else if cda == 0 && Between(C, D, A) then true
    else if cdb == 0 && Between(C, D, B) then true
    else SignsDiffer(abc, abd) && SignsDiffer(cda, cdb)
  }

  /** Crossing does not depend on the order of the segments or the
      direction of either. */
  lemma CrossingSymmetric(A: Vec2i, B: Vec2i, C: Vec2i, D: Vec2i)
    ensures IntersectsAndCrosses(A, B, C, D) == IntersectsAndCrosses(C, D, A, B)
    ensures IntersectsAndCrosses(A, B, C, D) == IntersectsAndCrosses(B, A, C, D)
  {
    AreaSwap(A, B, C);
    AreaSwap(A, B, D);
    AreaSwap(C, D, B);
    assert SignsDiffer(Area(B, A, C), Area(B, A, D)) == SignsDiffer(Area(A, B, C), Area(A, B, D));
    assert SignsDiffer(Area(C, D, B), Area(C, D, A)) == SignsDiffer(Area(C, D, A), Area(C, D, B));
  }

  /** Crossing implies touching, and two segments that share an end never
      cross. */
  lemma CrossingTouches(A: Vec2i, B: Vec2i, C: Vec2i, D: Vec2i)
    ensures A != B && C != D && IntersectsAndCrosses(A, B, C, D) ==> IntersectsOrTouches(A, B, C, D)
    ensures !IntersectsAndCrosses(A, B, B, D) && !IntersectsAndCrosses(A, B, C, A)
  {
    AreaDegenerate(A, B);
    assert !SignsDiffer(Area(A, B, B), Area(A, B, D));
    assert !SignsDiffer(Area(C, A, A), Area(C, A, B));
  }

  /** Two segments that share an end touch. */
  lemma SharedEndTouches(A: Vec2i, B: Vec2i, D: Vec2i)
    requires A != B && B != D
    ensures IntersectsOrTouches(A, B, B, D)
  {
    AreaDegenerate(A, B);
    assert Sub(B, B) == Vec2i(0, 0);
    assert OnSegment(A, B, B);
  }

  // ---- CheckSelfIntersection2d ----

  /** Edge i (from contour[i] to the next point round the loop) properly
      crosses edge j. */
  predicate EdgesCross(contour: seq<Vec2i>, i: int, j: int)
    requires 0 <= i < |contour| && 0 <= j < |contour|
  {
    var s := |contour|;
    IntersectsAndCrosses(contour[i], contour[(i + 1) % s], contour[j], contour[(j + 1) % s])
  }

  /** Some two edges of the closed contour properly cross. */
  ghost predicate SelfIntersects(contour: seq<Vec2i>)
  {
    exists i, j :: 0 <= i < j < |contour| && EdgesCross(contour, i, j)
  }

  /** CheckSelfIntersection2d(contour), integer version: compares each edge
      with every later edge. Neighbouring edges share an end, so they never
      count (CrossingProperties). */
  method CheckSelfIntersection2d(contour: seq<Vec2i>) returns (r: bool)
    ensures r <==> SelfIntersects(contour)
  {
    var s := |contour|;
    var i := 0;
    while i < s
      invariant 0 <= i <= s
      invariant forall a, b :: 0 <= a < i && a < b < s ==> !EdgesCross(contour, a, b)
    {
      var A, B := contour[i], contour[(i + 1) % s];
      var j := i + 1;
      while j < s
        invariant i + 1 <= j <= s
        invariant forall b :: i < b < j ==> !EdgesCross(contour, i, b)
      {
        var C, D := contour[j], contour[(j + 1) % s];
        if IntersectsAndCrosses(A, B, C, D) {
          assert EdgesCross(contour, i, j);
          return true;
        }
        j := j + 1;
      }
      i := i + 1;
    }
    return false;
  }

  // ---- Break ----

  /** The loop ix read from position k on, round to just before k. */
  function Rotate(ix: seq<int>, k: int): (r: seq<int>)
    requires 0 <= k <= |ix|
    ensures |r| == |ix| && multiset(r) == multiset(ix)
  {
    assert ix == ix[..k] + ix[k..];
    ix[k..] + ix[..k]
  }

  /** The position k steps after v1 on a loop of n. */
  function Pos(v1: int, k: int, n: int): (r: int)
    requires 0 <= v1 < n && 0 <= k < n
    ensures 0 <= r < n
  {
    if v1 + k < n then v1 + k else v1 + k - n
  }

  /** Steps from v1 forward round a loop of n to v2. */
  function Dist(v1: int, v2: int, n: int): (d: int)
    requires 0 <= v1 < n && 0 <= v2 < n
    ensures 0 <= d < n && Pos(v1, d, n) == v2
    ensures forall k :: 0 <= k < n && Pos(v1, k, n) == v2 ==> k == d
  {
    if v2 >= v1 then v2 - v1 else v2 - v1 + n
  }

  lemma RotateAt(ix: seq<int>, v1: int, k: int)
    requires 0 <= v1 < |ix| && 0 <= k < |ix|
    ensures Rotate(ix, v1)[k] == ix[Pos(v1, k, |ix|)]
  {
  }

  /** The walk `for(i=v;;i++){ if(i==n) i=0; out.push(ix[i]); if(i==stop) break; }`:
      the loop from position v round to position stop, both included. */
  method Walk(ix: seq<int>, v: int, stop: int) returns (out: seq<int>)
    requires 0 <= v < |ix| && 0 <= stop < |ix|
    ensures out == Rotate(ix, v)[..Dist(v, stop, |ix|) + 1]
  {
    var n := |ix|;
    ghost var d := Dist(v, stop, n);
    out := [];
    var i := v;
    ghost var k := 0;
    while true
      invariant 0 <= k <= d && 0 <= i <= n
      invariant (if i == n then 0 else i) == Pos(v, k, n)
      invariant out == Rotate(ix, v)[..k]
      decreases d - k
    {
      if i == n {
        i := 0;
      }
      RotateAt(ix, v, k);
      out := out + [ix[i]];
      if i == stop {
        assert k == d;
        return;
      }
      i, k := i + 1, k + 1;
    }
  }

  /** Break(v1, v2)'s two halves of the loop ix before the recursion: the
      walk from v1 round to v2 and the walk from v2 round to v1. */
  method Break(ix: seq<int>, v1: int, v2: int) returns (ix1: seq<int>, ix2: seq<int>)
    requires 0 <= v1 < |ix| && 0 <= v2 < |ix| && v1 != v2
    ensures ix1 == Rotate(ix, v1)[..Dist(v1, v2, |ix|) + 1]
    ensures ix2 == Rotate(ix, v2)[..Dist(v2, v1, |ix|) + 1]
    ensures ix1[0] == ix[v1] && ix1[|ix1| - 1] == ix[v2]
    ensures ix2[0] == ix[v2] && ix2[|ix2| - 1] == ix[v1]
    ensures |ix1| + |ix2| == |ix| + 2
    ensures |ix1| < |ix| && |ix2| < |ix| <==> !ModDifferenceIs1(v1, v2, |ix|)
  {
    ix1 := Walk(ix, v1, v2);
    ix2 := Walk(ix, v2, v1);
    var n := |ix|;
    RotateAt(ix, v1, 0);
    RotateAt(ix, v1, Dist(v1, v2, n));
    RotateAt(ix, v2, 0);
    RotateAt(ix, v2, Dist(v2, v1, n));
  }

  /** Together the two halves hold every index of the loop once, except the
      two cut ends, which are in both. */
  lemma BreakCovers(ix: seq<int>, v1: int, v2: int)
    requires 0 <= v1 < |ix| && 0 <= v2 < |ix| && v1 != v2
    ensures multiset(Rotate(ix, v1)[..Dist(v1, v2, |ix|) + 1]) + multiset(Rotate(ix, v2)[..Dist(v2, v1, |ix|) + 1])
            == multiset(ix) + multiset{ix[v1], ix[v2]}
  {
    var R := Rotate(ix, v1);
    var d := Dist(v1, v2, |ix|);
    SecondHalf(ix, v1, v2);
    RotateAt(ix, v1, 0);
    RotateAt(ix, v1, d);
    CutTwice(R, d);
  }

  /** Cutting a sequence at d, keeping R[d] at the end of the first part
      and R[0] at the end of the second, repeats exactly those two. */
  lemma CutTwice(R: seq<int>, d: int)
    requires 0 <= d < |R|
    ensures multiset(R[..d + 1]) + multiset(R[d..] + R[..1]) == multiset(R) + multiset{R[0], R[d]}
  {
    var head, tail := R[..d], R[d..];
    assert R == head + tail;
    assert R[..d + 1] == head + [R[d]];
    assert R[..1] == [R[0]];
  }

  /** The walk from v2 round to v1 is the rotation from v1 read from the
      position of v2 to its end, and then its first entry again. */
  lemma SecondHalf(ix: seq<int>, v1: int, v2: int)
    requires 0 <= v1 < |ix| && 0 <= v2 < |ix| && v1 != v2
    ensures var R, d := Rotate(ix, v1), Dist(v1, v2, |ix|);
            Rotate(ix, v2)[..Dist(v2, v1, |ix|) + 1] == R[d..] + R[..1]
  {
    var n := |ix|;
    var R := Rotate(ix, v1);
    var d := Dist(v1, v2, n);
    var ix2 := Rotate(ix, v2)[..Dist(v2, v1, n) + 1];
    assert Dist(v2, v1, n) == n - d;
    forall k | 0 <= k < |ix2|
      ensures ix2[k] == (R[d..] + R[..1])[k]
    {
      RotateAt(ix, v2, k);
      if k < n - d {
        RotateAt(ix, v1, d + k);
      } else {
        RotateAt(ix, v1, 0);
      }
    }
  }

  // ---- CanMerge ----

  /** Every loop of the list indexes verts. */
  predicate ValidLoops(verts: seq<Vec2i>, polys: seq<seq<int>>)
  {
    forall p :: 0 <= p < |polys| ==> ValidLoop(verts, polys[p])
  }

  /** The joined loop CanMerge builds: poly2 from n2 round to just before
      v2, then poly1 from n1 round to just before v1. */
  function Merged(poly1: seq<int>, n1: int, poly2: seq<int>, n2: int): seq<int>
    requires 0 <= n1 < |poly1| && 0 <= n2 < |poly2|
  {
    Rotate(poly2, n2)[..|poly2| - 1] + Rotate(poly1, n1)[..|poly1| - 1]
  }

  /** Neither corner the merge creates is reflex: at A = poly1[v1] (between
      poly1's corner before it and poly2's corner after it) and at
      B = poly2[v2] (between poly2's corner before it and poly1's corner
      after it). */
  predicate JoinIsConvex(verts: seq<Vec2i>, poly1: seq<int>, v1: int, poly2: seq<int>, v2: int)
    requires ValidLoop(verts, poly1) && ValidLoop(verts, poly2)
    requires 0 <= v1 < |poly1| && 0 <= v2 < |poly2|
  {
    var size1, size2 := |poly1|, |poly2|;
    var p1, p2, nn1, nn2 := Prev(v1, size1), Prev(v2, size2), Next(Next(v1, size1), size1), Next(Next(v2, size2), size2);
    !IsReflex(verts[poly1[p1]], verts[poly1[v1]], verts[poly2[nn2]]) &&
    !IsReflex(verts[poly2[p2]], verts[poly2[v2]], verts[poly1[nn1]])
  }

  /** CanMerge(poly1, v1, n1, poly2, v2, n2): the two loops share the edge
      v1-n1 of poly1, which is n2-v2 of poly2. When neither new corner is
      reflex they merge into one loop of size1 + size2 - 2 indices. */
  method CanMerge(verts: seq<Vec2i>, poly1: seq<int>, v1: int, n1: int, poly2: seq<int>, v2: int, n2: int)
      returns (ok: bool, merged: seq<int>)
    requires ValidLoop(verts, poly1) && ValidLoop(verts, poly2)
    requires 0 <= v1 < |poly1| && n1 == Next(v1, |poly1|)
    requires 0 <= v2 < |poly2| && n2 == Next(v2, |poly2|)
    requires poly1[v1] == poly2[n2] && poly1[n1] == poly2[v2]
    ensures ok <==> JoinIsConvex(verts, poly1, v1, poly2, v2)
    ensures ok ==> merged == Merged(poly1, n1, poly2, n2)
    ensures ok ==> |merged| == |poly1| + |poly2| - 2
  {
    var size1, size2 := |poly1|, |poly2|;
    var p1 := (v1 + size1 - 1) % size1;
    var p2 := (v2 + size2 - 1) % size2;
    var nn1 := (n1 + 1) % size1;
    var nn2 := (n2 + 1) % size2;
    var AP, A, AN := verts[poly1[p1]], verts[poly1[v1]], verts[poly2[nn2]];
    var BP, B, BN := verts[poly2[p2]], verts[poly2[v2]], verts[poly1[nn1]];
    if IsReflex(AP, A, AN) {
      return false, [];
    }
    if IsReflex(BP, B, BN) {
      return false, [];
    }
    var part2 := WalkBefore(poly2, n2, v2);
    var part1 := WalkBefore(poly1, n1, v1);
    merged := part2 + part1;
    ok := true;
  }

  /** `for(i=n;;i++){ if(i==size) i=0; if(i==v) break; out.push(poly[i]); }`
      with n the corner after v: the whole loop from n on, without v. */
  method WalkBefore(poly: seq<int>, n: int, v: int) returns (out: seq<int>)
    requires 0 <= v < |poly| && n == Next(v, |poly|)
    ensures out == Rotate(poly, n)[..|poly| - 1]
  {
    var size := |poly|;
    ghost var d := size - 1;
    assert Dist(n, v, size) == d;
    out := [];
    var i := n;
    ghost var k := 0;
    while true
      invariant 0 <= k <= d && 0 <= i <= size
      invariant (if i == size then 0 else i) == Pos(n, k, size)
      invariant out == Rotate(poly, n)[..k]
      decreases d - k
    {
      if i == size {
        i := 0;
      }
      if i == v {
        assert k == d;
        return;
      }
      RotateAt(poly, n, k);
      out := out + [poly[i]];
      i, k := i + 1, k + 1;
    }
  }

  /** The merged loop holds both loops' indices but the shared edge's two
      ends once each instead of twice. */
  lemma MergedCovers(poly1: seq<int>, v1: int, poly2: seq<int>, v2: int)
    requires 0 <= v1 < |poly1| && 0 <= v2 < |poly2|
    ensures var n1, n2 := Next(v1, |poly1|), Next(v2, |poly2|);
            multiset(Merged(poly1, n1, poly2, n2)) == (multiset(poly2) - multiset{poly2[v2]}) + (multiset(poly1) - multiset{poly1[v1]})
  {
    var n1, n2 := Next(v1, |poly1|), Next(v2, |poly2|);
    var part2, part1 := Rotate(poly2, n2)[..|poly2| - 1], Rotate(poly1, n1)[..|poly1| - 1];
    assert Merged(poly1, n1, poly2, n2) == part2 + part1;
    DropLast(poly1, v1);
    DropLast(poly2, v2);
  }

  /** Reading the loop from the corner after v and stopping before v leaves
      out v only. */
  lemma DropLast(poly: seq<int>, v: int)
    requires 0 <= v < |poly|
    ensures multiset(Rotate(poly, Next(v, |poly|))[..|poly| - 1]) == multiset(poly) - multiset{poly[v]}
  {
    var n := Next(v, |poly|);
    var R := Rotate(poly, n);
    RotateAt(poly, n, |poly| - 1);
    assert R == R[..|poly| - 1] + [R[|poly| - 1]];
  }

  // ---- TryMerges ----

  /** Polygons poly1 and poly2 can be merged across edge v1 of poly1 and
      edge v2 of poly2: the edges match (the same pair of indices, walked in
      opposite directions) and the join is convex. */
  ghost predicate CanMergeAt(verts: seq<Vec2i>, poly1: seq<int>, v1: int, poly2: seq<int>, v2: int)
    requires ValidLoop(verts, poly1) && ValidLoop(verts, poly2)
    requires 0 <= v1 < |poly1| && 0 <= v2 < |poly2|
  {
    var n1, n2 := Next(v1, |poly1|), Next(v2, |poly2|);
    Triangulate2D.Match(poly1[v1], poly1[n1], poly2[n2], poly2[v2]) &&
    JoinIsConvex(verts, poly1, v1, poly2, v2)
  }

  /** No two polygons of the list can be merged. */
  ghost predicate NoMerge(verts: seq<Vec2i>, polys: seq<seq<int>>)
    requires ValidLoops(verts, polys)
  {
    forall p1, p2, v1, v2 :: 0 <= p1 < p2 < |polys| && 0 <= v1 < |polys[p1]| && 0 <= v2 < |polys[p2]| ==>
      !CanMergeAt(verts, polys[p1], v1, polys[p2], v2)
  }

  /** The total number of indices in the list. */
  function TotalSize(polys: seq<seq<int>>): nat
  {
    if polys == [] then 0 else TotalSize(polys[..|polys| - 1]) + |polys[|polys| - 1]|
  }

  lemma {:induction false} TotalSizeUpdate(polys: seq<seq<int>>, i: int, x: seq<int>)
    requires 0 <= i < |polys|
    ensures TotalSize(polys[i := x]) == TotalSize(polys) - |polys[i]| + |x|
    decreases |polys|
  {
    var last := |polys| - 1;
    var q := polys[i := x];
    assert q[..last] == if i == last then polys[..last] else polys[..last][i := x];
    if i < last {
      TotalSizeUpdate(polys[..last], i, x);
    }
  }

  /** erase_u removes one polygon's indices from the total. */
  lemma TotalSizeEraseU(polys: seq<seq<int>>, i: int)
    requires 0 <= i < |polys|
    ensures TotalSize(EraseU(polys, i)) == TotalSize(polys) - |polys[i]|
  {
    var last := |polys| - 1;
    TotalSizeUpdate(polys, i, polys[last]);
    var q := polys[i := polys[last]];
    assert q[..last] == EraseU(polys, i);
  }

  /** One scan over the pairs of edges of poly1 and poly2, in the source's
      order; the first mergeable pair is merged. */
  method MergePair(verts: seq<Vec2i>, poly1: seq<int>, poly2: seq<int>) returns (found: bool, merged: seq<int>)
    requires ValidLoop(verts, poly1) && ValidLoop(verts, poly2)
    ensures found ==> ValidLoop(verts, merged) && |merged| == |poly1| + |poly2| - 2
    ensures !found <==> forall v1, v2 :: 0 <= v1 < |poly1| && 0 <= v2 < |poly2| ==> !CanMergeAt(verts, poly1, v1, poly2, v2)
  {
    var v1 := 0;
    while v1 < |poly1|
      invariant 0 <= v1 <= |poly1|
      invariant forall a, b :: 0 <= a < v1 && 0 <= b < |poly2| ==> !CanMergeAt(verts, poly1, a, poly2, b)
    {
      found, merged := MergeAtEdge(verts, poly1, v1, poly2);
      if found {
        return;
      }
      v1 := v1 + 1;
    }
    return false, [];
  }

  /** The inner scan: edge v1 of poly1 against each edge of poly2. */
  method MergeAtEdge(verts: seq<Vec2i>, poly1: seq<int>, v1: int, poly2: seq<int>) returns (found: bool, merged: seq<int>)
    requires ValidLoop(verts, poly1) && ValidLoop(verts, poly2) && 0 <= v1 < |poly1|
    ensures found ==> ValidLoop(verts, merged) && |merged| == |poly1| + |poly2| - 2
    ensures !found <==> forall v2 :: 0 <= v2 < |poly2| ==> !CanMergeAt(verts, poly1, v1, poly2, v2)
  {
    var size1, size2 := |poly1|, |poly2|;
    var n1 := (v1 + 1) % size1;
    var v2 := 0;
    while v2 < size2
      invariant 0 <= v2 <= size2
      invariant forall b :: 0 <= b < v2 ==> !CanMergeAt(verts, poly1, v1, poly2, b)
    {
      var n2 := (v2 + 1) % size2;
      if Triangulate2D.Match(poly1[v1], poly1[n1], poly2[n2], poly2[v2]) {
        var ok;
        ok, merged := CanMerge(verts, poly1, v1, n1, poly2, v2, n2);
        if ok {
          MergedValid(verts, poly1, v1, poly2, v2);
          assert CanMergeAt(verts, poly1, v1, poly2, v2);
          return true, merged;
        }
      }
      v2 := v2 + 1;
    }
    return false, [];
  }

  /** The merged loop indexes verts. */
  lemma MergedValid(verts: seq<Vec2i>, poly1: seq<int>, v1: int, poly2: seq<int>, v2: int)
    requires ValidLoop(verts, poly1) && ValidLoop(verts, poly2)
    requires 0 <= v1 < |poly1| && 0 <= v2 < |poly2|
    ensures ValidLoop(verts, Merged(poly1, Next(v1, |poly1|), poly2, Next(v2, |poly2|)))
  {
    var m := Merged(poly1, Next(v1, |poly1|), poly2, Next(v2, |poly2|));
    MergedCovers(poly1, v1, poly2, v2);
    forall i | 0 <= i < |m|
      ensures 0 <= m[i] < |verts|
    {
      assert m[i] in multiset(m);
      assert m[i] in poly1 || m[i] in poly2;
    }
  }

  /** One pass of the do-while body: the first pair of polygons (p1 < p2,
      in scan order) with a mergeable pair of edges. */
  method FindMerge(verts: seq<Vec2i>, polys: seq<seq<int>>) returns (found: bool, p1: int, p2: int, merged: seq<int>)
    requires ValidLoops(verts, polys)
    ensures found ==> 0 <= p1 < p2 < |polys| && ValidLoop(verts, merged)
    ensures found ==> |merged| == |polys[p1]| + |polys[p2]| - 2
    ensures !found <==> NoMerge(verts, polys)
  {
    var n := |polys|;
    p1 := 0;
    while p1 < n
      invariant 0 <= p1 <= n
      invariant forall a, b, v1, v2 :: 0 <= a < p1 && a < b < n && 0 <= v1 < |polys[a]| && 0 <= v2 < |polys[b]| ==>
        !CanMergeAt(verts, polys[a], v1, polys[b], v2)
    {
      p2 := p1 + 1;
      while p2 < n
        invariant p1 + 1 <= p2 <= n
        invariant forall b, v1, v2 :: p1 < b < p2 && 0 <= v1 < |polys[p1]| && 0 <= v2 < |polys[b]| ==>
          !CanMergeAt(verts, polys[p1], v1, polys[b], v2)
      {
        found, merged := MergePair(verts, polys[p1], polys[p2]);
        if found {
          return;
        }
        p2 := p2 + 1;
      }
      p1 := p1 + 1;
    }
    return false, 0, 0, [];
  }

  /** TryMerges: merges neighbouring polygons while any pair can be merged.
      Each merge replaces two loops by one two indices shorter than the
      pair (the shared edge's ends are kept once), and when it stops no pair
      can be merged. */
  method TryMerges(verts: seq<Vec2i>, polys: seq<seq<int>>) returns (res: seq<seq<int>>)
    requires ValidLoops(verts, polys)
    ensures ValidLoops(verts, res)
    ensures |res| <= |polys|
    ensures TotalSize(res) + 2 * (|polys| - |res|) == TotalSize(polys)
    ensures NoMerge(verts, res)
  {
    res := polys;
    var didMerge := true;
    while didMerge
      invariant ValidLoops(verts, res) && |res| <= |polys|
      invariant TotalSize(res) + 2 * (|polys| - |res|) == TotalSize(polys)
      invariant !didMerge ==> NoMerge(verts, res)
      decreases |res| + (if didMerge then 1 else 0)
    {
      didMerge := false;
      var found, p1, p2, merged := FindMerge(verts, res);
      if found {
        var erased := EraseU(res, p2);
        TotalSizeEraseU(res, p2);
        TotalSizeUpdate(erased, p1, merged);
        res := erased[p1 := merged];
        didMerge := true;
      }
    }
  }
}
