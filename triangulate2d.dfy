/**
  The integer ear-clipping triangulation of Triangulate2d.cpp.

  `Triangulate` keeps the remaining polygon as the first `nv` entries of
  the index array `V`. It walks round it trying the ear (u, v, w) of three
  consecutive remaining vertices; a successful `Snip` emits the triangle
  and shifts `V` down over v. After 2 * nv failed candidates in a row it
  gives up. The model proves what the output is (a list of good
  triangles, one per clipped vertex, n - 2 of them on success) and what a
  failure means: the remaining polygon has no ear at all.
*/
module Triangulate2D {
  import opened Vec2I

  // ---- Triangulate2d_InsideTriangle ----

  /** P lies in the closed counter-clockwise triangle ABC: on or left of
      each of its three edges. */
  function InsideTriangle(A: Vec2i, B: Vec2i, C: Vec2i, P: Vec2i): (r: bool)
    requires Area(A, B, C) > 0
    ensures r <==> LeftOrOn(A, B, P) && LeftOrOn(B, C, P) && LeftOrOn(C, A, P)
  {
    if Area(A, B, P) < 0 then false
    else if Area(B, C, P) < 0 then false
    else if Area(C, A, P) < 0 then false
    else true
  }

  /** The three corners of the triangle are inside it. */
  lemma CornersInside(A: Vec2i, B: Vec2i, C: Vec2i)
    requires Area(A, B, C) > 0
    ensures InsideTriangle(A, B, C, A) && InsideTriangle(A, B, C, B) && InsideTriangle(A, B, C, C)
  {
    AreaDegenerate(A, B);
    AreaDegenerate(B, C);
    AreaDegenerate(C, A);
    AreaRotate(A, B, C);
  }

  /** The test does not depend on which corner is named first. */
  lemma InsideTriangleRotate(A: Vec2i, B: Vec2i, C: Vec2i, P: Vec2i)
    requires Area(A, B, C) > 0
    ensures Area(B, C, A) > 0
    ensures InsideTriangle(B, C, A, P) == InsideTriangle(A, B, C, P)
  {
    AreaRotate(A, B, C);
  }

  /** A point inside cuts the triangle into three triangles whose areas are
      between 0 and the whole triangle's. */
  lemma InsideTriangleSplit(A: Vec2i, B: Vec2i, C: Vec2i, P: Vec2i)
    requires Area(A, B, C) > 0 && InsideTriangle(A, B, C, P)
    ensures 0 <= Area(A, B, P) <= Area(A, B, C)
    ensures 0 <= Area(B, C, P) <= Area(A, B, C)
    ensures 0 <= Area(C, A, P) <= Area(A, B, C)
  {
    AreaSplit(A, B, C, P);
  }

  // ---- the remaining polygon ----

  /** Every entry of W indexes the contour. */
  predicate ValidIndices(contour: seq<Vec2i>, W: seq<int>)
  {
    forall i :: 0 <= i < |W| ==> 0 <= W[i] < |contour|
  }

  /** No index occurs twice in W. */
  predicate Distinct(W: seq<int>)
  {
    forall i, j :: 0 <= i < j < |W| ==> W[i] != W[j]
  }

  /** Snip's test on the remaining polygon W: the corners W[u], W[v], W[w]
      turn counter-clockwise and no other remaining vertex lies in that
      triangle. */
  ghost predicate IsEar(contour: seq<Vec2i>, W: seq<int>, u: int, v: int, w: int)
    requires ValidIndices(contour, W)
    requires 0 <= u < |W| && 0 <= v < |W| && 0 <= w < |W|
  {
    var A, B, C := contour[W[u]], contour[W[v]], contour[W[w]];
    Area(A, B, C) > 0 &&
    forall p :: 0 <= p < |W| && p != u && p != v && p != w ==> !InsideTriangle(A, B, C, contour[W[p]])
  }

  /** The candidate ear that starts at position u of W. */
  ghost predicate EarAt(contour: seq<Vec2i>, W: seq<int>, u: int)
    requires ValidIndices(contour, W) && 0 <= u < |W|
  {
    var v := (u + 1) % |W|;
    IsEar(contour, W, u, v, (v + 1) % |W|)
  }

  /** No position of W starts an ear. */
  ghost predicate NoEar(contour: seq<Vec2i>, W: seq<int>)
    requires ValidIndices(contour, W)
  {
    forall u :: 0 <= u < |W| ==> !EarAt(contour, W, u)
  }

  // ---- Triangulate2d_Snip ----

  /** Snip(u, v, w, n, V): whether (u, v, w) is an ear of the polygon V[..n]. */
  method Snip(contour: seq<Vec2i>, u: int, v: int, w: int, n: int, V: array<int>) returns (ok: bool)
    requires 0 <= n <= V.Length && ValidIndices(contour, V[..n])
    requires 0 <= u < n && 0 <= v < n && 0 <= w < n
    ensures ok <==> IsEar(contour, V[..n], u, v, w)
  {
    var A, B, C := contour[V[u]], contour[V[v]], contour[V[w]];
    if Area(A, B, C) <= 0 {
      return false;
    }
    var p := 0;
    while p < n
      invariant 0 <= p <= n
      invariant forall q :: 0 <= q < p && q != u && q != v && q != w ==> !InsideTriangle(A, B, C, contour[V[..n][q]])
    {
      if p != u && p != v && p != w {
        if InsideTriangle(A, B, C, contour[V[p]]) {
          assert V[..n][p] == V[p];
          return false;
        }
      }
      p := p + 1;
    }
    return true;
  }

  // ---- the output ----

  /** Triangle k of tri: three distinct contour indices turning
      counter-clockwise. */
  predicate GoodTriangle(contour: seq<Vec2i>, tri: seq<int>, k: int)
    requires 0 <= k && 3 * k + 2 < |tri|
  {
    var a, b, c := tri[3 * k], tri[3 * k + 1], tri[3 * k + 2];
    0 <= a < |contour| && 0 <= b < |contour| && 0 <= c < |contour| &&
    a != b && b != c && a != c &&
    Area(contour[a], contour[b], contour[c]) > 0
  }

  /** tri is a list of whole, good triangles. */
  predicate Triangles(contour: seq<Vec2i>, tri: seq<int>)
  {
    |tri| % 3 == 0 &&
    forall k :: 0 <= k < |tri| && 3 * k + 2 < |tri| ==> GoodTriangle(contour, tri, k)
  }

  lemma TrianglesSnoc(contour: seq<Vec2i>, tri: seq<int>, a: int, b: int, c: int)
    requires Triangles(contour, tri)
    requires 0 <= a < |contour| && 0 <= b < |contour| && 0 <= c < |contour|
    requires a != b && b != c && a != c && Area(contour[a], contour[b], contour[c]) > 0
    ensures Triangles(contour, tri + [a, b, c])
  {
    var t := tri + [a, b, c];
    forall k | 0 <= k && 3 * k + 2 < |t|
      ensures GoodTriangle(contour, t, k)
    {
      if 3 * k + 2 < |tri| {
        assert GoodTriangle(contour, tri, k);
        assert t[3 * k] == tri[3 * k] && t[3 * k + 1] == tri[3 * k + 1] && t[3 * k + 2] == tri[3 * k + 2];
      } else {
        assert 3 * k == |tri|;
      }
    }
  }

  /** Dropping one entry keeps the indices distinct and valid. */
  lemma RemovePreserves(contour: seq<Vec2i>, W: seq<int>, v: int)
    requires ValidIndices(contour, W) && Distinct(W) && 0 <= v < |W|
    ensures ValidIndices(contour, W[..v] + W[v + 1..])
    ensures Distinct(W[..v] + W[v + 1..])
  {
    var R := W[..v] + W[v + 1..];
    assert forall i :: 0 <= i < |R| ==> R[i] == W[if i < v then i else i + 1];
  }

  // ---- the shift that removes a vertex ----

  /** for(s=v,t=v+1;t<nv;s++,t++) V[s]=V[t]: slot v leaves the polygon V[..nv]. */
  method RemoveAt(V: array<int>, v: int, nv: int)
    requires 0 <= v < nv <= V.Length
    modifies V
    ensures V[..nv - 1] == old(V[..v]) + old(V[v + 1..nv])
  {
    var s, t := v, v + 1;
    while t < nv
      invariant v <= s && t == s + 1 && t <= nv
      invariant V[..s] == old(V[..v]) + old(V[v + 1..t])
      invariant V[s..] == old(V[s..])
    {
      V[s] := V[t];
      s, t := s + 1, t + 1;
    }
  }

  // ---- the candidate walk ----

  /** The position tried i candidates before the one at v (all taken
      round a polygon of nv vertices). */
  function Back(v: int, i: int, nv: int): (r: int)
    requires 0 <= v <= nv && 0 <= i < nv
    ensures 0 <= r < nv
    ensures (r - (v - 1 - i)) % nv == 0
  {
    if v - 1 - i >= 0 then v - 1 - i else v - 1 - i + nv
  }

  /** `u = v % nv; v = (u+1) % nv` for 0 <= v <= nv, written without `%`. */
  lemma StepPositions(v: int, nv: int)
    requires 0 <= v <= nv && nv > 0
    ensures v % nv == (if v == nv then 0 else v)
    ensures var u := v % nv; (u + 1) % nv == (if u + 1 == nv then 0 else u + 1)
  {
  }

  /** After a failed candidate u the streak of failures seen from the new
      position is the old streak preceded by u. */
  lemma BackStep(v: int, nv: int, i: int)
    requires 0 <= v <= nv && nv > 0 && 0 <= i && i + 1 < nv
    ensures var u := if v == nv then 0 else v;
            var v' := if u + 1 == nv then 0 else u + 1;
            Back(v', 0, nv) == u && Back(v', i + 1, nv) == Back(v, i, nv)
  {
  }

  /** nv failures in a row cover every position. */
  lemma BackCovers(v: int, nv: int, x: int)
    requires 0 <= v <= nv && 0 <= x < nv
    ensures var i := if v - 1 - x >= 0 then v - 1 - x else v - 1 - x + nv;
            0 <= i < nv && Back(v, i, nv) == x
  {
  }

  /** The state of the clipping loop: what has been clipped so far
      (`Clipped`) and the walk since the last clip (`Streak`). */
  ghost predicate Clipping(contour: seq<Vec2i>, W: seq<int>, v: int, count: int, tri: seq<int>, streak: int)
  {
    Clipped(contour, W, tri) && Streak(contour, W, v, count, streak)
  }

  /** W = V[..nv] is the remaining polygon, of distinct contour indices, and
      one good triangle was emitted per clipped vertex. */
  ghost predicate Clipped(contour: seq<Vec2i>, W: seq<int>, tri: seq<int>)
  {
    var n, nv := |contour|, |W|;
    nv <= n && (n >= 3 ==> nv >= 2) && (n < 3 ==> nv == n) &&
    ValidIndices(contour, W) && Distinct(W) &&
    Triangles(contour, tri) && |tri| == 3 * (n - nv)
  }

  /** The `streak` candidates tried since the last clip (count has fallen by
      that much from 2 * nv) all failed. */
  ghost predicate Streak(contour: seq<Vec2i>, W: seq<int>, v: int, count: int, streak: int)
    requires ValidIndices(contour, W)
  {
    var nv := |W|;
    0 <= v <= nv &&
    0 <= streak <= 2 * nv && count == 2 * nv - streak &&
    (streak > 0 ==> v < nv) &&
    forall i :: 0 <= i < streak && i < nv ==> !EarAt(contour, W, Back(v, i, nv))
  }

  // ---- Triangulate2d ----

  /** Triangulate2d(contour): ear-clips the polygon. The result is always a
      list of good triangles (distinct corners, counter-clockwise), one per
      clipped vertex. With fewer than 3 points nothing is clipped and the
      answer is true. Success on n >= 3 points yields n - 2 triangles;
      failure leaves a remaining polygon `rest` of at least 3 vertices none
      of whose candidate ears is an ear. */
  method Triangulate(contour: seq<Vec2i>) returns (ok: bool, tri: seq<int>, ghost rest: seq<int>)
    ensures Triangles(contour, tri)
    ensures |contour| < 3 ==> ok && tri == []
    ensures ok && |contour| >= 3 ==> |tri| == 3 * (|contour| - 2)
    ensures !ok ==> |contour| >= 3 && 3 <= |rest| && |tri| == 3 * (|contour| - |rest|)
    ensures !ok ==> ValidIndices(contour, rest) && Distinct(rest) && NoEar(contour, rest)
  {
    tri := [];
    rest := [];
    var n := |contour|;
    var V := new int[n];
    var k := 0;
    while k < n
      invariant 0 <= k <= n
      invariant forall i :: 0 <= i < k ==> V[i] == i
    {
      V[k] := k;
      k := k + 1;
    }
    var nv := n;
    var count := 2 * nv;
    var v := nv - 1;
    ghost var streak := 0;
    if n == 0 {
      v := 0;
    }
    while nv > 2
      invariant 0 <= nv <= V.Length == n
      invariant Clipping(contour, V[..nv], v, count, tri, streak)
      decreases nv, count
    {
      count := count - 1;
      if count < 0 {
        rest := V[..nv];
        NoEarFromStreak(contour, rest, v, streak);
        return false, tri, rest;
      }
      ok, tri, nv, v, streak := ClipStep(contour, V, nv, v, count, tri, streak);
      if ok {
        count := 2 * nv;
      }
    }
    ok := true;
  }

  /** A streak of at least nv failures means no position starts an ear. */
  lemma NoEarFromStreak(contour: seq<Vec2i>, W: seq<int>, v: int, streak: int)
    requires ValidIndices(contour, W) && 0 <= v <= |W|
    requires streak >= |W|
    requires forall i :: 0 <= i < streak && i < |W| ==> !EarAt(contour, W, Back(v, i, |W|))
    ensures NoEar(contour, W)
  {
    forall x | 0 <= x < |W|
      ensures !EarAt(contour, W, x)
    {
      BackCovers(v, |W|, x);
    }
  }

  /** One pass of the loop body after the counter check: try the ear at
      v % nv and clip it if it is one. */
  method ClipStep(contour: seq<Vec2i>, V: array<int>, nv: int, v: int, count: int, tri: seq<int>, ghost streak: int)
      returns (clipped: bool, tri': seq<int>, nv': int, v': int, ghost streak': int)
    requires 2 < nv <= V.Length == |contour|
    requires 0 <= count
    requires Clipping(contour, V[..nv], v, count + 1, tri, streak)
    modifies V
    ensures clipped ==> nv' == nv - 1 && streak' == 0
    ensures !clipped ==> nv' == nv && streak' == streak + 1
    ensures 0 <= nv' <= nv
    ensures Clipping(contour, V[..nv'], v', if clipped then 2 * nv' else count, tri', streak')
  {
    StepPositions(v, nv);
    var u := v % nv;
    v' := (u + 1) % nv;
    var w := (v' + 1) % nv;
    clipped := Snip(contour, u, v', w, nv, V);
    if clipped {
      tri' := ClipEar(contour, V, nv, u, v', w, tri);
      nv', streak' := nv - 1, 0;
    } else {
      tri', nv', streak' := tri, nv, streak + 1;
      FailedCandidate(contour, V[..nv], v, u, v', w, count, streak);
    }
  }

  /** Snip found the ear (u, v, w): emit its triangle and drop v. */
  method ClipEar(contour: seq<Vec2i>, V: array<int>, nv: int, u: int, v: int, w: int, tri: seq<int>)
      returns (tri': seq<int>)
    requires 2 < nv <= V.Length == |contour|
    requires ValidIndices(contour, V[..nv]) && Distinct(V[..nv])
    requires Triangles(contour, tri) && |tri| == 3 * (|contour| - nv)
    requires 0 <= u < nv && 0 <= v < nv && 0 <= w < nv && u != v && v != w && u != w
    requires IsEar(contour, V[..nv], u, v, w)
    modifies V
    ensures Clipping(contour, V[..nv - 1], v, 2 * (nv - 1), tri', 0)
  {
    ghost var W := V[..nv];
    var a, b, c := V[u], V[v], V[w];
    assert a == W[u] && b == W[v] && c == W[w];
    tri' := tri;
    if Area(contour[a], contour[b], contour[c]) != 0 {
      TrianglesSnoc(contour, tri, a, b, c);
      tri' := tri + [a, b, c];
    }
    RemoveAt(V, v, nv);
    RemovePreserves(contour, W, v);
  }

  /** A failed candidate u extends the streak of failures. */
  lemma FailedCandidate(contour: seq<Vec2i>, W: seq<int>, v: int, u: int, v': int, w: int,
                        count: int, streak: int)
    requires ValidIndices(contour, W) && |W| > 2 && 0 <= count
    requires Streak(contour, W, v, count + 1, streak)
    requires u == (if v == |W| then 0 else v)
    requires v' == (if u + 1 == |W| then 0 else u + 1) && w == (v' + 1) % |W|
    requires !IsEar(contour, W, u, v', w)
    ensures Streak(contour, W, v', count, streak + 1)
  {
    StepPositions(u, |W|);
    EarAtCandidate(contour, W, u, v', w);
    StreakExtends(contour, W, v, streak);
  }

  /** The candidate the loop names (u, v, w) is the one EarAt names. */
  lemma EarAtCandidate(contour: seq<Vec2i>, W: seq<int>, u: int, v: int, w: int)
    requires ValidIndices(contour, W) && 0 <= u < |W|
    requires v == (u + 1) % |W| && w == (v + 1) % |W|
    ensures EarAt(contour, W, u) == IsEar(contour, W, u, v, w)
  {
  }

  /** The positions behind the new candidate position are u followed by
      the positions behind the old one. */
  lemma StreakExtends(contour: seq<Vec2i>, W: seq<int>, v: int, streak: int)
    requires ValidIndices(contour, W) && 1 < |W| && 0 <= v <= |W| && 0 <= streak
    requires var u := if v == |W| then 0 else v; !EarAt(contour, W, u)
    requires forall i :: 0 <= i < streak && i < |W| ==> !EarAt(contour, W, Back(v, i, |W|))
    ensures var u := if v == |W| then 0 else v;
            var v' := if u + 1 == |W| then 0 else u + 1;
            forall i :: 0 <= i < streak + 1 && i < |W| ==> !EarAt(contour, W, Back(v', i, |W|))
  {
    var u := if v == |W| then 0 else v;
    var v' := if u + 1 == |W| then 0 else u + 1;
    forall i | 0 <= i < streak + 1 && i < |W|
      ensures !EarAt(contour, W, Back(v', i, |W|))
    {
      if i > 0 {
        BackStep(v, |W|, i - 1);
      } else {
        BackStep(v, |W|, 0);
      }
    }
  }

  // ---- Match ----

  /** Match(a, b, c, d): the edge a-b is the edge c-d, in the same direction. */
  function Match(a: int, b: int, c: int, d: int): (r: bool)
    ensures r ==> multiset{a, b} == multiset{c, d}
  {
    a == c && b == d
  }

  /** When a-b is not c-d reversed (which the source asserts), Match holds
      exactly when the two edges join the same pair of vertices. It is
      symmetric in the two edges. */
  lemma MatchSameEdge(a: int, b: int, c: int, d: int)
    requires !(a == d && b == c)
    ensures Match(a, b, c, d) <==> multiset{a, b} == multiset{c, d}
    ensures Match(a, b, c, d) == Match(c, d, a, b)
  {
    if multiset{a, b} == multiset{c, d} {
      assert a in multiset{c, d} && b in multiset{c, d};
      assert c in multiset{a, b};
    }
  }
}
