/**
  The incremental 3-d convex hull of ConvexHullBuilder3d: the hull is a list
  of triangular faces; adding a vertex removes every face it lies behind,
  collects the edges of those faces in a "hanging" list where an edge and
  its reverse cancel, and closes the hole with a fan of faces to the new
  vertex.

  Facei and Edgei live in headers that are not part of this model. A face is
  three corners a, b, c and an edge two ends a, b. The plane tests
  `Facei::Side` and `Facei::Distance` are supplied as the two functions of
  a `Geometry` value: the model relies only on what the hull code itself
  does with their answers.
*/
module ConvexHull3D {
  import opened Vec3
  import opened Util
  import opened Wrappers

  datatype Face = Face(a: V3, b: V3, c: V3)
  datatype Edge = Edge(a: V3, b: V3)

  /** Facei::ESide: which side of a face's plane a point lies on. */
  datatype Side = Front | Back | Intersecting

  /** The plane tests of Facei: `side` classifies a point, `distance` is its
      signed distance from the face's plane (negative behind it). */
  datatype Geometry = Geometry(side: (Face, V3) -> Side, distance: (Face, V3) -> real)

  /** The k-th edge of a face in winding order: ab, bc, ca. */
  function FaceEdge(f: Face, k: int): (e: Edge)
    requires 0 <= k < 3
    ensures e.a == (if k == 0 then f.a else if k == 1 then f.b else f.c)
    ensures e.b == (if k == 0 then f.b else if k == 1 then f.c else f.a)
  {
    if k == 0 then Edge(f.a, f.b) else if k == 1 then Edge(f.b, f.c) else Edge(f.c, f.a)
  }

  function Flip(e: Edge): Edge { Edge(e.b, e.a) }

  /** Edgei::EqualFlipped: e1 is e2 walked the other way. */
  predicate EqualFlipped(e1: Edge, e2: Edge)
  {
    e1.a == e2.b && e1.b == e2.a
  }

  lemma EqualFlippedIsFlip(e1: Edge, e2: Edge)
    ensures EqualFlipped(e1, e2) <==> e2 == Flip(e1)
    ensures EqualFlipped(e1, e2) <==> EqualFlipped(e2, e1)
    ensures Flip(Flip(e1)) == e1
  {
  }

  // ---- the hanging-edge list ----

  /** Position of the first occurrence of x in s. */
  function IndexOf<T(==)>(s: seq<T>, x: T): (i: nat)
    requires x in s
    ensures i < |s| && s[i] == x
    ensures forall j :: 0 <= j < i ==> s[j] != x
  {
    if s[0] == x then 0 else 1 + IndexOf(s[1..], x)
  }

  /** What AddEdgeToHangingList makes of the list: the reverse of `e`, if it
      is hanging, leaves (the first copy, by erase_u); otherwise `e` joins. */
  function Toggle(h: seq<Edge>, e: Edge): seq<Edge>
  {
    if Flip(e) in h then EraseU(h, IndexOf(h, Flip(e))) else h + [e]
  }

  /** No hanging edge has its reverse hanging at another position. */
  predicate NoFlippedPair(h: seq<Edge>)
  {
    forall i, j :: 0 <= i < |h| && 0 <= j < |h| && i != j ==> h[i] != Flip(h[j])
  }

  /** The edge either cancels its reverse or is added: as multisets. */
  lemma ToggleMultiset(h: seq<Edge>, e: Edge)
    ensures Flip(e) in h ==> multiset(Toggle(h, e)) == multiset(h) - multiset{Flip(e)}
    ensures Flip(e) !in h ==> multiset(Toggle(h, e)) == multiset(h) + multiset{e}
  {
    if Flip(e) in h {
      EraseUMultiset(h, IndexOf(h, Flip(e)));
    }
  }

  /** Every edge on the new list was on the old one or is `e`. */
  lemma ToggleSubset(h: seq<Edge>, e: Edge)
    ensures forall x :: x in Toggle(h, e) ==> x in h || x == e
  {
    ToggleMultiset(h, e);
    forall x | x in Toggle(h, e) ensures x in h || x == e {
      assert x in multiset(Toggle(h, e));
    }
  }

  /** The list never comes to hold an edge together with its reverse. */
  lemma ToggleNoFlippedPair(h: seq<Edge>, e: Edge)
    requires NoFlippedPair(h)
    ensures NoFlippedPair(Toggle(h, e))
  {
    var r := Toggle(h, e);
    if Flip(e) in h {
      var p := IndexOf(h, Flip(e));
      forall i, j | 0 <= i < |r| && 0 <= j < |r| && i != j ensures r[i] != Flip(r[j]) {
        var i' := if i == p then |h| - 1 else i;
        var j' := if j == p then |h| - 1 else j;
        assert r[i] == h[i'] && r[j] == h[j'];
      }
    } else {
      forall i, j | 0 <= i < |r| && 0 <= j < |r| && i != j ensures r[i] != Flip(r[j]) {
        if i == |h| {
          assert r[j] == h[j];
          assert Flip(Flip(h[j])) == h[j];
        } else if j == |h| {
          assert r[i] == h[i];
        }
      }
    }
  }

  /** Hanging an edge and then its reverse leaves the list's contents as
      they were: the two cancel. */
  lemma ToggleUndo(h: seq<Edge>, e: Edge)
    requires Flip(e) !in h
    ensures multiset(Toggle(Toggle(h, e), Flip(e))) == multiset(h)
  {
    ToggleMultiset(h, e);
    var h1 := Toggle(h, e);
    assert Flip(Flip(e)) == e;
    assert e in h1 by { assert h1 == h + [e]; }
    ToggleMultiset(h1, Flip(e));
  }

  /** AddEdgeToHangingList (find_if EqualFlipped, then push_back or
      erase_u). */
  method AddEdgeToHangingList(hanging: seq<Edge>, edge: Edge) returns (h: seq<Edge>)
    ensures h == Toggle(hanging, edge)
  {
    var i := 0;
    while i < |hanging| && !EqualFlipped(edge, hanging[i])
      invariant 0 <= i <= |hanging|
      invariant forall j :: 0 <= j < i ==> hanging[j] != Flip(edge)
    {
      i := i + 1;
    }
    if i == |hanging| {
      h := hanging + [edge];
    } else {
      assert hanging[i] == Flip(edge);
      assert IndexOf(hanging, Flip(edge)) == i;
      h := EraseU(hanging, i);
    }
  }

  // ---- AddVert ----

  /** The vertex is behind the face by more than the allowed error: with no
      allowed error any back-side answer counts, otherwise the distance must
      reach -allowedError. */
  predicate ReallyBehind(g: Geometry, allowedError: int, f: Face, v: V3)
  {
    g.side(f, v) == Back && (allowedError == 0 || g.distance(f, v) <= -(allowedError as real))
  }

  /** The edges of a list of faces. */
  function EdgesOf(fs: seq<Face>): (r: set<Edge>)
    ensures forall i, k :: 0 <= i < |fs| && 0 <= k < 3 ==> FaceEdge(fs[i], k) in r
  {
    if fs == [] then {}
    else
      var f := fs[|fs| - 1];
      EdgesOf(fs[..|fs| - 1]) + {FaceEdge(f, 0), FaceEdge(f, 1), FaceEdge(f, 2)}
  }

  /** The indices collected by AddVert's first loop: strictly increasing,
      below n, and exactly the faces the vertex is on the back of. */
  predicate BackList(g: Geometry, faces: seq<Face>, v: V3, n: int, back: seq<int>)
    requires 0 <= n <= |faces|
  {
    (forall j :: 0 <= j < |back| ==> 0 <= back[j] < n && g.side(faces[back[j]], v) == Back) &&
    (forall j, k :: 0 <= j < k < |back| ==> back[j] < back[k]) &&
    (forall i :: 0 <= i < n && g.side(faces[i], v) == Back ==> i in back)
  }

  /** AddVert's first loop: the faces `vert` is on the back of, and whether
      it is behind any of them by more than the allowed error. */
  method FindBackFaces(faces: seq<Face>, vert: V3, allowedError: int, g: Geometry)
      returns (reallyOutside: bool, backFaces: seq<int>)
    ensures BackList(g, faces, vert, |faces|, backFaces)
    ensures reallyOutside <==> exists i :: 0 <= i < |faces| && ReallyBehind(g, allowedError, faces[i], vert)
  {
    reallyOutside := false;
    backFaces := [];
    var f := 0;
    while f < |faces|
      invariant 0 <= f <= |faces|
      invariant BackList(g, faces, vert, f, backFaces)
      invariant reallyOutside <==> exists i :: 0 <= i < f && ReallyBehind(g, allowedError, faces[i], vert)
    {
      if g.side(faces[f], vert) == Back {
        if allowedError == 0 {
          reallyOutside := true;
        } else if g.distance(faces[f], vert) <= -(allowedError as real) {
          reallyOutside := true;
        }
        backFaces := backFaces + [f];
      }
      f := f + 1;
    }
  }

  /** The faces half of the removal loop's state: the faces below `cut` are
      still the original ones, those from `cut` on are not back faces, and
      the removed faces are back faces that together with the rest make up
      the original list. */
  ghost predicate Removing(g: Geometry, orig: seq<Face>, vert: V3, back: seq<int>, bf: int, cut: int,
                           faces: seq<Face>, removed: seq<Face>)
  {
    -1 <= bf < |back| && 0 <= cut <= |faces| && cut <= |orig| &&
    BackList(g, orig, vert, |orig|, back) &&
    (bf + 1 < |back| ==> cut == back[bf + 1]) &&
    (bf + 1 == |back| ==> cut == |orig|) &&
    faces[..cut] == orig[..cut] &&
    (forall i :: cut <= i < |faces| ==> g.side(faces[i], vert) != Back) &&
    (forall i :: 0 <= i < |removed| ==> g.side(removed[i], vert) == Back) &&
    multiset(faces) + multiset(removed) == multiset(orig)
  }

  /** The hanging half: no edge hangs with its reverse, and every hanging
      edge is an edge of a removed face. */
  predicate Hanging(removed: seq<Face>, hanging: seq<Edge>)
  {
    NoFlippedPair(hanging) && forall x :: x in hanging ==> x in EdgesOf(removed)
  }

  /** Hangs the three edges of a removed face, in winding order. */
  method HangFace(hanging: seq<Edge>, face: Face, ghost removed: seq<Face>) returns (h: seq<Edge>)
    requires Hanging(removed, hanging)
    ensures Hanging(removed + [face], h)
  {
    var e0, e1, e2 := FaceEdge(face, 0), FaceEdge(face, 1), FaceEdge(face, 2);
    var h0 := AddEdgeToHangingList(hanging, e0);
    ToggleNoFlippedPair(hanging, e0);
    ToggleSubset(hanging, e0);
    var h1 := AddEdgeToHangingList(h0, e1);
    ToggleNoFlippedPair(h0, e1);
    ToggleSubset(h0, e1);
    h := AddEdgeToHangingList(h1, e2);
    ToggleNoFlippedPair(h1, e2);
    ToggleSubset(h1, e2);
    assert (removed + [face])[..|removed|] == removed;
  }

  /** Erasing back face `back[bf]` (erase_u) moves the removal loop on by
      one: the erased face is a back face, the face moved into its slot is
      not, and nothing below it changes. */
  lemma EraseBackFace(g: Geometry, orig: seq<Face>, vert: V3, back: seq<int>, bf: int, cut: int,
                      faces: seq<Face>, removed: seq<Face>)
    requires 0 <= bf
    requires Removing(g, orig, vert, back, bf, cut, faces, removed)
    ensures back[bf] < |faces| && faces[back[bf]] == orig[back[bf]]
    ensures Removing(g, orig, vert, back, bf - 1, back[bf], EraseU(faces, back[bf]), removed + [faces[back[bf]]])
  {
    var f := back[bf];
    assert f < cut by {
      if bf + 1 < |back| { assert back[bf] < back[bf + 1]; }
    }
    assert faces[f] == orig[f] by { assert faces[..cut][f] == orig[..cut][f]; }
    var faces' := EraseU(faces, f);
    EraseUMultiset(faces, f);
    assert faces'[..f] == orig[..f] by {
      forall i | 0 <= i < f ensures faces'[i] == orig[i] {
        assert faces[..cut][i] == orig[..cut][i];
      }
    }
    forall i | f <= i < |faces'| ensures g.side(faces'[i], vert) != Back {
      var src := if i == f then |faces| - 1 else i;
      assert faces'[i] == faces[src];
      if src < cut {
        SkippedNotBack(g, orig, vert, back, bf, cut, src);
        assert faces[..cut][src] == orig[..cut][src];
      }
    }
  }

  /** An original face strictly between two consecutive back faces is not
      a back face. */
  lemma SkippedNotBack(g: Geometry, orig: seq<Face>, vert: V3, back: seq<int>, bf: int, cut: int, i: int)
    requires 0 <= bf < |back| && cut <= |orig|
    requires BackList(g, orig, vert, |orig|, back)
    requires bf + 1 < |back| ==> cut == back[bf + 1]
    requires back[bf] < i < cut
    ensures g.side(orig[i], vert) != Back
  {
    if g.side(orig[i], vert) == Back {
      var j :| 0 <= j < |back| && back[j] == i;
      assert false;
    }
  }

  /** When the removal loop has run out, no face left is a back face. */
  lemma RemovalDone(g: Geometry, orig: seq<Face>, vert: V3, back: seq<int>, cut: int,
                    faces: seq<Face>, removed: seq<Face>)
    requires Removing(g, orig, vert, back, -1, cut, faces, removed)
    ensures forall i :: 0 <= i < |faces| ==> g.side(faces[i], vert) != Back
  {
    forall i | 0 <= i < |faces| ensures g.side(faces[i], vert) != Back {
      if i < cut {
        assert faces[..cut][i] == orig[..cut][i];
        if g.side(orig[i], vert) == Back {
          assert false;
        }
      }
    }
  }

  /** AddVert's last loop: one face from each hanging edge to `vert`,
      appended in the order of the list. */
  method AppendFan(kept: seq<Face>, hanging: seq<Edge>, vert: V3) returns (faces: seq<Face>)
    ensures |faces| == |kept| + |hanging| && faces[..|kept|] == kept
    ensures forall j :: 0 <= j < |hanging| ==> faces[|kept| + j] == Face(hanging[j].a, hanging[j].b, vert)
  {
    faces := kept;
    var e := 0;
    while e < |hanging|
      invariant 0 <= e <= |hanging|
      invariant |faces| == |kept| + e && faces[..|kept|] == kept
      invariant forall j :: 0 <= j < e ==> faces[|kept| + j] == Face(hanging[j].a, hanging[j].b, vert)
    {
      faces := faces + [Face(hanging[e].a, hanging[e].b, vert)];
      e := e + 1;
    }
  }

  /** AddVert's second loop: back faces are visited from the last one
      down, their edges hung and the faces erased (erase_u). What is left has
      no back face, and it and the removed faces, all back faces, make up
      the original list. */
  method RemoveBackFaces(faces: seq<Face>, vert: V3, backFaces: seq<int>, g: Geometry)
      returns (rest: seq<Face>, ghost removed: seq<Face>, hanging: seq<Edge>)
    requires BackList(g, faces, vert, |faces|, backFaces)
    ensures forall i :: 0 <= i < |rest| ==> g.side(rest[i], vert) != Back
    ensures forall i :: 0 <= i < |removed| ==> g.side(removed[i], vert) == Back
    ensures multiset(rest) + multiset(removed) == multiset(faces)
    ensures Hanging(removed, hanging)
  {
    rest, removed, hanging := faces, [], [];
    var bf := |backFaces| - 1;
    ghost var cut := |faces|;
    while bf >= 0
      invariant Removing(g, faces, vert, backFaces, bf, cut, rest, removed)
      invariant Hanging(removed, hanging)
      decreases bf
    {
      var f := backFaces[bf];
      EraseBackFace(g, faces, vert, backFaces, bf, cut, rest, removed);
      var face := rest[f];
      hanging := HangFace(hanging, face, removed);
      rest := EraseU(rest, f);
      removed := removed + [face];
      cut := f;
      bf := bf - 1;
    }
    RemovalDone(g, faces, vert, backFaces, cut, rest, removed);
  }

  /** AddVert: when `vert` is behind some face by more than the allowed
      error, every face it is on the back of is removed, the unmatched edges
      of the removed faces hang, and one face from each hanging edge to
      `vert` is appended. Otherwise the hull is left as it was. */
  method AddVert(faces: seq<Face>, vert: V3, allowedError: int, g: Geometry)
      returns (faces': seq<Face>, ghost removed: seq<Face>, hanging: seq<Edge>)
    ensures !(exists i :: 0 <= i < |faces| && ReallyBehind(g, allowedError, faces[i], vert)) ==>
              faces' == faces
    ensures (exists i :: 0 <= i < |faces| && ReallyBehind(g, allowedError, faces[i], vert)) ==>
              var kept := |faces'| - |hanging|;
              0 <= kept &&
              (forall i :: 0 <= i < kept ==> g.side(faces'[i], vert) != Back) &&
              (forall i :: 0 <= i < |removed| ==> g.side(removed[i], vert) == Back) &&
              multiset(faces'[..kept]) + multiset(removed) == multiset(faces) &&
              (forall j :: 0 <= j < |hanging| ==>
                 faces'[kept + j] == Face(hanging[j].a, hanging[j].b, vert)) &&
              NoFlippedPair(hanging) &&
              (forall x :: x in hanging ==> x in EdgesOf(removed))
  {
    var reallyOutside, backFaces := FindBackFaces(faces, vert, allowedError, g);
    removed, hanging := [], [];
    if !reallyOutside {
      faces' := faces;
      return;
    }
    var rest;
    rest, removed, hanging := RemoveBackFaces(faces, vert, backFaces, g);
    faces' := AppendFan(rest, hanging, vert);
  }

  // ---- vertex de-duplication ----

  /** Sorted on x, as std::sort with SortVertOnX leaves the list (the order
      of vertices with equal x is unspecified). */
  predicate SortedOnX(s: seq<V3>)
  {
    forall i, j :: 0 <= i < j < |s| ==> s[i].x <= s[j].x
  }

  predicate NoDuplicates(s: seq<V3>)
  {
    forall i, j :: 0 <= i < j < |s| ==> s[i] != s[j]
  }

  /** Inserts v into a list sorted on x. */
  function InsertOnX(v: V3, s: seq<V3>): (r: seq<V3>)
    requires SortedOnX(s)
    ensures SortedOnX(r)
    ensures multiset(r) == multiset(s) + multiset{v}
  {
    if s == [] then [v]
    else if v.x <= s[0].x then [v] + s
    else
      var t := InsertOnX(v, s[1..]);
      assert s == [s[0]] + s[1..];
      InsertedAbove(v, s, t);
      [s[0]] + t
  }

  /** Everything in t, made of v and the tail of s, is at least s's head
      on x when v is. */
  lemma InsertedAbove(v: V3, s: seq<V3>, t: seq<V3>)
    requires SortedOnX(s) && |s| > 0 && s[0].x < v.x
    requires multiset(t) == multiset(s[1..]) + multiset{v}
    ensures forall i :: 0 <= i < |t| ==> s[0].x <= t[i].x
  {
    forall i | 0 <= i < |t| ensures s[0].x <= t[i].x {
      assert t[i] in multiset(t);
      if t[i] != v {
        assert t[i] in multiset(s[1..]);
        var k :| 0 <= k < |s[1..]| && s[1..][k] == t[i];
        assert s[k + 1] == t[i];
      }
    }
  }

  /** Stands in for std::sort(verts, SortVertOnX): one of the orders the
      library call may produce. Only its contract is relied on. */
  function SortOnX(s: seq<V3>): (r: seq<V3>)
    ensures SortedOnX(r)
    ensures multiset(r) == multiset(s)
  {
    if s == [] then []
    else
      assert s == s[..|s| - 1] + [s[|s| - 1]];
      InsertOnX(s[|s| - 1], SortOnX(s[..|s| - 1]))
  }

  /** RemoveDegenerateVerts's inner loop: whether a vertex below `vertI`
      equals `verts[vertI]`. On a list sorted on x the equal vertices sit
      directly below it, so the scan stops at the first different x. */
  method FindSnap(verts: seq<V3>, vertI: int) returns (snap: bool)
    requires 0 <= vertI < |verts| && SortedOnX(verts[..vertI + 1])
    ensures snap <==> exists j :: 0 <= j < vertI && verts[j] == verts[vertI]
  {
    var vert := verts[vertI];
    var vertJ := vertI - 1;
    snap := false;
    while vertJ >= 0
      invariant -1 <= vertJ < vertI
      invariant forall j :: vertJ < j < vertI ==> verts[j] != vert
      decreases vertJ
    {
      var vsVert := verts[vertJ];
      if vert.x != vsVert.x {
        forall j | 0 <= j <= vertJ ensures verts[j] != vert {
          assert verts[..vertI + 1][j].x <= verts[..vertI + 1][vertJ].x <= verts[..vertI + 1][vertI].x;
        }
        return;
      }
      if vert == vsVert {
        snap := true;
        return;
      }
      vertJ := vertJ - 1;
    }
  }

  /** The state of RemoveDegenerateVerts's outer loop: the unvisited prefix
      is still sorted, the visited suffix holds no vertex twice and none that
      is also in the prefix, and no vertex has been lost. */
  ghost predicate Deduping(orig: seq<V3>, verts: seq<V3>, vertI: int)
  {
    -1 <= vertI < |verts| &&
    SortedOnX(verts[..vertI + 1]) &&
    (forall i, j :: vertI < i < j < |verts| ==> verts[i] != verts[j]) &&
    (forall i, j :: 0 <= i <= vertI < j < |verts| ==> verts[i] != verts[j]) &&
    (forall x :: x in verts <==> x in orig)
  }

  /** Erasing a vertex that also occurs further down loses no vertex. */
  lemma EraseDuplicate(verts: seq<V3>, i: int, j: int)
    requires 0 <= j < i < |verts| && verts[j] == verts[i]
    ensures forall x :: x in EraseU(verts, i) <==> x in verts
  {
    var r := EraseU(verts, i);
    EraseUMultiset(verts, i);
    forall x | x in r ensures x in verts {
      assert x in multiset(r);
    }
    assert r[j] == verts[j];
  }

  /** erase_u at vertI keeps the visited suffix (now starting at vertI)
      free of repeats and apart from the prefix below vertI. */
  lemma EraseKeepsSuffix(verts: seq<V3>, vertI: int)
    requires 0 <= vertI < |verts|
    requires forall i, j :: vertI < i < j < |verts| ==> verts[i] != verts[j]
    requires forall i, j :: 0 <= i <= vertI < j < |verts| ==> verts[i] != verts[j]
    ensures var r := EraseU(verts, vertI);
      (forall i, k :: vertI - 1 < i < k < |r| ==> r[i] != r[k]) &&
      (forall i, k :: 0 <= i <= vertI - 1 < k < |r| ==> r[i] != r[k])
  {
    var r := EraseU(verts, vertI);
    forall i, k | vertI - 1 < i < k < |r| ensures r[i] != r[k] {
      var i' := if i == vertI then |verts| - 1 else i;
      assert r[i] == verts[i'] && r[k] == verts[k];
    }
    forall i, k | 0 <= i <= vertI - 1 < k < |r| ensures r[i] != r[k] {
      var k' := if k == vertI then |verts| - 1 else k;
      assert r[i] == verts[i] && r[k] == verts[k'];
    }
  }

  /** One step of the outer loop: a vertex that snaps to one below it is
      erased (erase_u); otherwise it stays. */
  lemma DedupStep(orig: seq<V3>, verts: seq<V3>, vertI: int, snap: bool)
    requires 0 <= vertI && Deduping(orig, verts, vertI)
    requires snap <==> exists j :: 0 <= j < vertI && verts[j] == verts[vertI]
    ensures Deduping(orig, if snap then EraseU(verts, vertI) else verts, vertI - 1)
  {
    assert verts[..vertI] == verts[..vertI + 1][..vertI];
    if snap {
      var r := EraseU(verts, vertI);
      var j :| 0 <= j < vertI && verts[j] == verts[vertI];
      assert r[..vertI] == verts[..vertI];
      EraseDuplicate(verts, vertI, j);
      EraseKeepsSuffix(verts, vertI);
    }
  }

  /** The sorted list starts the outer loop: nothing visited yet. */
  lemma DedupStart(verts: seq<V3>, r: seq<V3>)
    requires SortedOnX(r) && multiset(r) == multiset(verts)
    ensures Deduping(verts, r, |r| - 1) && |r| == |verts|
  {
    forall x ensures x in r <==> x in verts {
      assert x in r <==> x in multiset(r);
      assert x in verts <==> x in multiset(verts);
    }
    assert |r| == |multiset(r)| == |verts|;
    assert r[..|r|] == r;
  }

  /** RemoveDegenerateVerts: afterwards no vertex occurs twice and the set
      of vertices is what it was. The result is not sorted, since erase_u
      moves the last vertex into the erased slot. */
  method RemoveDegenerateVerts(verts: seq<V3>) returns (r: seq<V3>)
    ensures NoDuplicates(r)
    ensures forall x :: x in r <==> x in verts
    ensures |r| <= |verts|
  {
    r := SortOnX(verts);
    var vertI := |r| - 1;
    DedupStart(verts, r);
    while vertI >= 0
      invariant Deduping(verts, r, vertI)
      invariant |r| <= |verts|
      decreases vertI
    {
      var snap := FindSnap(r, vertI);
      DedupStep(verts, r, vertI, snap);
      if snap {
        r := EraseU(r, vertI);
      }
      vertI := vertI - 1;
    }
  }

  /** The corners of every face, three per face in the order a, b, c. */
  function Corners(faces: seq<Face>): (r: seq<V3>)
    ensures |r| == 3 * |faces|
    ensures forall v :: v in r <==> exists f :: 0 <= f < |faces| && v in [faces[f].a, faces[f].b, faces[f].c]
  {
    if faces == [] then []
    else
      var n := |faces| - 1;
      var r := Corners(faces[..n]) + [faces[n].a, faces[n].b, faces[n].c];
      assert forall v :: v in r <==> exists f :: 0 <= f < |faces| && v in [faces[f].a, faces[f].b, faces[f].c] by {
        forall v ensures v in r <==> exists f :: 0 <= f < |faces| && v in [faces[f].a, faces[f].b, faces[f].c] {
          if v in Corners(faces[..n]) {
            var f :| 0 <= f < n && v in [faces[..n][f].a, faces[..n][f].b, faces[..n][f].c];
            assert faces[..n][f] == faces[f];
          }
          if exists f :: 0 <= f < |faces| && v in [faces[f].a, faces[f].b, faces[f].c] {
            var f :| 0 <= f < |faces| && v in [faces[f].a, faces[f].b, faces[f].c];
            if f < n {
              assert faces[..n][f] == faces[f];
            }
          }
        }
      }
      r
  }

  /** GetHullVerts: every corner of every face, each once. */
  method GetHullVerts(faces: seq<Face>) returns (verts: seq<V3>)
    ensures NoDuplicates(verts)
    ensures forall v :: v in verts <==> exists f :: 0 <= f < |faces| && v in [faces[f].a, faces[f].b, faces[f].c]
    ensures |verts| <= 3 * |faces|
  {
    verts := [];
    var f := 0;
    while f < |faces|
      invariant 0 <= f <= |faces|
      invariant verts == Corners(faces[..f])
    {
      assert faces[..f + 1][..f] == faces[..f];
      verts := verts + [faces[f].a, faces[f].b, faces[f].c];
      f := f + 1;
    }
    assert faces[..f] == faces;
    verts := RemoveDegenerateVerts(verts);
  }

  // ---- hull checks and the incremental build ----

  /** Every vertex is in front of (or near enough to) every face. */
  predicate IsHull(g: Geometry, allowedError: int, faces: seq<Face>, verts: seq<V3>)
  {
    forall h, i :: 0 <= h < |faces| && 0 <= i < |verts| ==> !ReallyBehind(g, allowedError, faces[h], verts[i])
  }

  /** AllVertsFront: no vertex is behind the face by more than the allowed
      error. */
  method AllVertsFront(face: Face, verts: seq<V3>, allowedError: int, g: Geometry) returns (r: bool)
    ensures r <==> forall i :: 0 <= i < |verts| ==> !ReallyBehind(g, allowedError, face, verts[i])
  {
    var i := 0;
    while i < |verts|
      invariant 0 <= i <= |verts|
      invariant forall k :: 0 <= k < i ==> !ReallyBehind(g, allowedError, face, verts[k])
    {
      var v := verts[i];
      if g.side(face, v) == Back {
        if allowedError == 0 {
          return false;
        } else {
          if g.distance(face, v) <= -(allowedError as real) {
            return false;
          }
        }
      }
      i := i + 1;
    }
    return true;
  }

  /** IsConvexHull3d: every face passes AllVertsFront. */
  method IsConvexHull3d(verts: seq<V3>, faces: seq<Face>, allowedError: int, g: Geometry) returns (r: bool)
    ensures r <==> IsHull(g, allowedError, faces, verts)
  {
    var h := 0;
    while h < |faces|
      invariant 0 <= h <= |faces|
      invariant IsHull(g, allowedError, faces[..h], verts)
    {
      var front := AllVertsFront(faces[h], verts, allowedError, g);
      if !front {
        return false;
      }
      assert faces[..h + 1] == faces[..h] + [faces[h]];
      h := h + 1;
    }
    assert faces[..h] == faces;
    return true;
  }

  /** Make3d_Incremental. The seed tetrahedron search is not modelled: its
      outcome is the parameter `seed` (None when the vertices are
      degenerate). The random visiting order is the parameter
      `permutation`. Fewer than four vertices or no seed give no faces; a
      seed that already holds every vertex comes back unchanged, since no
      vertex is then behind any face. */
  method Make3dIncremental(verts: seq<V3>, seed: Option<seq<Face>>, permutation: seq<nat>,
                           allowedError: int, g: Geometry) returns (faces: seq<Face>)
    requires |permutation| == |verts|
    requires forall i :: 0 <= i < |permutation| ==> permutation[i] < |verts|
    ensures |verts| < 4 ==> faces == []
    ensures seed == None ==> faces == []
    ensures |verts| >= 4 && seed.Some? && IsHull(g, allowedError, seed.value, verts) ==> faces == seed.value
  {
    faces := [];
    if |verts| < 4 {
      return;
    }
    if seed == None {
      faces := [];
      return;
    }
    faces := seed.value;
    var i := 0;
    while i < |verts|
      invariant 0 <= i <= |verts|
      invariant IsHull(g, allowedError, seed.value, verts) ==> faces == seed.value
    {
      var v := verts[permutation[i]];
      ghost var removed;
      var hanging;
      faces, removed, hanging := AddVert(faces, v, allowedError, g);
      i := i + 1;
    }
  }

  // ---- HullIsValid ----

  /** How many edges of face `vs` are `e` reversed. */
  function FlipCount(e: Edge, vs: Face): (n: nat)
    ensures n <= 3
    ensures n == 0 <==> forall k :: 0 <= k < 3 ==> !EqualFlipped(e, FaceEdge(vs, k))
  {
    (if EqualFlipped(e, FaceEdge(vs, 0)) then 1 else 0) +
    (if EqualFlipped(e, FaceEdge(vs, 1)) then 1 else 0) +
    (if EqualFlipped(e, FaceEdge(vs, 2)) then 1 else 0)
  }

  /** The reversed copies of e among the edges of faces[..n], face f
      excepted: HullIsValid's matches_e0/e1/e2 counters. */
  function Matches(faces: seq<Face>, e: Edge, f: int, n: int): nat
    requires 0 <= n <= |faces|
  {
    if n == 0 then 0
    else Matches(faces, e, f, n - 1) + (if n - 1 == f then 0 else FlipCount(e, faces[n - 1]))
  }

  /** HullIsValid's assertions about two different faces: no corner of the
      other face is behind this one, no edge appears in both with the same
      direction, and at most one edge is shared (reversed). */
  predicate PairOk(g: Geometry, faces: seq<Face>, f: int, h: int)
    requires 0 <= f < |faces| && 0 <= h < |faces|
  {
    var face, vs := faces[f], faces[h];
    g.side(face, vs.a) != Back && g.side(face, vs.b) != Back && g.side(face, vs.c) != Back &&
    (forall k, k' :: 0 <= k < 3 && 0 <= k' < 3 ==> FaceEdge(face, k) != FaceEdge(vs, k')) &&
    FlipCount(FaceEdge(face, 0), vs) + FlipCount(FaceEdge(face, 1), vs) + FlipCount(FaceEdge(face, 2), vs) < 2
  }

  /** Everything HullIsValid asserts: every pair of faces passes PairOk and
      every edge of every face is shared, reversed, by exactly one edge of
      another face. */
  predicate ValidHull(g: Geometry, faces: seq<Face>)
  {
    (forall f, h :: 0 <= f < |faces| && 0 <= h < |faces| && f != h ==> PairOk(g, faces, f, h)) &&
    (forall f, k :: 0 <= f < |faces| && 0 <= k < 3 ==> Matches(faces, FaceEdge(faces[f], k), f, |faces|) == 1)
  }

  /** HullIsValid's inner loop for face f. */
  method CheckFace(faces: seq<Face>, f: int, g: Geometry) returns (ok: bool)
    requires 0 <= f < |faces|
    ensures ok <==> (forall h :: 0 <= h < |faces| && f != h ==> PairOk(g, faces, f, h)) &&
                    (forall k :: 0 <= k < 3 ==> Matches(faces, FaceEdge(faces[f], k), f, |faces|) == 1)
  {
    var face := faces[f];
    var e0, e1, e2 := FaceEdge(face, 0), FaceEdge(face, 1), FaceEdge(face, 2);
    var matches0, matches1, matches2 := 0, 0, 0;
    var h := 0;
    while h < |faces|
      invariant 0 <= h <= |faces|
      invariant forall h' :: 0 <= h' < h && f != h' ==> PairOk(g, faces, f, h')
      invariant matches0 == Matches(faces, e0, f, h)
      invariant matches1 == Matches(faces, e1, f, h)
      invariant matches2 == Matches(faces, e2, f, h)
    {
      if f != h {
        if !PairOk(g, faces, f, h) {
          return false;
        }
        var vs := faces[h];
        matches0 := matches0 + FlipCount(e0, vs);
        matches1 := matches1 + FlipCount(e1, vs);
        matches2 := matches2 + FlipCount(e2, vs);
      }
      h := h + 1;
    }
    ok := matches0 == 1 && matches1 == 1 && matches2 == 1;
  }

  /** HullIsValid, with each of its assertions turned into a test: the
      result says whether all of them hold. */
  method HullIsValid(faces: seq<Face>, g: Geometry) returns (ok: bool)
    ensures ok <==> ValidHull(g, faces)
  {
    var f := 0;
    while f < |faces|
      invariant 0 <= f <= |faces|
      invariant forall f', h :: 0 <= f' < f && 0 <= h < |faces| && f' != h ==> PairOk(g, faces, f', h)
      invariant forall f', k :: 0 <= f' < f && 0 <= k < 3 ==> Matches(faces, FaceEdge(faces[f'], k), f', |faces|) == 1
    {
      ok := CheckFace(faces, f, g);
      if !ok {
        return;
      }
      f := f + 1;
    }
    ok := true;
  }

  // ---- a valid hull has an even number of faces ----

  /** Half-edge h is edge h % 3 of face h / 3. */
  function EdgeAt(faces: seq<Face>, h: int): Edge
    requires 0 <= h < 3 * |faces|
  {
    FaceEdge(faces[h / 3], h % 3)
  }

  /** Half-edge m, on another face, is half-edge h reversed. */
  predicate IsMate(faces: seq<Face>, h: int, m: int)
  {
    0 <= h < 3 * |faces| && 0 <= m < 3 * |faces| && m / 3 != h / 3 &&
    EdgeAt(faces, m) == Flip(EdgeAt(faces, h))
  }

  /** A half-edge below 3n that matches e reversed, off face f, makes the
      count positive. */
  lemma MatchesPositive(faces: seq<Face>, e: Edge, f: int, n: int, m: int)
    requires 0 <= n <= |faces| && 0 <= m < 3 * n && m / 3 != f && EdgeAt(faces, m) == Flip(e)
    ensures Matches(faces, e, f, n) >= 1
  {
    if m / 3 == n - 1 {
      assert EqualFlipped(e, FaceEdge(faces[n - 1], m % 3));
    } else {
      MatchesPositive(faces, e, f, n - 1, m);
    }
  }

  /** A positive count has a matching half-edge. */
  lemma MatchesWitness(faces: seq<Face>, e: Edge, f: int, n: int)
    requires 0 <= n <= |faces| && Matches(faces, e, f, n) >= 1
    ensures exists m :: 0 <= m < 3 * n && m / 3 != f && EdgeAt(faces, m) == Flip(e)
  {
    if n - 1 != f && FlipCount(e, faces[n - 1]) >= 1 {
      var k :| 0 <= k < 3 && EqualFlipped(e, FaceEdge(faces[n - 1], k));
      var m := 3 * (n - 1) + k;
      assert m / 3 == n - 1 && m % 3 == k;
      assert EdgeAt(faces, m) == Flip(e);
    } else {
      MatchesWitness(faces, e, f, n - 1);
    }
  }

  /** A count of at most one leaves room for one matching half-edge only. */
  lemma MatchesUnique(faces: seq<Face>, e: Edge, f: int, n: int, m1: int, m2: int)
    requires 0 <= n <= |faces| && Matches(faces, e, f, n) <= 1
    requires 0 <= m1 < 3 * n && m1 / 3 != f && EdgeAt(faces, m1) == Flip(e)
    requires 0 <= m2 < 3 * n && m2 / 3 != f && EdgeAt(faces, m2) == Flip(e)
    ensures m1 == m2
  {
    var last := n - 1;
    if m1 / 3 == last && m2 / 3 == last {
      if m1 % 3 != m2 % 3 {
        assert EqualFlipped(e, FaceEdge(faces[last], m1 % 3));
        assert false;
      }
    } else if m1 / 3 == last {
      MatchesPositive(faces, e, f, n - 1, m2);
      assert EqualFlipped(e, FaceEdge(faces[last], m1 % 3));
      assert false;
    } else if m2 / 3 == last {
      MatchesPositive(faces, e, f, n - 1, m1);
      assert EqualFlipped(e, FaceEdge(faces[last], m2 % 3));
      assert false;
    } else {
      MatchesUnique(faces, e, f, n - 1, m1, m2);
    }
  }

  /** The half-edge that shares h's edge reversed (h itself if none). */
  ghost function Mate(faces: seq<Face>, h: int): int
  {
    if exists m :: IsMate(faces, h, m) then var m :| IsMate(faces, h, m); m else h
  }

  /** In a valid hull every half-edge has a mate on another face, and the
      mate of the mate is the half-edge itself. */
  lemma MateInvolution(g: Geometry, faces: seq<Face>, h: int)
    requires ValidHull(g, faces) && 0 <= h < 3 * |faces|
    ensures IsMate(faces, h, Mate(faces, h))
    ensures Mate(faces, Mate(faces, h)) == h
  {
    var n := |faces|;
    assert Matches(faces, FaceEdge(faces[h / 3], h % 3), h / 3, n) == 1;
    MatchesWitness(faces, EdgeAt(faces, h), h / 3, n);
    var w :| 0 <= w < 3 * n && w / 3 != h / 3 && EdgeAt(faces, w) == Flip(EdgeAt(faces, h));
    assert IsMate(faces, h, w);
    var m := Mate(faces, h);
    assert IsMate(faces, h, m);
    assert Flip(Flip(EdgeAt(faces, h))) == EdgeAt(faces, h);
    assert IsMate(faces, m, h);
    var m2 := Mate(faces, m);
    assert IsMate(faces, m, m2);
    assert Matches(faces, FaceEdge(faces[m / 3], m % 3), m / 3, n) == 1;
    MatchesUnique(faces, EdgeAt(faces, m), m / 3, n, h, m2);
  }

  /** A set paired off by an involution without fixed points has an even
      number of elements. */
  lemma InvolutionEven<T>(s: set<T>, m: T -> T)
    requires forall x :: x in s ==> m(x) in s && m(x) != x && m(m(x)) == x
    ensures |s| % 2 == 0
    decreases |s|
  {
    if s != {} {
      var x :| x in s;
      var y := m(x);
      var rest := s - {x, y};
      assert s == rest + {x, y};
      assert |{x, y}| == 2;
      forall z | z in rest ensures m(z) in rest && m(z) != z && m(m(z)) == z {
        assert m(z) != x && m(z) != y;
      }
      InvolutionEven(rest, m);
    }
  }

  predicate InRange(h: int, n: int) { 0 <= h < n }

  lemma RangeSize(n: nat)
    ensures |set h | 0 <= h < n && InRange(h, n)| == n
  {
    if n > 0 {
      var k := n - 1;
      assert (set h | 0 <= h < n && InRange(h, n)) == (set h | 0 <= h < k && InRange(h, k)) + {k};
      RangeSize(k);
    }
  }

  /** A face list that passes HullIsValid has an even number of faces: its
      3F half-edges pair off into shared edges (3F = 2E), as the Euler
      relation F = 2(V - 2) for a closed triangulated hull also requires. */
  lemma ValidHullEvenFaces(g: Geometry, faces: seq<Face>)
    requires ValidHull(g, faces)
    ensures |faces| % 2 == 0
  {
    var n := 3 * |faces|;
    var s := set h | 0 <= h < n && InRange(h, n);
    RangeSize(n);
    var m := h => Mate(faces, h);
    forall h | h in s ensures m(h) in s && m(h) != h && m(m(h)) == h {
      MateInvolution(g, faces, h);
      assert InRange(Mate(faces, h), n);
    }
    InvolutionEven(s, m);
  }
}
