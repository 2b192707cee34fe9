/**
  Vec3i and Vec3i64 of Vec3i.h: 3-space vectors of 32-bit and 64-bit ints.
  A vector's value is the datatype `V3`; the operators are functions on it,
  and the class `Vec3i` holds the three fields its mutators update in place.

  The mathematical operations (`Add`, `Cross`, `Dot`, ...) are the reference;
  what the source computes in 32-bit ints is that result wrapped to 32 bits
  (signed overflow wraps two's-complement here), and what it computes in
  int64 is shown to fit where the source says it does.
*/
module Vec3 {
  import opened CLib

  datatype V3 = V3(x: int, y: int, z: int)

  predicate Int32Vec(v: V3) { IsInt32(v.x) && IsInt32(v.y) && IsInt32(v.z) }

  function Abs(a: int): nat { if a < 0 then -a else a }

  function Max3(a: nat, b: nat, c: nat): nat
  {
    if a >= b && a >= c then a else if b >= c then b else c
  }

  /** The largest component magnitude, MAX3(ABS(x), ABS(y), ABS(z)). */
  function MaxAbs(v: V3): nat { Max3(Abs(v.x), Abs(v.y), Abs(v.z)) }

  // ---- the mathematical reference ----

  function Add(u: V3, v: V3): V3 { V3(u.x + v.x, u.y + v.y, u.z + v.z) }
  function Sub(u: V3, v: V3): V3 { V3(u.x - v.x, u.y - v.y, u.z - v.z) }
  function Scale(f: int, v: V3): V3 { V3(f * v.x, f * v.y, f * v.z) }
  function Mul(u: V3, v: V3): V3 { V3(u.x * v.x, u.y * v.y, u.z * v.z) }
  function Dot(u: V3, v: V3): int { u.x * v.x + u.y * v.y + u.z * v.z }

  function Cross(u: V3, v: V3): V3
  {
    V3(u.y * v.z - u.z * v.y, u.z * v.x - u.x * v.z, u.x * v.y - u.y * v.x)
  }

  function Min(a: int, b: int): int { if a < b then a else b }
  function Max(a: int, b: int): int { if a < b then b else a }

  /** The componentwise minimum SetMin leaves. */
  function MinV(u: V3, v: V3): (m: V3)
    ensures m.x <= u.x && m.x <= v.x && (m.x == u.x || m.x == v.x)
    ensures m.y <= u.y && m.y <= v.y && (m.y == u.y || m.y == v.y)
    ensures m.z <= u.z && m.z <= v.z && (m.z == u.z || m.z == v.z)
  {
    V3(Min(u.x, v.x), Min(u.y, v.y), Min(u.z, v.z))
  }

  /** The componentwise maximum SetMax leaves. */
  function MaxV(u: V3, v: V3): (m: V3)
    ensures m.x >= u.x && m.x >= v.x && (m.x == u.x || m.x == v.x)
    ensures m.y >= u.y && m.y >= v.y && (m.y == u.y || m.y == v.y)
    ensures m.z >= u.z && m.z >= v.z && (m.z == u.z || m.z == v.z)
  {
    V3(Max(u.x, v.x), Max(u.y, v.y), Max(u.z, v.z))
  }

  /** A value computed in int: each component wrapped to 32 bits. */
  function Wrap32V(v: V3): (r: V3)
    ensures Int32Vec(r)
    ensures Int32Vec(v) ==> r == v
  {
    V3(Wrap32(v.x), Wrap32(v.y), Wrap32(v.z))
  }

  // ---- the operators, as computed ----

  /** operator ==: exact componentwise equality. */
  function Equals(u: V3, v: V3): (b: bool)
    ensures b <==> u == v
  {
    u.x == v.x && u.y == v.y && u.z == v.z
  }

  /** operator + in int. */
  function OpAdd(u: V3, v: V3): (r: V3)
    ensures Int32Vec(r) && (Int32Vec(Add(u, v)) ==> r == Add(u, v))
  {
    Wrap32V(Add(u, v))
  }

  /** operator - in int. */
  function OpSub(u: V3, v: V3): (r: V3)
    ensures Int32Vec(r) && (Int32Vec(Sub(u, v)) ==> r == Sub(u, v))
  {
    Wrap32V(Sub(u, v))
  }

  /** operator * (int, Vec3i) and (Vec3i, int) in int. */
  function OpScale(f: int, v: V3): (r: V3)
    ensures Int32Vec(r) && (Int32Vec(Scale(f, v)) ==> r == Scale(f, v))
  {
    Wrap32V(Scale(f, v))
  }

  /** ProductIsSafe32: the largest product of components fits an int. */
  predicate ProductIsSafe32(u: V3, v: V3) { MaxAbs(u) * MaxAbs(v) <= Int32Max }

  /** operator ^ (cross), in int, under ProductIsSafe32. */
  function OpCross(u: V3, v: V3): (r: V3)
    requires ProductIsSafe32(u, v)
    ensures Int32Vec(r) && (Int32Vec(Cross(u, v)) ==> r == Cross(u, v))
  {
    Wrap32V(Cross(u, v))
  }

  /** ProductIsSafe32 bounds one product, but a component of the cross
      product is the difference of two: the guard lets the pair
      (0, 46340, -46340), (0, 46340, 46340) through and the int result wraps. */
  lemma CrossOverflows(u: V3, v: V3)
    requires u == V3(0, 46340, -46340) && v == V3(0, 46340, 46340)
    ensures ProductIsSafe32(u, v) && !IsInt32(Cross(u, v).x)
  {
    assert MaxAbs(u) == 46340 && MaxAbs(v) == 46340;
    assert Cross(u, v).x == 4294791200;
  }

  /** Whenever the true cross product leaves the int range, operator ^
      returns something else. */
  lemma CrossNotExact(u: V3, v: V3)
    requires ProductIsSafe32(u, v) && !Int32Vec(Cross(u, v))
    ensures OpCross(u, v) != Cross(u, v)
  {
  }

  /** The guard that makes the int cross product exact: twice the largest
      product fits an int. */
  predicate CrossIsSafe32(u: V3, v: V3) { 2 * (MaxAbs(u) * MaxAbs(v)) <= Int32Max }

  /** operator ^ under the intended guard: exact in int. */
  function CrossIntended(u: V3, v: V3): (r: V3)
    requires CrossIsSafe32(u, v)
    ensures r == Cross(u, v) && Int32Vec(r)
  {
    var mu, mv := MaxAbs(u), MaxAbs(v);
    ProductBound(u.y, v.z, mu, mv);
    ProductBound(u.z, v.y, mu, mv);
    ProductBound(u.z, v.x, mu, mv);
    ProductBound(u.x, v.z, mu, mv);
    ProductBound(u.x, v.y, mu, mv);
    ProductBound(u.y, v.x, mu, mv);
    OpCross(u, v)
  }

  /** IsSafeToSquare64: every component is at most 2^30 in magnitude. */
  predicate IsSafeToSquare64(v: V3)
  {
    Abs(v.x) <= 0x4000_0000 && Abs(v.y) <= 0x4000_0000 && Abs(v.z) <= 0x4000_0000
  }

  lemma SquareBound(a: int)
    requires Abs(a) <= 0x4000_0000
    ensures 0 <= a * a <= 0x1000_0000_0000_0000
  {
    MulMonotone(0x4000_0000, Abs(a), Abs(a));
    MulMonotone(0x4000_0000, Abs(a), 0x4000_0000);
    assert a * a == Abs(a) * Abs(a);
  }

  /** LengthSqr(): under IsSafeToSquare64 the int64 sum of squares does not
      overflow, so it is the true squared length. */
  function LengthSqr(v: V3): (r: int)
    requires IsSafeToSquare64(v)
    ensures r == Dot(v, v) && 0 <= r && IsInt64(r)
  {
    SquareBound(v.x);
    SquareBound(v.y);
    SquareBound(v.z);
    v.x * v.x + v.y * v.y + v.z * v.z
  }

  /** ProductIsSafe64: the largest product of components is at most 8e18. */
  predicate ProductIsSafe64(u: V3, v: V3) { MaxAbs(u) * MaxAbs(v) <= 8_000_000_000_000_000_000 }

  /** operator * (dot) as written: int64 products summed in int64. */
  function DotAsWritten(u: V3, v: V3): (r: int)
    requires Int32Vec(u) && Int32Vec(v) && ProductIsSafe64(u, v)
    ensures IsInt64(r) && (IsInt64(Dot(u, v)) ==> r == Dot(u, v))
  {
    Wrap64(u.x * v.x + u.y * v.y + u.z * v.z)
  }

  /** For any two vectors of int components ProductIsSafe64 holds: each
      component is at most 2^31 in magnitude, so the product is at most 2^62. */
  lemma ProductIsSafe64ForInts(u: V3, v: V3)
    requires Int32Vec(u) && Int32Vec(v)
    ensures ProductIsSafe64(u, v)
  {
    var mu, mv := MaxAbs(u), MaxAbs(v);
    assert mu <= 0x8000_0000 && mv <= 0x8000_0000;
    CLib.MulMonotone(0x8000_0000, mu, mv);
    CLib.MulMonotone(0x8000_0000, mv, 0x8000_0000);
  }

  /** ProductIsSafe64 lets through the dot of the most negative vector with
      itself, which overflows int64. */
  lemma DotOverflows()
    ensures var m := V3(Int32Min, Int32Min, Int32Min);
      Int32Vec(m) && ProductIsSafe64(m, m) && !IsInt64(Dot(m, m)) && DotAsWritten(m, m) != Dot(m, m)
  {
    var m := V3(Int32Min, Int32Min, Int32Min);
    assert MaxAbs(m) == 0x8000_0000;
    assert Dot(m, m) == 3 * 0x4000_0000_0000_0000;
  }

  /** The guard that makes the int64 dot exact: the three products together
      stay within int64. */
  predicate DotIsSafe64(u: V3, v: V3) { 3 * (MaxAbs(u) * MaxAbs(v)) <= Int64Max }

  lemma ProductBound(a: int, b: int, ma: nat, mb: nat)
    requires Abs(a) <= ma && Abs(b) <= mb
    ensures -(ma * mb) <= a * b <= ma * mb
  {
    MulMonotone(ma, Abs(a), Abs(b));
    MulMonotone(mb, Abs(b), ma);
    assert Abs(a * b) == Abs(a) * Abs(b);
  }

  /** The dot product under the intended guard: exact in int64. */
  function DotIntended(u: V3, v: V3): (r: int)
    requires DotIsSafe64(u, v)
    ensures r == Dot(u, v) && IsInt64(r)
  {
    var mu, mv := MaxAbs(u), MaxAbs(v);
    ProductBound(u.x, v.x, mu, mv);
    ProductBound(u.y, v.y, mu, mv);
    ProductBound(u.z, v.z, mu, mv);
    u.x * v.x + u.y * v.y + u.z * v.z
  }

  /** DistanceSqr(a, b) as written: the differences are taken in int and
      only then widened to int64. */
  function DistanceSqrAsWritten(a: V3, b: V3): int
    requires Int32Vec(a) && Int32Vec(b)
  {
    var d := OpSub(a, b);
    Wrap64(d.x * d.x + d.y * d.y + d.z * d.z)
  }

  /** Two int points, (2^31 - 1, 0, 0) and (-2, 0, 0), whose X difference
      does not fit an int although their squared distance fits an int64: the
      squared distance as written is not the true one. */
  lemma DistanceSqrOverflows(a: V3, b: V3)
    requires a == V3(Int32Max, 0, 0) && b == V3(-2, 0, 0)
    ensures Int32Vec(a) && Int32Vec(b) && Dot(Sub(a, b), Sub(a, b)) <= Int64Max
    ensures DistanceSqrAsWritten(a, b) != Dot(Sub(a, b), Sub(a, b))
  {
    var t: int := Int32Max + 2;
    assert Dot(Sub(a, b), Sub(a, b)) == t * t;
    assert OpSub(a, b) == V3(t - TwoTo32, 0, 0) by {
      WrapDown(t);
    }
    assert DistanceSqrAsWritten(a, b) == (t - TwoTo32) * (t - TwoTo32) by {
      assert IsInt64((t - TwoTo32) * (t - TwoTo32));
    }
    assert t * t - (t - TwoTo32) * (t - TwoTo32) == 2 * t * TwoTo32 - TwoTo32 * TwoTo32;
  }

  /** A value just above the int range wraps to just above its minimum. */
  lemma WrapDown(x: int)
    requires Int32Max < x <= Int32Max + TwoTo32
    ensures Wrap32(x) == x - TwoTo32
  {
    WrapEq(x, x - TwoTo32);
  }

  /** DistanceSqr with the differences taken in int64: whenever the squared
      distance of two int points fits an int64 it is exact; it is symmetric
      and zero only for equal points. */
  function DistanceSqr(a: V3, b: V3): (r: int)
    requires Int32Vec(a) && Int32Vec(b) && Dot(Sub(a, b), Sub(a, b)) <= Int64Max
    ensures r == Dot(Sub(a, b), Sub(a, b)) && IsInt64(r) && r >= 0
    ensures r == Dot(Sub(b, a), Sub(b, a))
    ensures r == 0 <==> a == b
  {
    var d := Sub(a, b);
    DiffSquare(a.x, b.x);
    DiffSquare(a.y, b.y);
    DiffSquare(a.z, b.z);
    d.x * d.x + d.y * d.y + d.z * d.z
  }

  lemma DiffSquare(a: int, b: int)
    ensures 0 <= (a - b) * (a - b)
    ensures (a - b) * (a - b) == 0 <==> a == b
    ensures (a - b) * (a - b) == (b - a) * (b - a)
  {
    var d := Abs(a - b);
    assert (a - b) * (a - b) == d * d;
    if d > 0 {
      MulGrows(d, d);
    }
  }

  /** The 64-bit cross product of int vectors never overflows int64. */
  lemma Cross64Fits(u: V3, v: V3)
    requires Int32Vec(u) && Int32Vec(v)
    ensures IsInt64(Cross(u, v).x) && IsInt64(Cross(u, v).y) && IsInt64(Cross(u, v).z)
  {
    var m: nat := 0x8000_0000;
    ProductBound(u.y, v.z, m, m);
    ProductBound(u.z, v.y, m, m);
    ProductBound(u.z, v.x, m, m);
    ProductBound(u.x, v.z, m, m);
    ProductBound(u.x, v.y, m, m);
    ProductBound(u.y, v.x, m, m);
    ExtremeProduct(u.y, v.z, u.z, v.y);
    ExtremeProduct(u.z, v.x, u.x, v.z);
    ExtremeProduct(u.x, v.y, u.y, v.x);
  }

  /** a*b - c*d for ints reaches at most 2^63 - 2^31, since 2^31 * 2^31 is
      only reached with both factors at the int minimum. */
  lemma ExtremeProduct(a: int, b: int, c: int, d: int)
    requires IsInt32(a) && IsInt32(b) && IsInt32(c) && IsInt32(d)
    ensures IsInt64(a * b - c * d)
  {
    var m: nat := 0x8000_0000;
    ProductBound(a, b, m, m);
    ProductBound(c, d, m, m);
    if a * b == m * m {
      // both factors are Int32Min, so c*d >= -(m * (m - 1))
      ProductBound(c, d, m, m);
      if c * d < 0 {
        ProductBound(c, d, if Abs(c) <= m - 1 then m - 1 else m, if Abs(c) <= m - 1 then m else m - 1);
      }
    } else if c * d == -(m * m) {
      ProductBound(a, b, if Abs(a) <= m - 1 then m - 1 else m, if Abs(a) <= m - 1 then m else m - 1);
    } else {
      ProductBound(a, b, m, m);
    }
  }

  /** The cross product is orthogonal to both operands. */
  lemma CrossOrthogonal(u: V3, v: V3)
    ensures Dot(Cross(u, v), u) == 0 && Dot(Cross(u, v), v) == 0
  {
    assert Dot(Cross(u, v), u) ==
      u.y * v.z * u.x - u.z * v.y * u.x + u.z * v.x * u.y - u.x * v.z * u.y + u.x * v.y * u.z - u.y * v.x * u.z;
    assert Dot(Cross(u, v), v) ==
      u.y * v.z * v.x - u.z * v.y * v.x + u.z * v.x * v.y - u.x * v.z * v.y + u.x * v.y * v.z - u.y * v.x * v.z;
  }

  /** Swapping the operands negates the cross product. */
  lemma CrossAntisymmetric(u: V3, v: V3)
    ensures Cross(v, u) == Scale(-1, Cross(u, v))
  {
  }

  /** SetTriangleCross(a, b, c) as written: the edges are int differences
      and their cross product is taken in int64. */
  function TriangleCross(a: V3, b: V3, c: V3): (r: V3)
    ensures Int32Vec(Sub(b, a)) && Int32Vec(Sub(c, a)) ==> r == Cross(Sub(b, a), Sub(c, a))
  {
    Cross(OpSub(b, a), OpSub(c, a))
  }

  /** The triangle normal does not depend on which corner it starts from. */
  lemma TriangleCrossRotates(a: V3, b: V3, c: V3)
    ensures Cross(Sub(b, a), Sub(c, a)) == Cross(Sub(c, b), Sub(a, b))
  {
  }

  /** A degenerate triangle (two equal corners) has a zero normal. */
  lemma TriangleCrossDegenerate(a: V3, c: V3)
    ensures Cross(Sub(a, a), Sub(c, a)) == V3(0, 0, 0)
    ensures Cross(Sub(c, a), Sub(c, a)) == V3(0, 0, 0)
  {
  }

  /** Vec3i: three int fields, updated in place by the mutators. */
  class Vec3i {
    var x: int
    var y: int
    var z: int

    function Value(): (v: V3)
      reads this
      ensures v.x == x && v.y == y && v.z == z
    {
      V3(x, y, z)
    }

    constructor (ix: int, iy: int, iz: int)
      ensures Value() == V3(ix, iy, iz)
    {
      x, y, z := ix, iy, iz;
    }

    /** operator []: component c, which must be 0, 1 or 2. */
    function Component(c: int): (r: int)
      requires 0 <= c < 3
      reads this
      ensures c == 0 ==> r == x
      ensures c == 1 ==> r == y
      ensures c == 2 ==> r == z
    {
      if c == 0 then x else if c == 1 then y else z
    }

    method Set(ix: int, iy: int, iz: int)
      modifies this
      ensures Value() == V3(ix, iy, iz)
    {
      x, y, z := ix, iy, iz;
    }

    /** operator *=. */
    method ScaleBy(scale: int)
      modifies this
      ensures Value() == OpScale(scale, old(Value()))
    {
      x, y, z := Wrap32(scale * x), Wrap32(scale * y), Wrap32(scale * z);
    }

    /** operator +=. */
    method AddIn(v: V3)
      modifies this
      ensures Value() == OpAdd(old(Value()), v)
    {
      x, y, z := Wrap32(x + v.x), Wrap32(y + v.y), Wrap32(z + v.z);
    }

    /** operator -=. */
    method SubIn(v: V3)
      modifies this
      ensures Value() == OpSub(old(Value()), v)
    {
      x, y, z := Wrap32(x - v.x), Wrap32(y - v.y), Wrap32(z - v.z);
    }

    /** SetScaled(t, s): this = t * s. */
    method SetScaled(t: V3, s: int)
      modifies this
      ensures Value() == OpScale(s, t)
    {
      x, y, z := Wrap32(s * t.x), Wrap32(s * t.y), Wrap32(s * t.z);
    }

    /** SetCross(t, v): this = t x v; requires that neither operand is this
        vector, since the components are written one after another. */
    method SetCross(t: Vec3i, v: Vec3i)
      requires t != this && v != this
      modifies this
      ensures Value() == Wrap32V(Cross(t.Value(), v.Value()))
      ensures Int32Vec(Cross(t.Value(), v.Value())) ==> Value() == Cross(t.Value(), v.Value())
    {
      x := Wrap32(t.y * v.z - t.z * v.y);
      y := Wrap32(t.z * v.x - t.x * v.z);
      z := Wrap32(t.x * v.y - t.y * v.x);
    }

    /** SetMin(v): this = min(this, v), componentwise. */
    method SetMin(v: V3)
      modifies this
      ensures Value() == MinV(old(Value()), v)
    {
      x, y, z := Min(x, v.x), Min(y, v.y), Min(z, v.z);
    }

    /** SetMax(v): this = max(this, v), componentwise. */
    method SetMax(v: V3)
      modifies this
      ensures Value() == MaxV(old(Value()), v)
    {
      x, y, z := Max(x, v.x), Max(y, v.y), Max(z, v.z);
    }

    /** AddScaled(v, t): this += t * v. */
    method AddScaled(v: V3, t: int)
      modifies this
      ensures Value() == OpAdd(old(Value()), OpScale(t, v))
    {
      var q := OpScale(t, v);
      x, y, z := Wrap32(x + q.x), Wrap32(y + q.y), Wrap32(z + q.z);
    }

    /** SetWeightedSum(ca, a, cb, b): this = ca * a + cb * b. */
    method SetWeightedSum(ca: int, a: V3, cb: int, b: V3)
      modifies this
      ensures Value() == OpAdd(OpScale(ca, a), OpScale(cb, b))
    {
      var p, q := OpScale(ca, a), OpScale(cb, b);
      var r := OpAdd(p, q);
      x, y, z := r.x, r.y, r.z;
    }

    /** SetWeightedSum(a, cb, b): this = a + cb * b. */
    method SetSum(a: V3, cb: int, b: V3)
      modifies this
      ensures Value() == OpAdd(a, OpScale(cb, b))
    {
      var q := OpScale(cb, b);
      x, y, z := Wrap32(a.x + q.x), Wrap32(a.y + q.y), Wrap32(a.z + q.z);
    }

    /** ComponentwiseScale(a): this.x *= a.x, and so on. */
    method ComponentwiseScale(a: V3)
      modifies this
      ensures Value() == Wrap32V(Mul(old(Value()), a))
    {
      x, y, z := Wrap32(x * a.x), Wrap32(y * a.y), Wrap32(z * a.z);
    }
  }

  /** Wrapping the parts of a sum before wrapping the sum changes nothing. */
  lemma WrapAddWrap(a: int, b: int)
    ensures Wrap32(Wrap32(a) + Wrap32(b)) == Wrap32(a + b)
  {
    WrapEq(Wrap32(a) + Wrap32(b), a + b);
  }

  lemma WrapEq(a: int, b: int)
    requires (a - b) % TwoTo32 == 0
    ensures Wrap32(a) == Wrap32(b)
  {
    var k := (a - b) / TwoTo32;
    DivModUnique(a - b, TwoTo32, k, 0);
    assert a == b + k * TwoTo32;
    DivModUnique(a, TwoTo32, b / TwoTo32 + k, b % TwoTo32);
  }

  /** SetWeightedSum with ints wrapped per product is the weighted sum
      wrapped once: wrapping is applied to the true value. */
  lemma WeightedSumIsWrapped(ca: int, a: V3, cb: int, b: V3)
    ensures OpAdd(OpScale(ca, a), OpScale(cb, b)) == Wrap32V(Add(Scale(ca, a), Scale(cb, b)))
  {
    WrapAddWrapV(Scale(ca, a), Scale(cb, b));
  }

  lemma WrapAddWrapV(p: V3, q: V3)
    ensures Wrap32V(Add(Wrap32V(p), Wrap32V(q))) == Wrap32V(Add(p, q))
  {
    WrapAddWrap(p.x, q.x);
    WrapAddWrap(p.y, q.y);
    WrapAddWrap(p.z, q.z);
  }

  /** Vec3i64: three int64 fields. */
  class Vec3i64 {
    var x: int
    var y: int
    var z: int

    function Value(): (v: V3)
      reads this
      ensures v.x == x && v.y == y && v.z == z
    {
      V3(x, y, z)
    }

    constructor (ix: int, iy: int, iz: int)
      ensures Value() == V3(ix, iy, iz)
    {
      x, y, z := ix, iy, iz;
    }

    /** SetCross(pVec, u, v): the cross product of two int vectors with the
        products taken in int64, exact and within int64. */
    method SetCross(u: V3, v: V3)
      requires Int32Vec(u) && Int32Vec(v)
      modifies this
      ensures Value() == Cross(u, v)
      ensures IsInt64(x) && IsInt64(y) && IsInt64(z)
    {
      Cross64Fits(u, v);
      x := u.y * v.z - u.z * v.y;
      y := u.z * v.x - u.x * v.z;
      z := u.x * v.y - u.y * v.x;
    }

    /** SetTriangleCross(pVec, a, b, c): cross(b - a, c - a), with the edges
        taken in int. */
    method SetTriangleCross(a: V3, b: V3, c: V3)
      modifies this
      ensures Value() == TriangleCross(a, b, c)
      ensures IsInt64(x) && IsInt64(y) && IsInt64(z)
    {
      var e1 := OpSub(b, a);
      var e2 := OpSub(c, a);
      SetCross(e1, e2);
    }
  }
}
