/**
  The small helpers of Util.h: range tests (`same`, `array_min`,
  `array_max`), `erase_u`, clamping, the power-of-two helpers, alignment
  and `ScopedSet`.

  The bit tricks are written with arithmetic on the two's-complement value:
  `x & ~(-x)` clears the lowest set bit of `x`, and `v & ~(a - 1)` for a
  power of two `a` clears the bits below `a`, which is `v - v % a`.
*/
module Util {
  import opened CLib

  // ---- same, array_min, array_max ----

  /** Every element equals the first. */
  predicate AllSame<T(==)>(s: seq<T>)
  {
    forall i :: 0 <= i < |s| ==> s[i] == s[0]
  }

  /** same(begin, end): walks from begin + 1 and stops at the first element
      that differs from *begin. */
  method Same<T(==)>(s: seq<T>) returns (r: bool)
    ensures r <==> AllSame(s)
  {
    var ptr := 1;
    while ptr < |s|
      invariant 1 <= ptr
      invariant forall i :: 0 <= i < ptr && i < |s| ==> s[i] == s[0]
    {
      if s[ptr] != s[0] {
        return false;
      }
      ptr := ptr + 1;
    }
    return true;
  }

  /** array_min(b, e) on a non-empty range: the smallest element. */
  method ArrayMin(s: seq<int>) returns (r: int)
    requires |s| >= 1
    ensures r in s && forall i :: 0 <= i < |s| ==> r <= s[i]
  {
    r := s[0];
    var p := 1;
    while p < |s|
      invariant 1 <= p <= |s|
      invariant r in s[..p] && forall i :: 0 <= i < p ==> r <= s[i]
    {
      r := if r < s[p] then r else s[p];
      p := p + 1;
    }
    assert s[..p] == s;
  }

  /** array_max(b, e) on a non-empty range: the largest element. */
  method ArrayMax(s: seq<int>) returns (r: int)
    requires |s| >= 1
    ensures r in s && forall i :: 0 <= i < |s| ==> s[i] <= r
  {
    r := s[0];
    var p := 1;
    while p < |s|
      invariant 1 <= p <= |s|
      invariant r in s[..p] && forall i :: 0 <= i < p ==> s[i] <= r
    {
      r := if r > s[p] then r else s[p];
      p := p + 1;
    }
    assert s[..p] == s;
  }

  // ---- erase_u ----

  /** erase_u(vec, index): the last element moves into the erased slot, then
      the vector loses its last element. */
  function EraseU<T>(v: seq<T>, i: nat): (r: seq<T>)
    requires i < |v|
    ensures |r| == |v| - 1
    ensures forall k :: 0 <= k < |r| && k != i ==> r[k] == v[k]
    ensures i < |r| ==> r[i] == v[|v| - 1]
  {
    v[i := v[|v| - 1]][..|v| - 1]
  }

  /** erase_u keeps every element but the erased one, in some order. */
  lemma EraseUMultiset<T>(v: seq<T>, i: nat)
    requires i < |v|
    ensures multiset(EraseU(v, i)) == multiset(v) - multiset{v[i]}
  {
    var t := v[i := v[|v| - 1]];
    assert multiset(t) == multiset(v) - multiset{v[i]} + multiset{v[|v| - 1]};
    var r := EraseU(v, i);
    assert t == r + [v[|v| - 1]];
    assert multiset(t) == multiset(r) + multiset{v[|v| - 1]};
    assert multiset(r) == multiset(t) - multiset{v[|v| - 1]};
  }

  // ---- Clamp, ClampTo8 ----

  /** Clamp(x, lo, hi): lo below the range, hi above it, x inside. */
  function Clamp(x: int, lo: int, hi: int): (r: int)
    ensures x < lo ==> r == lo
    ensures lo <= x ==> r == (if x > hi then hi else x)
  {
    if x < lo then lo else if x > hi then hi else x
  }

  /** With lo <= hi the result lies in [lo, hi], is x itself when x does, and
      clamping again changes nothing. */
  lemma ClampRange(x: int, lo: int, hi: int)
    requires lo <= hi
    ensures lo <= Clamp(x, lo, hi) <= hi
    ensures lo <= x <= hi <==> Clamp(x, lo, hi) == x
    ensures Clamp(Clamp(x, lo, hi), lo, hi) == Clamp(x, lo, hi)
  {
  }

  /** Clamping is monotone. */
  lemma ClampMonotone(x: int, y: int, lo: int, hi: int)
    requires lo <= hi && x <= y
    ensures Clamp(x, lo, hi) <= Clamp(y, lo, hi)
  {
  }

  /** ClampTo8: a byte, equal to val when val already is one. */
  function ClampTo8(val: int): (r: int)
    ensures 0 <= r <= 255
    ensures 0 <= val <= 255 <==> r == val
  {
    Clamp(val, 0, 255)
  }

  // ---- powers of two ----

  function Pow2(k: nat): (p: nat)
    ensures p >= 1
  {
    if k == 0 then 1 else 2 * Pow2(k - 1)
  }

  /** The reference definition: n is 2^k for some k. */
  predicate PowerOfTwo(n: nat)
  {
    n == 1 || (n >= 2 && n % 2 == 0 && PowerOfTwo(n / 2))
  }

  lemma {:induction false} Pow2IsPowerOfTwo(k: nat)
    ensures PowerOfTwo(Pow2(k))
  {
    if k > 0 {
      Pow2IsPowerOfTwo(k - 1);
    }
  }

  lemma {:induction false} Pow2Monotone(j: nat, k: nat)
    requires j <= k
    ensures Pow2(j) <= Pow2(k)
    decreases k
  {
    if j < k {
      Pow2Monotone(j, k - 1);
    }
  }

  /** A power of two is 2^k for some k below any bound it is under. */
  lemma {:induction false} PowerOfTwoIsPow2(n: nat) returns (k: nat)
    requires PowerOfTwo(n)
    ensures Pow2(k) == n
    decreases n
  {
    if n == 1 {
      k := 0;
    } else {
      var j := PowerOfTwoIsPow2(n / 2);
      k := j + 1;
    }
  }

  /** The unsigned 32-bit pattern of an int. */
  function Bits32(x: int): (u: nat)
    ensures u < TwoTo32
  {
    x % TwoTo32
  }

  /** x & ~(-x): the pattern with its lowest set bit cleared. */
  function ClearLowestBit(u: nat): nat
  {
    if u == 0 then 0
    else if u % 2 == 1 then u - 1
    else 2 * ClearLowestBit(u / 2)
  }

  /** IsPow2(x) is !(x & ~(-x)) on an int. */
  predicate IsPow2(x: int)
  {
    ClearLowestBit(Bits32(x)) == 0
  }

  /** Only the lowest set bit goes: nothing is left exactly for 0 and for
      powers of two. */
  lemma {:induction false} ClearLowestBitZero(u: nat)
    ensures ClearLowestBit(u) == 0 <==> u == 0 || PowerOfTwo(u)
    decreases u
  {
    if u != 0 && u % 2 == 0 {
      ClearLowestBitZero(u / 2);
    }
  }

  /** The only power of two in [2^31, 2^32) is 2^31. */
  lemma TopPowerOfTwo(u: nat)
    requires PowerOfTwo(u) && 0x8000_0000 <= u < TwoTo32
    ensures u == 0x8000_0000
  {
    var k := PowerOfTwoIsPow2(u);
    Pow2Values();
    if k < 31 {
      Pow2Monotone(k, 30);
    } else if k > 31 {
      Pow2Monotone(32, k);
    }
  }

  lemma Pow2Values()
    ensures Pow2(30) == 0x4000_0000 && Pow2(31) == 0x8000_0000 && Pow2(32) == TwoTo32
  {
    Pow2Four(0);
    Pow2Four(4);
    Pow2Four(8);
    Pow2Four(12);
    Pow2Four(16);
    Pow2Four(20);
    Pow2Four(24);
    Pow2Four(28);
    assert Pow2(30) == 4 * Pow2(28);
  }

  lemma Pow2Four(k: nat)
    ensures Pow2(k + 4) == 16 * Pow2(k)
  {
    assert Pow2(k + 4) == 2 * Pow2(k + 3);
    assert Pow2(k + 3) == 2 * Pow2(k + 2);
    assert Pow2(k + 2) == 2 * Pow2(k + 1);
  }

  /** IsPow2 holds for 0, for the positive powers of two, and for INT_MIN,
      whose pattern is the single bit 2^31; for nothing else. */
  lemma IsPow2Exactly(x: int)
    requires IsInt32(x)
    ensures IsPow2(x) <==> x == 0 || x == Int32Min || (x > 0 && PowerOfTwo(x))
  {
    if x >= 0 {
      assert Bits32(x) == x;
      ClearLowestBitZero(x);
    } else {
      IsPow2Negative(x);
    }
  }

  lemma IsPow2Negative(x: int)
    requires Int32Min <= x < 0
    ensures IsPow2(x) <==> x == Int32Min
  {
    var u: nat := x + TwoTo32;
    assert Bits32(x) == u;
    ClearLowestBitZero(u);
    Pow2Values();
    if x == Int32Min {
      Pow2IsPowerOfTwo(31);
    } else if PowerOfTwo(u) {
      TopPowerOfTwo(u);
    }
  }

  /** NextPow2(x): doubles y from 1 while y < x.  The source's int y would
      overflow for x above 2^30, where the loop never ends. */
  method NextPow2(x: int) returns (y: nat)
    requires x <= 0x4000_0000
    ensures PowerOfTwo(y) && x <= y
    ensures y == 1 || y / 2 < x
  {
    y := 1;
    while y < x
      invariant PowerOfTwo(y) && (y == 1 || y / 2 < x)
      decreases x - y
    {
      y := y + y;
    }
  }

  /** PrevPow2(x): x itself when IsPow2(x), else NextPow2(x) >> 1.  On x <= 0
      that gives 0, except INT_MIN, which IsPow2 accepts and returns as is. */
  method PrevPow2(x: int) returns (y: int)
    requires Int32Min <= x <= 0x4000_0000
    ensures x >= 1 ==> y >= 1 && PowerOfTwo(y) && y <= x < 2 * y
    ensures Int32Min < x <= 0 ==> y == 0
    ensures x == Int32Min ==> y == x
  {
    IsPow2Exactly(x);
    if IsPow2(x) {
      y := x;
    } else {
      var n := NextPow2(x);
      y := n / 2;
      if x >= 1 {
        assert n != 1;
      }
    }
  }

  // ---- AlignUp, AlignDown ----

  /** The range of the unsigned operand: 2^32 for the uint32 overloads,
      2^64 for the uint64 ones. */
  predicate IsWidth(m: nat)
  {
    m == TwoTo32 || m == TwoTo64
  }

  /** AlignDown(v, alignment) on an unsigned v below m: v & ~(alignment - 1). */
  function AlignDown(v: nat, a: nat, m: nat): (r: nat)
    requires IsWidth(m) && v < m && a >= 1 && PowerOfTwo(a)
  {
    RoundDown(v, a)
  }

  /** The largest multiple of a not above v. */
  function RoundDown(v: nat, a: nat): (r: nat)
    requires a >= 1
  {
    (v / a) * a
  }

  /** AlignUp(v, alignment): (v + (alignment - 1)) & ~(alignment - 1), where
      the addition wraps at m. */
  function AlignUp(v: nat, a: nat, m: nat): (r: nat)
    requires IsWidth(m) && v < m && a >= 1 && PowerOfTwo(a)
  {
    var w := (v + (a - 1)) % m;
    RoundDown(w, a)
  }

  /** RoundDown gives the multiple of a in (v - a, v]. */
  lemma RoundDownBounds(v: nat, a: nat)
    requires a >= 1
    ensures var r := RoundDown(v, a);
            r % a == 0 && r <= v < r + a
  {
    var q := v / a;
    assert v == q * a + v % a;
    DivModUnique(q * a, a, q, 0);
  }

  /** AlignDown lands on the multiple of a in (v - a, v]. */
  lemma AlignDownBounds(v: nat, a: nat, m: nat)
    requires IsWidth(m) && v < m && a >= 1 && PowerOfTwo(a)
    ensures var r := AlignDown(v, a, m);
            r % a == 0 && r <= v < r + a
  {
    RoundDownBounds(v, a);
  }

  /** Without wrap-around AlignUp lands on the multiple of a in [v, v + a). */
  lemma AlignUpBounds(v: nat, a: nat, m: nat)
    requires IsWidth(m) && v < m && a >= 1 && PowerOfTwo(a)
    requires v + a - 1 < m
    ensures var r := AlignUp(v, a, m);
            r % a == 0 && v <= r < v + a
  {
    var w := v + (a - 1);
    assert w % m == w;
    RoundDownBounds(w, a);
  }

  /** Near the top of the range the addition wraps and AlignUp gives 0. */
  lemma AlignUpWraps()
    ensures PowerOfTwo(16) && AlignUp(0xFFFF_FFFF, 16, TwoTo32) == 0
  {
    assert PowerOfTwo(16) by { assert Pow2(4) == 16; Pow2IsPowerOfTwo(4); }
  }

  // ---- ScopedSet ----

  /** A variable the caller owns. */
  class Cell<T> {
    var value: T
    constructor (v: T)
      ensures value == v
    {
      value := v;
    }
  }

  /** ScopedSet: sets *ptr on construction and restores the value it had
      when the scope ends. */
  class ScopedSet<T> {
    const ptr: Cell<T>
    const previous: T

    constructor (p: Cell<T>, val: T)
      modifies p
      ensures ptr == p && previous == old(p.value) && p.value == val
    {
      ptr := p;
      previous := p.value;
      new;
      p.value := val;
    }

    /** ~ScopedSet. */
    method Restore()
      modifies ptr
      ensures ptr.value == previous
    {
      ptr.value := previous;
    }
  }
}
