/**
  vecsorted of vecsorted.h: a vector kept sorted under a comparator, with
  binary-search lookup.  The comparator is modelled as `less(a, b) ==
  key(a) < key(b)` for a key function into the integers, which is a strict
  weak ordering whose equivalence ("neither is less") is equality of keys.

  The template argument t_multi selects the instantiation: `multi` is 0 and
  `unique` is 1, and the default is 1.  As written, `insert` skips an
  equivalent element in the `multi` instantiation and always inserts in the
  `unique` one, while `is_valid` demands no adjacent equivalents of `unique`.
  `Insert` models that; `InsertIntended` is the evidently intended behaviour.
*/
module VecSorted {
  import opened Wrappers
  import opened CLib

  const Multi: int := 0
  const Unique: int := 1
  /** The default template argument. */
  const DefaultMulti: int := 1

  // ---- specification ----

  predicate Sorted<T>(s: seq<T>, key: T -> int)
  {
    forall i, j :: 0 <= i < j < |s| ==> key(s[i]) <= key(s[j])
  }

  /** No two adjacent elements are equivalent (with Sorted: strictly increasing). */
  predicate NoAdjacentEquivalent<T>(s: seq<T>, key: T -> int)
  {
    forall i :: 0 <= i < |s| - 1 ==> key(s[i]) != key(s[i + 1])
  }

  /** is_valid(): sorted, and for `unique` no adjacent equivalents. */
  predicate IsValidSeq<T>(s: seq<T>, key: T -> int, multi: int)
  {
    Sorted(s, key) && (multi == Unique ==> NoAdjacentEquivalent(s, key))
  }

  /** std::lower_bound: the first position whose key is not below `k`. */
  function LowerBoundOf<T>(s: seq<T>, key: T -> int, k: int): (i: nat)
    ensures i <= |s|
    ensures forall j :: 0 <= j < i ==> key(s[j]) < k
    ensures i < |s| ==> key(s[i]) >= k
  {
    if s == [] || key(s[0]) >= k then 0 else 1 + LowerBoundOf(s[1..], key, k)
  }

  /** In a sorted sequence everything from the lower bound on is at least `k`. */
  lemma LowerBoundSplits<T>(s: seq<T>, key: T -> int, k: int)
    requires Sorted(s, key)
    ensures forall j :: LowerBoundOf(s, key, k) <= j < |s| ==> key(s[j]) >= k
  {
  }

  /** The lower bound is the one split point between keys below `k` and the rest. */
  lemma {:induction false} LowerBoundUnique<T>(s: seq<T>, key: T -> int, k: int, i: nat)
    requires i <= |s|
    requires forall j :: 0 <= j < i ==> key(s[j]) < k
    requires forall j :: i <= j < |s| ==> key(s[j]) >= k
    ensures i == LowerBoundOf(s, key, k)
  {
    if i > 0 {
      LowerBoundUnique(s[1..], key, k, i - 1);
    }
  }

  function InsertAt<T>(s: seq<T>, i: nat, x: T): (r: seq<T>)
    requires i <= |s|
    ensures |r| == |s| + 1 && multiset(r) == multiset(s) + multiset{x}
  {
    assert s == s[..i] + s[i..];
    s[..i] + [x] + s[i..]
  }

  /** Inserting at the lower bound keeps a sorted sequence sorted. */
  lemma InsertAtLowerBoundSorted<T>(s: seq<T>, key: T -> int, x: T)
    requires Sorted(s, key)
    ensures Sorted(InsertAt(s, LowerBoundOf(s, key, key(x)), x), key)
  {
    var i := LowerBoundOf(s, key, key(x));
    var r := InsertAt(s, i, x);
    LowerBoundSplits(s, key, key(x));
    forall a, b | 0 <= a < b < |r| ensures key(r[a]) <= key(r[b]) {
      InsertAtIndex(s, i, x, a);
      InsertAtIndex(s, i, x, b);
    }
  }

  /** ... and keeps it free of adjacent equivalents when `x` is not already there. */
  lemma InsertAtLowerBoundStrict<T>(s: seq<T>, key: T -> int, x: T)
    requires Sorted(s, key) && NoAdjacentEquivalent(s, key)
    requires forall j :: 0 <= j < |s| ==> key(s[j]) != key(x)
    ensures NoAdjacentEquivalent(InsertAt(s, LowerBoundOf(s, key, key(x)), x), key)
  {
    var i := LowerBoundOf(s, key, key(x));
    var r := InsertAt(s, i, x);
    LowerBoundSplits(s, key, key(x));
    forall j | 0 <= j < |r| - 1 ensures key(r[j]) != key(r[j + 1]) {
      InsertAtIndex(s, i, x, j);
      InsertAtIndex(s, i, x, j + 1);
      if i < j {
        assert key(s[j - 1]) != key(s[j]);
      }
    }
  }

  lemma InsertAtIndex<T>(s: seq<T>, i: nat, x: T, k: nat)
    requires i <= |s| && k <= |s|
    ensures InsertAt(s, i, x)[k] == if k < i then s[k] else if k == i then x else s[k - 1]
  {
  }

  /** What `insert` does as written: the `multi` instantiation keeps out an
      element equivalent to one present, the `unique` one always inserts. */
  function InsertedAsWritten<T>(s: seq<T>, key: T -> int, multi: int, x: T): seq<T>
  {
    var i := LowerBoundOf(s, key, key(x));
    if multi == Multi && i < |s| && key(s[i]) == key(x) then s else InsertAt(s, i, x)
  }

  /** The evidently intended `insert`: `unique` keeps out equivalents, `multi`
      always inserts. */
  function InsertedIntended<T>(s: seq<T>, key: T -> int, multi: int, x: T): seq<T>
  {
    var i := LowerBoundOf(s, key, key(x));
    if multi == Unique && i < |s| && key(s[i]) == key(x) then s else InsertAt(s, i, x)
  }

  /** As written, inserting an element equal to one present into a valid
      `unique` vecsorted leaves it invalid: [5] becomes [5, 5]. */
  lemma InsertAsWrittenBreaksUnique()
    ensures IsValidSeq([5], x => x, Unique)
    ensures InsertedAsWritten([5], x => x, Unique, 5) == [5, 5]
    ensures !IsValidSeq(InsertedAsWritten([5], x => x, Unique, 5), x => x, Unique)
  {
    assert LowerBoundOf([5], x => x, 5) == 0;
    var r := InsertedAsWritten([5], x => x, Unique, 5);
    assert r == InsertAt([5], 0, 5) == [5, 5];
    assert r[0] == r[1];
  }

  /** The intended insert keeps every valid vecsorted valid, in both
      instantiations, and always leaves an element equivalent to `x`. */
  lemma InsertIntendedKeepsValid<T>(s: seq<T>, key: T -> int, multi: int, x: T)
    requires IsValidSeq(s, key, multi)
    ensures IsValidSeq(InsertedIntended(s, key, multi, x), key, multi)
    ensures exists j :: 0 <= j < |InsertedIntended(s, key, multi, x)| && key(InsertedIntended(s, key, multi, x)[j]) == key(x)
  {
    var i := LowerBoundOf(s, key, key(x));
    InsertAtLowerBoundSorted(s, key, x);
    LowerBoundSplits(s, key, key(x));
    if multi == Unique && i < |s| && key(s[i]) == key(x) {
      assert key(InsertedIntended(s, key, multi, x)[i]) == key(x);
    } else {
      if multi == Unique {
        InsertAtLowerBoundStrict(s, key, x);
      }
      assert InsertAt(s, i, x)[i] == x;
    }
  }

  /** The as-written insert keeps every vecsorted sorted, and keeps the
      `multi` instantiation free of adjacent equivalents. */
  lemma InsertAsWrittenKeepsSorted<T>(s: seq<T>, key: T -> int, multi: int, x: T)
    requires Sorted(s, key)
    ensures Sorted(InsertedAsWritten(s, key, multi, x), key)
    ensures multi == Multi && NoAdjacentEquivalent(s, key) ==> NoAdjacentEquivalent(InsertedAsWritten(s, key, multi, x), key)
  {
    InsertAtLowerBoundSorted(s, key, x);
    LowerBoundSplits(s, key, key(x));
    if multi == Multi && NoAdjacentEquivalent(s, key) {
      var i := LowerBoundOf(s, key, key(x));
      if !(i < |s| && key(s[i]) == key(x)) {
        InsertAtLowerBoundStrict(s, key, x);
      }
    }
  }

  /** std::unique with the equivalence: of each run of equivalent neighbours
      only the first element stays. */
  function Dedup<T>(s: seq<T>, key: T -> int): (r: seq<T>)
    ensures |r| <= |s| && (|s| >= 1 ==> |r| >= 1 && key(r[|r| - 1]) == key(s[|s| - 1]))
  {
    if |s| <= 1 then s
    else
      var d := Dedup(s[..|s| - 1], key);
      assert s == s[..|s| - 1] + [s[|s| - 1]];
      if key(d[|d| - 1]) == key(s[|s| - 1]) then d else d + [s[|s| - 1]]
  }

  /** Deduplicating only removes elements. */
  lemma {:induction false} DedupSubMultiset<T>(s: seq<T>, key: T -> int)
    ensures multiset(Dedup(s, key)) <= multiset(s)
    decreases |s|
  {
    if |s| > 1 {
      var p := s[..|s| - 1];
      DedupSubMultiset(p, key);
      assert s == p + [s[|s| - 1]];
    }
  }

  /** Deduplicating a sorted sequence leaves it sorted without adjacent
      equivalents. */
  lemma {:induction false} DedupValid<T>(s: seq<T>, key: T -> int)
    requires Sorted(s, key)
    ensures Sorted(Dedup(s, key), key) && NoAdjacentEquivalent(Dedup(s, key), key)
    decreases |s|
  {
    if |s| > 1 {
      SortedInit(s, key);
      DedupValid(s[..|s| - 1], key);
      DedupStep(s, key);
    }
  }

  /** Dropping the last element of a sorted sequence leaves it sorted, and
      the last two elements are in order. */
  lemma SortedInit<T>(s: seq<T>, key: T -> int)
    requires Sorted(s, key) && |s| > 1
    ensures Sorted(s[..|s| - 1], key) && key(s[|s| - 2]) <= key(s[|s| - 1])
  {
    var p := s[..|s| - 1];
    forall a, b | 0 <= a < b < |p| ensures key(p[a]) <= key(p[b]) {
      assert p[a] == s[a] && p[b] == s[b];
    }
  }

  /** One step of Dedup: the last element is no smaller than the one before. */
  lemma DedupStep<T>(s: seq<T>, key: T -> int)
    requires |s| > 1 && key(s[|s| - 2]) <= key(s[|s| - 1])
    requires Sorted(Dedup(s[..|s| - 1], key), key) && NoAdjacentEquivalent(Dedup(s[..|s| - 1], key), key)
    ensures Sorted(Dedup(s, key), key) && NoAdjacentEquivalent(Dedup(s, key), key)
  {
    var d := Dedup(s[..|s| - 1], key);
    if key(d[|d| - 1]) == key(s[|s| - 1]) {
      DedupStepSame(s, key);
    } else {
      DedupStepNew(s, key);
    }
  }

  /** The step of Dedup that drops the last element. */
  lemma DedupStepSame<T>(s: seq<T>, key: T -> int)
    requires |s| > 1
    requires Sorted(Dedup(s[..|s| - 1], key), key) && NoAdjacentEquivalent(Dedup(s[..|s| - 1], key), key)
    requires var d := Dedup(s[..|s| - 1], key); key(d[|d| - 1]) == key(s[|s| - 1])
    ensures Sorted(Dedup(s, key), key) && NoAdjacentEquivalent(Dedup(s, key), key)
  {
    assert Dedup(s, key) == Dedup(s[..|s| - 1], key);
  }

  /** The step of Dedup that keeps the last element. */
  lemma DedupStepNew<T>(s: seq<T>, key: T -> int)
    requires |s| > 1 && key(s[|s| - 2]) <= key(s[|s| - 1])
    requires Sorted(Dedup(s[..|s| - 1], key), key) && NoAdjacentEquivalent(Dedup(s[..|s| - 1], key), key)
    requires var d := Dedup(s[..|s| - 1], key); key(d[|d| - 1]) != key(s[|s| - 1])
    ensures Sorted(Dedup(s, key), key) && NoAdjacentEquivalent(Dedup(s, key), key)
  {
    var p, last := s[..|s| - 1], s[|s| - 1];
    var d := Dedup(p, key);
    assert key(d[|d| - 1]) == key(p[|p| - 1]);
    DedupAppendValid(d, key, last);
    assert Dedup(s, key) == d + [last];
  }

  lemma DedupAppendValid<T>(d: seq<T>, key: T -> int, last: T)
    requires |d| >= 1 && Sorted(d, key) && NoAdjacentEquivalent(d, key)
    requires key(d[|d| - 1]) < key(last)
    ensures Sorted(d + [last], key) && NoAdjacentEquivalent(d + [last], key)
  {
    var r := d + [last];
    forall a, b | 0 <= a < b < |r| ensures key(r[a]) <= key(r[b]) {
      if b < |d| {
        assert r[a] == d[a] && r[b] == d[b];
      } else if a < |d| - 1 {
        assert r[a] == d[a] && key(d[a]) <= key(d[|d| - 1]);
      }
    }
    forall a | 0 <= a < |r| - 1 ensures key(r[a]) != key(r[a + 1]) {
      if a + 1 < |d| {
        assert r[a] == d[a] && r[a + 1] == d[a + 1];
      }
    }
  }

  /** Deduplicating keeps an element of every key. */
  lemma {:induction false} DedupKeepsKeys<T>(s: seq<T>, key: T -> int)
    ensures forall i :: 0 <= i < |s| ==> exists j :: 0 <= j < |Dedup(s, key)| && key(Dedup(s, key)[j]) == key(s[i])
    decreases |s|
  {
    if |s| > 1 {
      var p := s[..|s| - 1];
      var d := Dedup(p, key);
      DedupKeepsKeys(p, key);
      var r := Dedup(s, key);
      assert r == d || r == d + [s[|s| - 1]];
      forall i | 0 <= i < |s| ensures exists j :: 0 <= j < |r| && key(r[j]) == key(s[i]) {
        if i < |s| - 1 {
          assert s[i] == p[i];
          var j :| 0 <= j < |d| && key(d[j]) == key(p[i]);
          assert r[j] == d[j];
        } else {
          assert key(r[|r| - 1]) == key(s[i]);
        }
      }
    } else if |s| == 1 {
      assert Dedup(s, key)[0] == s[0];
    }
  }

  /** A sequence without adjacent equivalents that is sorted is strictly
      increasing in key. */
  lemma {:induction false} StrictlyIncreasing<T>(s: seq<T>, key: T -> int, i: nat, j: nat)
    requires Sorted(s, key) && NoAdjacentEquivalent(s, key) && i < j < |s|
    ensures key(s[i]) < key(s[j])
  {
    assert key(s[i]) <= key(s[i + 1]) && key(s[i]) != key(s[i + 1]);
  }

  /** What erasing by value should leave: the elements whose key is not k,
      in their order. */
  function WithoutKey<T>(s: seq<T>, key: T -> int, k: int): (r: seq<T>)
    ensures |r| <= |s|
    ensures forall j :: 0 <= j < |r| ==> key(r[j]) != k
  {
    if s == [] then []
    else (if key(s[0]) == k then [] else [s[0]]) + WithoutKey(s[1..], key, k)
  }

  lemma {:induction false} WithoutKeyAppend<T>(a: seq<T>, b: seq<T>, key: T -> int, k: int)
    ensures WithoutKey(a + b, key, k) == WithoutKey(a, key, k) + WithoutKey(b, key, k)
  {
    if a == [] {
      assert a + b == b;
    } else {
      var h := if key(a[0]) == k then [] else [a[0]];
      assert (a + b)[0] == a[0] && (a + b)[1..] == a[1..] + b;
      assert WithoutKey(a + b, key, k) == h + WithoutKey(a[1..] + b, key, k);
      WithoutKeyAppend(a[1..], b, key, k);
      assert WithoutKey(a, key, k) == h + WithoutKey(a[1..], key, k);
    }
  }

  lemma {:induction false} WithoutKeyNone<T>(s: seq<T>, key: T -> int, k: int)
    requires forall j :: 0 <= j < |s| ==> key(s[j]) != k
    ensures WithoutKey(s, key, k) == s
  {
    if s != [] {
      WithoutKeyNone(s[1..], key, k);
    }
  }

  lemma {:induction false} WithoutKeyAll<T>(s: seq<T>, key: T -> int, k: int)
    requires forall j :: 0 <= j < |s| ==> key(s[j]) == k
    ensures WithoutKey(s, key, k) == []
  {
    if s != [] {
      WithoutKeyAll(s[1..], key, k);
    }
  }

  /** Where the elements of key k are exactly the run s[first..last],
      cutting that run out is erasing by value. */
  lemma WithoutKeyOfRun<T>(s: seq<T>, key: T -> int, k: int, first: nat, last: nat)
    requires first <= last <= |s|
    requires forall j :: 0 <= j < |s| ==> (key(s[j]) == k <==> first <= j < last)
    ensures WithoutKey(s, key, k) == s[..first] + s[last..]
  {
    var p, m, q := s[..first], s[first..last], s[last..];
    assert s == p + m + q;
    assert WithoutKey(p, key, k) == p by {
      assert forall j :: 0 <= j < |p| ==> p[j] == s[j];
      WithoutKeyNone(p, key, k);
    }
    assert WithoutKey(m, key, k) == [] by {
      assert forall j :: 0 <= j < |m| ==> m[j] == s[first + j];
      WithoutKeyAll(m, key, k);
    }
    assert WithoutKey(q, key, k) == q by {
      assert forall j :: 0 <= j < |q| ==> q[j] == s[last + j];
      WithoutKeyNone(q, key, k);
    }
    WithoutKeyAppend(p + m, q, key, k);
    WithoutKeyAppend(p, m, key, k);
    assert p + [] == p;
  }

  class VecSorted<T(==)> {
    /** m_vector */
    var vec: seq<T>
    /** m_compare, as a key function */
    const key: T -> int
    /** t_multi: 0 (multi) or 1 (unique) */
    const multi: int

    ghost predicate Valid()
      reads this
    {
      IsValidSeq(vec, key, multi)
    }

    constructor (key: T -> int, multi: int)
      ensures Valid() && vec == [] && this.key == key && this.multi == multi
    {
      vec := [];
      this.key := key;
      this.multi := multi;
    }

    /** The `sorted` constructor: the range is taken as it is and must already
        be valid. */
    constructor FromSorted(items: seq<T>, key: T -> int, multi: int)
      requires IsValidSeq(items, key, multi)
      ensures Valid() && vec == items && this.key == key && this.multi == multi
    {
      vec := items;
      this.key := key;
      this.multi := multi;
    }

    /** The `non_sorted` constructor: the range is sorted. */
    constructor FromNonSorted(items: seq<T>, key: T -> int, multi: int)
      requires multi == Multi || NoAdjacentEquivalent(SortByKey(items, key), key)
      ensures Valid() && multiset(vec) == multiset(items)
      ensures this.key == key && this.multi == multi
    {
      vec := SortByKey(items, key);
      this.key := key;
      this.multi := multi;
    }

    /** The `sorted_non_unique` constructor: the range must be sorted; for
        `unique`, equivalent duplicates are removed. */
    constructor FromSortedNonUnique(items: seq<T>, key: T -> int, multi: int)
      requires Sorted(items, key)
      ensures Valid() && this.key == key && this.multi == multi
      ensures vec == if multi == Unique then Dedup(items, key) else items
    {
      if multi == Unique {
        DedupValid(items, key);
        vec := Dedup(items, key);
      } else {
        vec := items;
      }
      this.key := key;
      this.multi := multi;
    }

    /** The `non_unique` constructor: the range is sorted and, for `unique`,
        equivalent duplicates are removed. */
    constructor FromNonUnique(items: seq<T>, key: T -> int, multi: int)
      ensures Valid() && this.key == key && this.multi == multi
      ensures multi != Unique ==> multiset(vec) == multiset(items)
      ensures multi == Unique ==> multiset(vec) <= multiset(items)
      ensures forall i :: 0 <= i < |items| ==> exists j :: 0 <= j < |vec| && key(vec[j]) == key(items[i])
    {
      var sorted := SortByKey(items, key);
      forall i | 0 <= i < |items| ensures exists j :: 0 <= j < |sorted| && key(sorted[j]) == key(items[i]) {
        assert items[i] in multiset(sorted);
      }
      if multi == Unique {
        DedupValid(sorted, key);
        DedupKeepsKeys(sorted, key);
        DedupSubMultiset(sorted, key);
        var d := Dedup(sorted, key);
        forall i | 0 <= i < |items| ensures exists j :: 0 <= j < |d| && key(d[j]) == key(items[i]) {
          var k :| 0 <= k < |sorted| && key(sorted[k]) == key(items[i]);
        }
        vec := d;
      } else {
        vec := sorted;
      }
      this.key := key;
      this.multi := multi;
    }

    /** std::lower_bound by binary search. */
    method LowerBound(k: int) returns (i: nat)
      requires Sorted(vec, key)
      ensures i == LowerBoundOf(vec, key, k)
    {
      var lo, hi := 0, |vec|;
      while lo < hi
        invariant 0 <= lo <= hi <= |vec|
        invariant forall j :: 0 <= j < lo ==> key(vec[j]) < k
        invariant forall j :: hi <= j < |vec| ==> key(vec[j]) >= k
      {
        var mid := (lo + hi) / 2;
        if key(vec[mid]) < k {
          lo := mid + 1;
        } else {
          hi := mid;
        }
      }
      i := lo;
      LowerBoundUnique(vec, key, k, i);
    }

    /** find(val): the lower-bound element when it is equivalent to `val`,
        else end(). */
    method Find(val: T) returns (it: nat)
      requires Sorted(vec, key)
      ensures it <= |vec|
      ensures it < |vec| ==> key(vec[it]) == key(val) && forall j :: 0 <= j < it ==> key(vec[j]) < key(val)
      ensures it == |vec| <==> forall j :: 0 <= j < |vec| ==> key(vec[j]) != key(val)
    {
      it := LowerBound(key(val));
      LowerBoundSplits(vec, key, key(val));
      if it == |vec| {
        return;
      }
      if key(val) < key(vec[it]) {
        return |vec|;
      }
    }

    /** exists(val): std::binary_search. */
    method Exists(val: T) returns (r: bool)
      requires Sorted(vec, key)
      ensures r <==> exists j :: 0 <= j < |vec| && key(vec[j]) == key(val)
    {
      var it := Find(val);
      r := it < |vec|;
    }

    /** findrange_sub_multi(val): [lower bound, end of the run of equivalents),
        or (end, end) when there is no equivalent. */
    method FindRangeMulti(val: T) returns (first: nat, last: nat)
      requires Sorted(vec, key)
      ensures first <= last <= |vec|
      ensures first == last ==> first == |vec| && forall j :: 0 <= j < |vec| ==> key(vec[j]) != key(val)
      ensures first < last ==> forall j :: 0 <= j < |vec| ==> (key(vec[j]) == key(val) <==> first <= j < last)
    {
      var it := LowerBound(key(val));
      LowerBoundSplits(vec, key, key(val));
      if it == |vec| || key(val) < key(vec[it]) {
        return |vec|, |vec|;
      }
      var itEnd := it + 1;
      while itEnd != |vec| && !(key(val) < key(vec[itEnd]))
        invariant it < itEnd <= |vec|
        invariant forall j :: it <= j < itEnd ==> key(vec[j]) == key(val)
      {
        itEnd := itEnd + 1;
      }
      return it, itEnd;
    }

    /** findrange(val): `unique` returns the single element `find` gives;
        `multi` returns the whole equivalent range. */
    method FindRange(val: T) returns (first: nat, last: nat)
      requires Sorted(vec, key)
      ensures first <= last <= |vec|
      ensures first == last <==> forall j :: 0 <= j < |vec| ==> key(vec[j]) != key(val)
      ensures forall j :: first <= j < last ==> key(vec[j]) == key(val)
      ensures multi == Unique && first < last ==> last == first + 1
      ensures multi != Unique && first < last ==>
                forall j :: 0 <= j < |vec| && key(vec[j]) == key(val) ==> first <= j < last
    {
      if multi == Unique {
        var it := Find(val);
        if it == |vec| {
          return |vec|, |vec|;
        }
        return it, it + 1;
      }
      first, last := FindRangeMulti(val);
      if first < last {
        assert key(vec[first]) == key(val);
      }
    }

    /** insert(val) as written: at the lower bound; `multi` skips it when an
        equivalent element is there, `unique` inserts it regardless. */
    method Insert(val: T)
      requires Sorted(vec, key)
      modifies this
      ensures vec == InsertedAsWritten(old(vec), key, multi, val)
      ensures Sorted(vec, key)
      ensures old(Valid()) && multi == Multi ==> Valid()
    {
      InsertAsWrittenKeepsSorted(vec, key, multi, val);
      var lo, hi := 0, |vec|;
      while lo < hi
        invariant 0 <= lo <= hi <= |vec|
        invariant forall j :: 0 <= j < lo ==> key(vec[j]) < key(val)
        invariant forall j :: hi <= j < |vec| ==> key(vec[j]) >= key(val)
      {
        var mid := (lo + hi) / 2;
        if key(vec[mid]) < key(val) {
          lo := mid + 1;
        } else {
          hi := mid;
        }
      }
      LowerBoundUnique(vec, key, key(val), lo);
      if multi == Multi && lo < |vec| && !(key(val) < key(vec[lo])) {
        return;
      }
      vec := InsertAt(vec, lo, val);
    }

    /** push_back_sorted(val): requires the vector to be empty or back() < val. */
    method PushBackSorted(val: T)
      requires Valid() && (vec == [] || key(vec[|vec| - 1]) < key(val))
      modifies this
      ensures Valid() && vec == old(vec) + [val]
    {
      vec := vec + [val];
    }

    /** erase(cit): a no-op at end(), otherwise removes that element. */
    method EraseAt(it: nat)
      requires Valid() && it <= |vec|
      modifies this
      ensures Valid()
      ensures vec == if it == old(|vec|) then old(vec) else old(vec[..it] + vec[it + 1..])
    {
      if it == |vec| {
        return;
      }
      vec := vec[..it] + vec[it + 1..];
      RemoveRangeValid(old(vec), it, it + 1);
    }

    /** erase(cfirst, clast): a no-op when cfirst is end(), otherwise the range goes. */
    method EraseRange(first: nat, last: nat)
      requires Valid() && first <= last <= |vec|
      modifies this
      ensures Valid()
      ensures vec == if first == old(|vec|) then old(vec) else old(vec[..first] + vec[last..])
    {
      if first == |vec| {
        return;
      }
      RemoveRangeValid(vec, first, last);
      vec := vec[..first] + vec[last..];
    }

    lemma RemoveRangeValid(s: seq<T>, first: nat, last: nat)
      requires IsValidSeq(s, key, multi) && first <= last <= |s|
      ensures IsValidSeq(s[..first] + s[last..], key, multi)
    {
      var r := s[..first] + s[last..];
      assert forall j :: 0 <= j < |r| ==> r[j] == if j < first then s[j] else s[j + (last - first)];
      if multi == Unique {
        forall j | 0 <= j < |r| - 1 ensures key(r[j]) != key(r[j + 1]) {
          var a := j;
          var b := if j + 1 < first then j + 1 else j + 1 + (last - first);
          if j < first { } else { a := j + (last - first); }
          StrictlyIncreasing(s, key, a, b);
        }
      }
    }

    /** erase(val): removes the range findrange gives and returns its size. */
    method EraseValue(val: T) returns (count: nat)
      requires Valid()
      modifies this
      ensures Valid()
      ensures count == |old(vec)| - |vec|
      ensures count == 0 <==> forall j :: 0 <= j < |old(vec)| ==> key(old(vec)[j]) != key(val)
      ensures multi == Unique ==> count <= 1
      ensures vec == WithoutKey(old(vec), key, key(val))
    {
      var first, last := FindRange(val);
      if multi == Unique && first < last {
        forall j | 0 <= j < |vec| && j != first ensures key(vec[j]) != key(val) {
          if j < first {
            StrictlyIncreasing(vec, key, j, first);
          } else {
            StrictlyIncreasing(vec, key, first, j);
          }
        }
      }
      if first == last {
        WithoutKeyNone(vec, key, key(val));
      } else {
        WithoutKeyOfRun(vec, key, key(val), first, last);
      }
      count := last - first;
      EraseRange(first, last);
    }

    /** shrink(n): asserts n <= size and cuts the vector back. */
    method Shrink(n: nat)
      requires Valid() && n <= |vec|
      modifies this
      ensures Valid() && vec == old(vec[..n])
    {
      RemoveRangeValid(vec, n, |vec|);
      vec := vec[..n];
      assert vec == old(vec)[..n] + old(vec)[|old(vec)|..];
    }

    method PopBack()
      requires Valid() && |vec| >= 1
      modifies this
      ensures Valid() && vec == old(vec[..|vec| - 1])
    {
      Shrink(|vec| - 1);
    }

    method Clear()
      modifies this
      ensures Valid() && vec == []
    {
      vec := [];
    }

    /** is_sorted() as intended: no element is less than the one before
        it, and an empty vector is sorted. */
    method IsSorted() returns (r: bool)
      ensures r <==> Sorted(vec, key)
    {
      var i := 0;
      while i + 1 < |vec|
        invariant 0 <= i && (|vec| >= 1 ==> i < |vec|)
        invariant forall j :: 0 <= j < i && j + 1 < |vec| ==> key(vec[j]) <= key(vec[j + 1])
      {
        if key(vec[i + 1]) < key(vec[i]) {
          return false;
        }
        i := i + 1;
      }
      AdjacentSorted(vec, key);
      return true;
    }

    /** is_sorted() as written: the bound `n - 1` is taken in the unsigned
        size_t, which wraps for an empty vector, so the first pass reads
        at(1) and at(0) outside it (None).  On any other vector it answers
        as IsSorted does.  A vector's size always fits size_t. */
    method IsSortedAsWritten() returns (r: Option<bool>)
      requires |vec| < TwoTo64
      ensures |vec| == 0 ==> r == None
      ensures |vec| > 0 ==> r == Some(Sorted(vec, key))
    {
      var bound := SizeT(|vec| - 1);
      var i := 0;
      while i < bound
        invariant 0 <= i && (|vec| >= 1 ==> i < |vec| && bound == |vec| - 1)
        invariant |vec| == 0 ==> i == 0
        invariant forall j :: 0 <= j < i && j + 1 < |vec| ==> key(vec[j]) <= key(vec[j + 1])
        decreases bound - i
      {
        if i + 1 >= |vec| {
          return None;
        }
        if key(vec[i + 1]) < key(vec[i]) {
          assert !Sorted(vec, key) by {
            assert key(vec[i]) > key(vec[i + 1]);
          }
          return Some(false);
        }
        i := i + 1;
      }
      AdjacentSorted(vec, key);
      return Some(true);
    }

    /** is_valid(): empty, or sorted and (for `unique`) with no two adjacent
        elements equivalent. */
    method IsValid() returns (r: bool)
      ensures r <==> IsValidSeq(vec, key, multi)
    {
      if |vec| == 0 {
        return true;
      }
      var sorted := IsSorted();
      if !sorted {
        return false;
      }
      if multi == Unique {
        var i := 0;
        while i < |vec| - 1
          invariant 0 <= i <= |vec| - 1
          invariant forall j :: 0 <= j < i ==> key(vec[j]) != key(vec[j + 1])
        {
          if key(vec[i]) == key(vec[i + 1]) {
            return false;
          }
          i := i + 1;
        }
      }
      return true;
    }
  }

  /** Sortedness follows from sortedness of neighbours. */
  lemma {:induction false} AdjacentSorted<T>(s: seq<T>, key: T -> int)
    requires forall j :: 0 <= j < |s| - 1 ==> key(s[j]) <= key(s[j + 1])
    ensures Sorted(s, key)
    decreases |s|
  {
    if |s| > 1 {
      var p := s[..|s| - 1];
      AdjacentSorted(p, key);
      forall i, j | 0 <= i < j < |s| ensures key(s[i]) <= key(s[j]) {
        if j < |s| - 1 {
          assert s[i] == p[i] && s[j] == p[j];
        } else if i < j - 1 {
          assert s[i] == p[i] && s[j - 1] == p[j - 1];
        }
      }
    }
  }

  /** std::sort by key: a sorted permutation (here, by insertion at the lower
      bound; std::sort's own algorithm is not modelled). */
  function SortByKey<T>(s: seq<T>, key: T -> int): (r: seq<T>)
    ensures Sorted(r, key) && multiset(r) == multiset(s)
  {
    if s == [] then []
    else
      var p := SortByKey(s[..|s| - 1], key);
      SortStep(s, key, p);
      InsertAt(p, LowerBoundOf(p, key, key(s[|s| - 1])), s[|s| - 1])
  }

  /** One step of SortByKey: the last element inserted at its lower bound in
      a sorted permutation of the rest. */
  lemma SortStep<T>(s: seq<T>, key: T -> int, p: seq<T>)
    requires s != [] && Sorted(p, key) && multiset(p) == multiset(s[..|s| - 1])
    ensures Sorted(InsertAt(p, LowerBoundOf(p, key, key(s[|s| - 1])), s[|s| - 1]), key)
    ensures multiset(InsertAt(p, LowerBoundOf(p, key, key(s[|s| - 1])), s[|s| - 1])) == multiset(s)
  {
    InsertAtLowerBoundSorted(p, key, s[|s| - 1]);
    assert s == s[..|s| - 1] + [s[|s| - 1]];
  }
}
