/**
  hashtable_prime of hashtable_prime.h: an open-addressing hash table whose
  size is taken from a list of primes.  A slot is empty, a tombstone left by
  `erase` (which keeps its hash), or a live entry.  The k-th re-probe adds k
  to the index modulo the table size, so the k-th probe of hash h lands at
  (h + k(k+1)/2) mod size.

  The fill ratio, a float in the source, is held in thousandths; the prime
  list c_prime_list is a constructor parameter.  A probe loop of the source
  that can never find the slot it looks for runs forever; the model stops
  after 2·size probes, past which the probe sequence only repeats
  (`ProbePeriodic`), and reports `Forever`.
*/
module HashtablePrime {
  import CLib
  import opened Wrappers

  datatype Slot<K, D> = Empty | Deleted(hash: nat) | Full(hash: nat, key: K, data: D)

  /** Where a probe loop ends: at a slot, at NULL, or never; NoTable is a
      table of size zero, where the first index would be `hash % 0`. */
  datatype Outcome = At(index: nat) | Null | Forever | NoTable

  /** c_minHashCount of rebuild_table */
  const MinHashCount: nat := 16

  function Max(a: int, b: int): int
  {
    if a >= b then a else b
  }

  function Triangle(k: nat): nat
  {
    k * (k + 1) / 2
  }

  /** The k-th probe position of hash `h` in a table of `p` slots. */
  function ProbeAt(h: nat, k: nat, p: nat): (r: nat)
    requires p > 0
    ensures r < p
  {
    (h + Triangle(k)) % p
  }

  lemma ModShift(q: nat, x: nat, p: nat)
    requires p > 0
    ensures (q * p + x) % p == x % p
  {
    CLib.DivModUnique(q * p + x, p, q + x / p, x % p);
  }

  /** table_index starts at hash % size and table_reindex adds the probe count:
      the incremental index is the closed-form probe position. */
  lemma ProbeStep(h: nat, k: nat, p: nat)
    requires p > 0 && k >= 1
    ensures (ProbeAt(h, k - 1, p) + k) % p == ProbeAt(h, k, p)
  {
    assert Triangle(k) == Triangle(k - 1) + k by {
      assert k * (k + 1) == (k - 1) * k + 2 * k;
    }
    var a := h + Triangle(k - 1);
    ModShift(a / p, a % p + k, p);
    assert a == a / p * p + a % p;
  }

  lemma ProbeStart(h: nat, p: nat)
    requires p > 0
    ensures ProbeAt(h, 0, p) == h % p
  {
  }

  /** The probe sequence repeats with period 2·size. */
  lemma ProbePeriodic(h: nat, k: nat, p: nat)
    requires p > 0
    ensures ProbeAt(h, k + 2 * p, p) == ProbeAt(h, k, p)
  {
    var n := k + 2 * p;
    assert n * (n + 1) == k * (k + 1) + 2 * p * (2 * k + 2 * p + 1);
    assert Triangle(n) == Triangle(k) + p * (2 * k + 2 * p + 1);
    ModShift(2 * k + 2 * p + 1, h + Triangle(k), p);
  }

  lemma {:induction false} ProbeShift(h: nat, q: nat, r: nat, p: nat)
    requires p > 0
    ensures ProbeAt(h, q * (2 * p) + r, p) == ProbeAt(h, r, p)
    decreases q
  {
    if q > 0 {
      var a := (q - 1) * (2 * p) + r;
      MulSucc(q - 1, 2 * p);
      ProbePeriodic(h, a, p);
      ProbeShift(h, q - 1, r, p);
    }
  }

  lemma MulSucc(q: nat, w: nat)
    ensures (q + 1) * w == q * w + w
  {
  }

  lemma ProbeMod(h: nat, k: nat, p: nat)
    requires p > 0
    ensures ProbeAt(h, k, p) == ProbeAt(h, k % (2 * p), p)
  {
    assert k == k / (2 * p) * (2 * p) + k % (2 * p);
    ProbeShift(h, k / (2 * p), k % (2 * p), p);
  }

  /** A probe path whose first 2·size positions are all live never reaches a
      slot that is not: the source's loop then runs forever. */
  lemma NeverFree<K, D>(s: seq<Slot<K, D>>, h: nat)
    requires |s| > 0
    requires forall m :: 0 <= m < 2 * |s| ==> s[ProbeAt(h, m, |s|)].Full?
    ensures forall k: nat :: s[ProbeAt(h, k, |s|)].Full?
  {
    forall k: nat ensures s[ProbeAt(h, k, |s|)].Full? {
      ProbeMod(h, k, |s|);
    }
  }

  /** The entry a slot contributes. */
  function Entry<K(==), D(==)>(x: Slot<K, D>): multiset<(nat, K, D)>
  {
    if x.Full? then multiset{(x.hash, x.key, x.data)} else multiset{}
  }

  /** The live entries of a table, as (hash, key, data). */
  function LiveEntries<K(==), D(==)>(s: seq<Slot<K, D>>): (r: multiset<(nat, K, D)>)
  {
    if s == [] then multiset{}
    else LiveEntries(s[..|s| - 1]) + Entry(s[|s| - 1])
  }

  /** A table has no live entries exactly when no slot is live. */
  lemma {:induction false} LiveEntriesNone<K, D>(s: seq<Slot<K, D>>)
    ensures LiveEntries(s) == multiset{} <==> forall i :: 0 <= i < |s| ==> !s[i].Full?
    decreases |s|
  {
    if s != [] {
      var p := s[..|s| - 1];
      LiveEntriesNone(p);
      assert forall i :: 0 <= i < |s| - 1 ==> s[i] == p[i];
      if s[|s| - 1].Full? {
        assert (s[|s| - 1].hash, s[|s| - 1].key, s[|s| - 1].data) in LiveEntries(s);
      }
    }
  }

  lemma LiveEntriesUnfold<K, D>(s: seq<Slot<K, D>>)
    requires |s| > 0
    ensures LiveEntries(s) == LiveEntries(s[..|s| - 1]) + Entry(s[|s| - 1])
  {
  }

  lemma MultisetShift<T>(a: multiset<T>, b: multiset<T>, e: multiset<T>, x: multiset<T>, y: multiset<T>)
    requires a + x == b + y
    ensures (a + e) + x == (b + e) + y
  {
    assert (a + e) + x == (a + x) + e;
    assert (b + e) + y == (b + y) + e;
  }

  /** Overwriting one slot swaps that slot's entry for the new one. */
  lemma {:induction false} LiveEntriesUpdate<K, D>(s: seq<Slot<K, D>>, i: nat, v: Slot<K, D>)
    requires i < |s|
    ensures LiveEntries(s[i := v]) + Entry(s[i]) == LiveEntries(s) + Entry(v)
    decreases |s|, 1
  {
    if i < |s| - 1 {
      LiveEntriesUpdateBefore(s, i, v);
    } else {
      LiveEntriesUpdateLast(s, v);
    }
  }

  /** LiveEntriesUpdate for a slot before the last one. */
  lemma {:induction false} LiveEntriesUpdateBefore<K, D>(s: seq<Slot<K, D>>, i: nat, v: Slot<K, D>)
    requires i < |s| - 1
    ensures LiveEntries(s[i := v]) + Entry(s[i]) == LiveEntries(s) + Entry(v)
    decreases |s|, 0
  {
    var n := |s|;
    var t, ps, last := s[i := v], s[..n - 1], s[n - 1];
    var pt := ps[i := v];
    assert t[..n - 1] == pt && t[n - 1] == last && ps[i] == s[i];
    LiveEntriesSplit(t, pt, last);
    LiveEntriesSplit(s, ps, last);
    LiveEntriesUpdate(ps, i, v);
    MultisetShift(LiveEntries(pt), LiveEntries(ps), Entry(last), Entry(ps[i]), Entry(v));
  }

  lemma LiveEntriesSplit<K, D>(s: seq<Slot<K, D>>, init: seq<Slot<K, D>>, last: Slot<K, D>)
    requires |s| > 0 && init == s[..|s| - 1] && last == s[|s| - 1]
    ensures LiveEntries(s) == LiveEntries(init) + Entry(last)
  {
  }

  /** LiveEntriesUpdate for the last slot. */
  lemma LiveEntriesUpdateLast<K, D>(s: seq<Slot<K, D>>, v: Slot<K, D>)
    requires |s| > 0
    ensures LiveEntries(s[|s| - 1 := v]) + Entry(s[|s| - 1]) == LiveEntries(s) + Entry(v)
  {
    var t := s[|s| - 1 := v];
    LiveEntriesUnfold(t);
    LiveEntriesUnfold(s);
    assert t[..|s| - 1] == s[..|s| - 1];
  }

  lemma LiveEntriesPrefix<K, D>(s: seq<Slot<K, D>>, i: nat)
    requires i < |s|
    ensures LiveEntries(s[..i + 1]) == LiveEntries(s[..i]) + Entry(s[i])
  {
    assert s[..i + 1][..i] == s[..i];
  }

  /** Every live entry can be found along its own probe path: it sits at
      probe number `probeOf[i]`, and no earlier slot of the path is empty. */
  ghost predicate Reachable<K, D>(s: seq<Slot<K, D>>, probeOf: seq<nat>)
    requires |probeOf| == |s|
  {
    forall i :: 0 <= i < |s| && s[i].Full? ==>
      probeOf[i] < 2 * |s| && ProbeAt(s[i].hash, probeOf[i], |s|) == i &&
      forall m :: 0 <= m < probeOf[i] ==> !s[ProbeAt(s[i].hash, m, |s|)].Empty?
  }

  lemma ReachableNone<K, D>(s: seq<Slot<K, D>>, probeOf: seq<nat>)
    requires |probeOf| == |s| && forall i :: 0 <= i < |s| ==> !s[i].Full?
    ensures Reachable(s, probeOf)
  {
  }

  /** The table invariant: the counters agree with the live entries, and
      every live entry is reachable. */
  ghost predicate TableValid<K, D>(s: seq<Slot<K, D>>, probeOf: seq<nat>, inserts: nat, deleted: nat)
  {
    deleted <= inserts && |LiveEntries(s)| == inserts - deleted &&
    |probeOf| == |s| && Reachable(s, probeOf)
  }

  /** Placing an entry in a free slot of its probe path keeps the table
      invariant with one more insert. */
  lemma PlaceKeepsValid<K, D>(s: seq<Slot<K, D>>, probeOf: seq<nat>, inserts: nat, deleted: nat,
                              idx: nat, c: nat, h: nat, k: K, d: D)
    requires TableValid(s, probeOf, inserts, deleted)
    requires idx < |s| && !s[idx].Full? && c < 2 * |s| && ProbeAt(h, c, |s|) == idx
    requires forall m :: 0 <= m < c ==> s[ProbeAt(h, m, |s|)].Full?
    ensures TableValid(s[idx := Full(h, k, d)], probeOf[idx := c], inserts + 1, deleted)
    ensures LiveEntries(s[idx := Full(h, k, d)]) == LiveEntries(s) + multiset{(h, k, d)}
  {
    ReachableAfterPlace(s, probeOf, idx, c, h, k, d);
    LiveEntriesUpdate(s, idx, Full(h, k, d));
    assert Entry(s[idx]) == multiset{};
    assert Entry(Full(h, k, d)) == multiset{(h, k, d)};
    var after := LiveEntries(s[idx := Full(h, k, d)]);
    assert after == LiveEntries(s) + multiset{(h, k, d)};
    assert |after| == |LiveEntries(s)| + 1;
  }

  /** Turning a live slot into a tombstone keeps the table invariant with one
      more deletion, and removes exactly that slot's entry. */
  lemma EraseKeepsValid<K, D>(s: seq<Slot<K, D>>, probeOf: seq<nat>, inserts: nat, deleted: nat, idx: nat)
    requires TableValid(s, probeOf, inserts, deleted) && idx < |s| && s[idx].Full?
    ensures TableValid(s[idx := Deleted(s[idx].hash)], probeOf, inserts, deleted + 1)
    ensures LiveEntries(s[idx := Deleted(s[idx].hash)]) + multiset{(s[idx].hash, s[idx].key, s[idx].data)} == LiveEntries(s)
  {
    var v := Deleted(s[idx].hash);
    ReachableAfterErase(s, probeOf, idx);
    LiveEntriesUpdate(s, idx, v);
    assert Entry(v) == multiset{};
    assert Entry(s[idx]) == multiset{(s[idx].hash, s[idx].key, s[idx].data)};
    var after := LiveEntries(s[idx := v]);
    assert after + multiset{(s[idx].hash, s[idx].key, s[idx].data)} == LiveEntries(s);
    assert |after| + 1 == |LiveEntries(s)|;
  }

  /** A probe walk that reaches an empty slot after `c` non-matching live or
      deleted slots has passed every place a matching entry could be. */
  lemma AbsentWhenEmptyReached<K, D>(s: seq<Slot<K, D>>, probeOf: seq<nat>, h: nat, k: K, c: nat)
    requires |probeOf| == |s| && |s| > 0 && Reachable(s, probeOf)
    requires s[ProbeAt(h, c, |s|)].Empty?
    requires forall m :: 0 <= m < c ==> !(s[ProbeAt(h, m, |s|)].Full? && s[ProbeAt(h, m, |s|)].hash == h && s[ProbeAt(h, m, |s|)].key == k)
    ensures forall i :: 0 <= i < |s| && s[i].Full? ==> !(s[i].hash == h && s[i].key == k)
  {
    forall i | 0 <= i < |s| && s[i].Full? && s[i].hash == h ensures s[i].key != k {
      assert ProbeAt(h, probeOf[i], |s|) == i;
    }
  }

  /** A table of empty slots meets the invariant with no inserts. */
  lemma EmptyTableValid<K, D>(s: seq<Slot<K, D>>, probeOf: seq<nat>)
    requires |probeOf| == |s| && forall i :: 0 <= i < |s| ==> s[i].Empty?
    ensures TableValid(s, probeOf, 0, 0)
  {
    LiveEntriesNone(s);
  }

  /** Filling a free slot at probe number `c` of its path, when every earlier
      slot of the path is live, keeps every entry reachable. */
  lemma ReachableAfterPlace<K, D>(s: seq<Slot<K, D>>, probeOf: seq<nat>, idx: nat, c: nat, h: nat, k: K, d: D)
    requires |probeOf| == |s| && Reachable(s, probeOf)
    requires idx < |s| && !s[idx].Full? && c < 2 * |s| && ProbeAt(h, c, |s|) == idx
    requires forall m :: 0 <= m < c ==> s[ProbeAt(h, m, |s|)].Full?
    ensures Reachable(s[idx := Full(h, k, d)], probeOf[idx := c])
  {
    var t := s[idx := Full(h, k, d)];
    var q := probeOf[idx := c];
    forall i | 0 <= i < |t| && t[i].Full?
      ensures q[i] < 2 * |t| && ProbeAt(t[i].hash, q[i], |t|) == i
      ensures forall m :: 0 <= m < q[i] ==> !t[ProbeAt(t[i].hash, m, |t|)].Empty?
    {
      if i != idx {
        assert t[i] == s[i] && q[i] == probeOf[i];
      }
    }
  }

  /** Turning a live slot into a tombstone keeps every other entry reachable. */
  lemma ReachableAfterErase<K, D>(s: seq<Slot<K, D>>, probeOf: seq<nat>, idx: nat)
    requires |probeOf| == |s| && Reachable(s, probeOf) && idx < |s| && s[idx].Full?
    ensures Reachable(s[idx := Deleted(s[idx].hash)], probeOf)
  {
    var t := s[idx := Deleted(s[idx].hash)];
    forall i | 0 <= i < |t| && t[i].Full?
      ensures probeOf[i] < 2 * |t| && ProbeAt(t[i].hash, probeOf[i], |t|) == i
      ensures forall m :: 0 <= m < probeOf[i] ==> !t[ProbeAt(t[i].hash, m, |t|)].Empty?
    {
      assert t[i] == s[i];
    }
  }

  /** ftoi(1.2 * occupancy / fillRatio), with the ratio in thousandths. */
  function MinNewSize(occupancy: nat, fillPermille: nat): nat
    requires fillPermille > 0
  {
    1200 * occupancy / fillPermille
  }

  /** ftoi(size * fillRatio): the insert count that triggers a rebuild. */
  function RebuildThreshold(size: nat, fillPermille: nat): nat
  {
    size * fillPermille / 1000
  }

  /** The first prime of the list at least `n`, if any. */
  function FirstAtLeast(primes: seq<nat>, n: nat): (r: Option<nat>)
    ensures r.Some? ==> r.value >= n && r.value in primes
    ensures r.None? <==> forall j :: 0 <= j < |primes| ==> primes[j] < n
  {
    if primes == [] then None
    else if primes[0] >= n then Some(primes[0])
    else FirstAtLeast(primes[1..], n)
  }

  /** The prime found is the first of the list at least n: it sits at a
      position before which every prime is below n. */
  lemma {:induction false} FirstAtLeastIsFirst(primes: seq<nat>, n: nat)
    requires FirstAtLeast(primes, n).Some?
    ensures exists j :: 0 <= j < |primes| && primes[j] == FirstAtLeast(primes, n).value && AllBelow(primes, j, n)
  {
    if primes[0] < n {
      FirstAtLeastIsFirst(primes[1..], n);
      FirstAtLeastShift(primes, n, FirstAtLeast(primes[1..], n));
    } else {
      assert primes[0] == FirstAtLeast(primes, n).value && AllBelow(primes, 0, n);
    }
  }

  /** Every prime of the list before position j is below n. */
  predicate AllBelow(primes: seq<nat>, j: nat, n: nat)
    requires j <= |primes|
  {
    forall i :: 0 <= i < j ==> primes[i] < n
  }

  /** A first hit in the tail, after a head below n, is a first hit in the
      whole list one position later. */
  lemma FirstAtLeastShift(primes: seq<nat>, n: nat, r: Option<nat>)
    requires primes != [] && primes[0] < n
    requires r.Some? ==> exists j :: 0 <= j < |primes[1..]| && primes[1..][j] == r.value && AllBelow(primes[1..], j, n)
    ensures r.Some? ==> exists j :: 0 <= j < |primes| && primes[j] == r.value && AllBelow(primes, j, n)
  {
    if r.Some? {
      var j :| 0 <= j < |primes[1..]| && primes[1..][j] == r.value && AllBelow(primes[1..], j, n);
      assert primes[j + 1] == r.value;
      forall i | 0 <= i < j + 1 ensures primes[i] < n {
        if i > 0 {
          assert primes[i] == primes[1..][i - 1];
        }
      }
    }
  }

  /** The first-time size covers the occupancy: a ratio at most one means
      1.2 · occupancy / ratio is at least the occupancy. */
  lemma MinNewSizeCovers(occupancy: nat, fillPermille: nat)
    requires 0 < fillPermille <= 1000
    ensures MinNewSize(occupancy, fillPermille) >= occupancy
  {
    var x := 1200 * occupancy;
    var q := x / fillPermille;
    assert x == q * fillPermille + x % fillPermille;
    if q < occupancy {
      CLib.MulMonotone(occupancy, q + 1, fillPermille);
      CLib.MulMonotone(1000, fillPermille, occupancy);
      assert false;
    }
  }

  /** rebuild_table's check: a table sized from the list has a rebuild
      threshold above the occupancy it was sized for, so reinserting that many
      entries triggers no nested rebuild. */
  lemma ThresholdExceedsOccupancy(occupancy: nat, fillPermille: nat, size: nat)
    requires occupancy >= MinHashCount && 0 < fillPermille <= 1000
    requires size >= MinNewSize(occupancy, fillPermille)
    ensures RebuildThreshold(size, fillPermille) > occupancy
  {
    var x := 1200 * occupancy;
    var q := x / fillPermille;
    assert q * fillPermille + x % fillPermille == x;
    CLib.MulMonotone(size, q, fillPermille);
    assert size * fillPermille >= 1000 * (occupancy + 1);
    CLib.DivModUnique(size * fillPermille, 1000, size * fillPermille / 1000, size * fillPermille % 1000);
  }

  class HashtablePrime<K(==), D(==)> {
    /** m_table */
    var table: array<Slot<K, D>>
    /** m_hashSize */
    var hashSize: nat
    /** m_numInserts: every insert since the last build, never decremented */
    var numInserts: nat
    /** m_numDeleted */
    var numDeleted: nat
    /** m_numInsertsRebuild */
    var numInsertsRebuild: nat
    /** m_hashFillRatio, in thousandths */
    var fillPermille: nat
    /** c_prime_list */
    const primes: seq<nat>
    /** the probe number at which each live entry sits */
    ghost var probeOf: seq<nat>

    ghost predicate Valid()
      reads this, table
    {
      table.Length == hashSize && 0 < fillPermille <= 1000 &&
      numInsertsRebuild == RebuildThreshold(hashSize, fillPermille) &&
      TableValid(table[..], probeOf, numInserts, numDeleted)
    }

    /** The occupancy a rebuild sizes the new table for. */
    function RebuildOccupancy(newOccupancy: nat): nat
      reads this, table
    {
      Max(|LiveEntries(table[..])| + MinHashCount, newOccupancy)
    }

    /** The prime list holds a size for a rebuild for `newOccupancy`. */
    ghost predicate CanRebuild(newOccupancy: nat)
      reads this, table
      requires Valid()
    {
      FirstAtLeast(primes, MinNewSize(RebuildOccupancy(newOccupancy), fillPermille)).Some?
    }

    constructor (primes: seq<nat>, fillPermille: nat)
      requires 0 < fillPermille <= 1000
      ensures Valid() && table.Length == 0 && numInserts == 0 && numInsertsRebuild == 0
      ensures this.primes == primes && this.fillPermille == fillPermille
    {
      table := new Slot<K, D>[0];
      hashSize := 0;
      numInserts := 0;
      numDeleted := 0;
      numInsertsRebuild := 0;
      this.fillPermille := fillPermille;
      this.primes := primes;
      probeOf := [];
    }

    /** size(): the number of live entries. */
    method Size() returns (n: int)
      requires Valid()
      ensures n == |LiveEntries(table[..])|
    {
      n := numInserts - numDeleted;
    }

    method Capacity() returns (n: nat)
      ensures n == table.Length
    {
      n := table.Length;
    }

    /** empty(): no live entry. */
    method IsEmpty() returns (r: bool)
      requires Valid()
      ensures r <==> forall i :: 0 <= i < table.Length ==> !table[i].Full?
    {
      r := numInserts - numDeleted == 0;
      LiveEntriesNone(table[..]);
      assert forall i :: 0 <= i < table.Length ==> table[..][i] == table[i];
    }

    /** set_fill_ratio */
    method SetFillRatio(f: nat)
      requires Valid() && 0 < f <= 1000
      modifies this
      ensures Valid() && fillPermille == f && numInsertsRebuild == RebuildThreshold(hashSize, f)
      ensures table == old(table) && hashSize == old(hashSize) && numInserts == old(numInserts) && numDeleted == old(numDeleted)
    {
      fillPermille := f;
      numInsertsRebuild := RebuildThreshold(hashSize, f);
    }

    /** find(hash, key): walks the probe path until an empty slot, skipping
        tombstones, and returns the live entry whose hash and key both match.
        Every matching live entry is reachable, so NULL (or a walk that never
        ends) means there is none.  Before the first build the size is zero
        and the source divides by it (NoTable). */
    method Find(h: nat, k: K) returns (r: Outcome)
      requires Valid()
      ensures r.NoTable? <==> hashSize == 0
      ensures r.At? ==> r.index < table.Length && table[r.index].Full? &&
                        table[r.index].hash == h && table[r.index].key == k
      ensures !r.At? ==> forall i :: 0 <= i < table.Length && table[i].Full? ==> !(table[i].hash == h && table[i].key == k)
      ensures r.Forever? ==> forall m: nat :: !table[ProbeAt(h, m, hashSize)].Empty?
      ensures r.At? ==> exists c :: 0 <= c < 2 * hashSize && ProbeAt(h, c, hashSize) == r.index && PathPasses(h, k, c)
      ensures r.Null? ==> exists c :: 0 <= c < 2 * hashSize && table[ProbeAt(h, c, hashSize)].Empty? && PathPasses(h, k, c)
    {
      if hashSize == 0 {
        return NoTable;
      }
      var p := hashSize;
      var index := h % p;
      var c: nat := 0;
      ProbeStart(h, p);
      while !table[index].Empty?
        invariant c < 2 * p && index == ProbeAt(h, c, p)
        invariant forall m :: 0 <= m < c ==>
                    !table[ProbeAt(h, m, p)].Empty? && !(table[ProbeAt(h, m, p)].Full? && table[ProbeAt(h, m, p)].hash == h && table[ProbeAt(h, m, p)].key == k)
        decreases 2 * p - c
      {
        if table[index].Full? && table[index].hash == h && table[index].key == k {
          assert PathPasses(h, k, c);
          return At(index);
        }
        if c + 1 == 2 * p {
          FindForever(h, k);
          return Forever;
        }
        ProbeStep(h, c + 1, p);
        index := (index + (c + 1)) % p;
        c := c + 1;
      }
      AbsentWhenEmptyReached(table[..], probeOf, h, k, c);
      assert PathPasses(h, k, c);
      return Null;
    }

    /** The first c probes of the path of h are neither free nor a live entry
        with hash h and key k, so a walk goes past them. */
    ghost predicate PathPasses(h: nat, k: K, c: nat)
      reads this, table
      requires table.Length == hashSize > 0
    {
      forall m :: 0 <= m < c ==>
        !table[ProbeAt(h, m, hashSize)].Empty? &&
        !(table[ProbeAt(h, m, hashSize)].Full? && table[ProbeAt(h, m, hashSize)].hash == h && table[ProbeAt(h, m, hashSize)].key == k)
    }

    /** The facts behind `Forever`: no matching entry and no empty slot. */
    lemma FindForever(h: nat, k: K)
      requires Valid() && hashSize > 0
      requires forall m :: 0 <= m < 2 * hashSize - 1 ==>
                 !table[ProbeAt(h, m, hashSize)].Empty? && !(table[ProbeAt(h, m, hashSize)].Full? && table[ProbeAt(h, m, hashSize)].hash == h && table[ProbeAt(h, m, hashSize)].key == k)
      requires !table[ProbeAt(h, 2 * hashSize - 1, hashSize)].Empty?
      requires !(table[ProbeAt(h, 2 * hashSize - 1, hashSize)].Full? && table[ProbeAt(h, 2 * hashSize - 1, hashSize)].hash == h &&
                 table[ProbeAt(h, 2 * hashSize - 1, hashSize)].key == k)
      ensures forall i :: 0 <= i < table.Length && table[i].Full? ==> !(table[i].hash == h && table[i].key == k)
      ensures forall m: nat :: !table[ProbeAt(h, m, hashSize)].Empty?
    {
      var p := hashSize;
      forall i | 0 <= i < table.Length && table[i].Full? && table[i].hash == h ensures table[i].key != k {
        assert ProbeAt(h, probeOf[i], p) == i;
      }
      forall m: nat ensures !table[ProbeAt(h, m, p)].Empty? {
        ProbeMod(h, m, p);
      }
    }

    /** The probe loop of insert: the first slot of the path of `h` that is
        empty or deleted, with its probe number. */
    method ProbeFree(h: nat) returns (r: Outcome, c: nat)
      requires Valid() && hashSize > 0
      ensures r.At? || r.Forever?
      ensures r.At? ==> r.index < table.Length && !table[r.index].Full? && c < 2 * table.Length &&
                        ProbeAt(h, c, table.Length) == r.index &&
                        forall m :: 0 <= m < c ==> table[ProbeAt(h, m, table.Length)].Full?
      ensures r.Forever? ==> forall m: nat :: table[ProbeAt(h, m, hashSize)].Full?
    {
      var p := hashSize;
      var index := h % p;
      c := 0;
      ProbeStart(h, p);
      while table[index].Full?
        invariant c < 2 * p && index == ProbeAt(h, c, p)
        invariant forall m :: 0 <= m < c ==> table[ProbeAt(h, m, p)].Full?
        decreases 2 * p - c
      {
        if c + 1 == 2 * p {
          NeverFree(table[..], h);
          return Forever, c;
        }
        ProbeStep(h, c + 1, p);
        index := (index + (c + 1)) % p;
        c := c + 1;
      }
      return At(index), c;
    }

    /** The probing half of insert: counts the insert and writes the entry
        into the first empty or deleted slot of its probe path. */
    method Place(h: nat, k: K, d: D) returns (r: Outcome)
      requires Valid() && hashSize > 0
      modifies this, table
      ensures Valid() && (r.At? || r.Forever?)
      ensures table == old(table) && hashSize == old(hashSize) && numDeleted == old(numDeleted)
      ensures numInsertsRebuild == old(numInsertsRebuild) && fillPermille == old(fillPermille)
      ensures r.At? ==> r.index < table.Length && !old(table[r.index]).Full? &&
                        table[..] == old(table[..])[r.index := Full(h, k, d)] && numInserts == old(numInserts) + 1
      ensures r.At? ==> LiveEntries(table[..]) == old(LiveEntries(table[..])) + multiset{(h, k, d)}
      ensures r.At? ==> table[r.index] == Full(h, k, d) && |LiveEntries(table[..])| == |old(LiveEntries(table[..]))| + 1
      ensures r.Forever? ==> table[..] == old(table[..]) && numInserts == old(numInserts) &&
                             forall m: nat :: table[ProbeAt(h, m, hashSize)].Full?
    {
      var c;
      r, c := ProbeFree(h);
      if r.Forever? {
        return;
      }
      var index := r.index;
      ghost var before := table[..];
      PlaceKeepsValid(before, probeOf, numInserts, numDeleted, index, c, h, k, d);
      table[index] := Full(h, k, d);
      assert table[..] == before[index := Full(h, k, d)];
      probeOf := probeOf[index := c];
      numInserts := numInserts + 1;
    }

    /** insert(hash, key, data): rebuilds first when the insert count has
        reached the threshold, then places the entry.  An entry with the same
        key is never looked for: the table holds every insert. */
    method Insert(h: nat, k: K, d: D) returns (r: Outcome)
      requires Valid() && CanRebuild(0)
      modifies this, table
      ensures Valid() && (r.At? || r.Forever?) && fillPermille == old(fillPermille)
      ensures r.At? ==> r.index < table.Length && table[r.index] == Full(h, k, d)
      ensures r.At? ==> LiveEntries(table[..]) == old(LiveEntries(table[..])) + multiset{(h, k, d)}
      ensures r.At? ==> |LiveEntries(table[..])| == |old(LiveEntries(table[..]))| + 1
    {
      var ok := RebuildIfDue();
      if !ok {
        return Forever;
      }
      r := Place(h, k, d);
    }

    /** The rebuild insert does first once the insert count has reached the
        threshold. */
    method RebuildIfDue() returns (ok: bool)
      requires Valid() && CanRebuild(0)
      modifies this, table
      ensures Valid() && fillPermille == old(fillPermille) && (table == old(table) || fresh(table))
      ensures ok ==> hashSize > 0 && LiveEntries(table[..]) == old(LiveEntries(table[..]))
    {
      if numInserts >= numInsertsRebuild {
        ok := RebuildTable(0);
      } else {
        ok := true;
      }
    }

    /** erase(entry): the live slot becomes a tombstone keeping its hash;
        m_numInserts is not decremented. */
    method Erase(i: nat)
      requires Valid() && i < table.Length && table[i].Full?
      modifies this, table
      ensures Valid()
      ensures table == old(table) && table[..] == old(table[..])[i := Deleted(old(table[i].hash))]
      ensures numDeleted == old(numDeleted) + 1 && numInserts == old(numInserts)
      ensures LiveEntries(table[..]) + multiset{old((table[i].hash, table[i].key, table[i].data))} == old(LiveEntries(table[..]))
    {
      ghost var before := table[..];
      var v := Deleted(table[i].hash);
      EraseKeepsValid(before, probeOf, numInserts, numDeleted, i);
      table[i] := v;
      assert table[..] == before[i := v];
      numDeleted := numDeleted + 1;
    }

    /** clear(): every slot emptied and the counts reset; the storage stays. */
    method Clear()
      requires Valid()
      modifies this, table
      ensures Valid() && table == old(table) && hashSize == old(hashSize)
      ensures forall i :: 0 <= i < table.Length ==> table[i].Empty?
      ensures numInserts == 0 && numDeleted == 0
      ensures fillPermille == old(fillPermille) && numInsertsRebuild == old(numInsertsRebuild)
    {
      var i := 0;
      while i < table.Length
        invariant 0 <= i <= table.Length
        invariant forall j :: 0 <= j < i ==> table[j].Empty?
        invariant table == old(table) && hashSize == old(hashSize) && unchanged(this)
      {
        table[i] := Empty;
        i := i + 1;
      }
      numInserts := 0;
      numDeleted := 0;
      assert forall i :: 0 <= i < table.Length ==> !table[..][i].Full?;
      LiveEntriesNone(table[..]);
      ReachableNone(table[..], probeOf);
    }

    /** release(): the storage is freed and everything reset. */
    method Release()
      requires Valid()
      modifies this
      ensures Valid() && table.Length == 0 && hashSize == 0
      ensures numInserts == 0 && numDeleted == 0 && numInsertsRebuild == 0
      ensures fillPermille == old(fillPermille)
    {
      table := new Slot<K, D>[0];
      probeOf := [];
      hashSize := 0;
      numInserts := 0;
      numDeleted := 0;
      numInsertsRebuild := 0;
    }

    /** The prime search of rebuild_table: the first prime of the list that
        is at least `n`. */
    method FirstPrimeAtLeast(n: nat) returns (r: Option<nat>)
      ensures r == FirstAtLeast(primes, n)
    {
      var i := 0;
      while i < |primes|
        invariant 0 <= i <= |primes|
        invariant FirstAtLeast(primes, n) == FirstAtLeast(primes[i..], n)
      {
        if primes[i] >= n {
          return Some(primes[i]);
        }
        assert primes[i..][1..] == primes[i + 1..];
        i := i + 1;
      }
      return None;
    }

    /** The first-time branch of rebuild_table: the size is the first prime
        at least ftoi(1.2 · max(occupancy, 16) / fillRatio), or stays as it
        was when the list has none. */
    method BuildFresh(newOccupancy: nat)
      requires 0 < fillPermille <= 1000
      modifies this
      ensures fillPermille == old(fillPermille)
      ensures hashSize == match FirstAtLeast(primes, MinNewSize(Max(newOccupancy, MinHashCount), fillPermille))
                          case Some(p) => p
                          case None => old(hashSize)
      ensures Valid() && fresh(table)
      ensures forall i :: 0 <= i < table.Length ==> table[i].Empty?
      ensures numInserts == 0 && numDeleted == 0
      ensures FirstAtLeast(primes, MinNewSize(Max(newOccupancy, MinHashCount), fillPermille)).Some? ==>
                numInsertsRebuild > Max(newOccupancy, MinHashCount) && hashSize > 0
    {
      var occupancy := Max(newOccupancy, MinHashCount);
      var minNewSize := MinNewSize(occupancy, fillPermille);
      var found := FirstPrimeAtLeast(minNewSize);
      if found.Some? {
        hashSize := found.value;
      }
      table := new Slot<K, D>[hashSize](_ => Empty);
      probeOf := seq(hashSize, _ => 0);
      numInserts := 0;
      numDeleted := 0;
      numInsertsRebuild := RebuildThreshold(hashSize, fillPermille);
      EmptyTableValid(table[..], probeOf);
      if found.Some? {
        ThresholdExceedsOccupancy(occupancy, fillPermille, hashSize);
      }
    }

    /** rebuild_table(newOccupancy): a first build, or a rebuild that sizes a
        fresh table for max(size + 16, newOccupancy) and reinserts only the
        live entries.  `ok` is false only where the source's probing would
        never end. */
    method RebuildTable(newOccupancy: nat) returns (ok: bool)
      requires Valid() && CanRebuild(newOccupancy)
      modifies this
      ensures Valid() && fresh(table) && fillPermille == old(fillPermille) && hashSize > 0
      ensures hashSize == FirstAtLeast(primes, MinNewSize(old(RebuildOccupancy(newOccupancy)), fillPermille)).value
      ensures hashSize >= old(RebuildOccupancy(newOccupancy)) && numInsertsRebuild > old(RebuildOccupancy(newOccupancy))
      ensures numDeleted == 0 && numInserts < numInsertsRebuild
      ensures ok ==> LiveEntries(table[..]) == old(LiveEntries(table[..]))
    {
      ghost var occ := RebuildOccupancy(newOccupancy);
      MinNewSizeCovers(occ, fillPermille);
      if table.Length == 0 {
        assert table[..] == [];
        BuildFresh(newOccupancy);
        ThresholdExceedsOccupancy(occ, fillPermille, hashSize);
        return true;
      }
      var oldTable := table;
      ghost var live := LiveEntries(table[..]);
      var occupancy := numInserts - numDeleted + MinHashCount;
      var target := Max(occupancy, newOccupancy);
      assert target == occ;
      table := new Slot<K, D>[0];
      probeOf := [];
      BuildFresh(target);
      ok := ReinsertAll(oldTable, target);
    }

    /** The rebuild loop: every slot of the old table, in order, through MoveEntry. */
    method ReinsertAll(oldTable: array<Slot<K, D>>, ghost target: nat) returns (ok: bool)
      requires Valid() && hashSize > 0 && numDeleted == 0 && numInsertsRebuild > target && numInserts < numInsertsRebuild
      requires oldTable != table && LiveEntries(table[..]) == multiset{} && |LiveEntries(oldTable[..])| < target
      modifies this, table
      ensures Valid() && table == old(table) && hashSize == old(hashSize) && fillPermille == old(fillPermille)
      ensures numDeleted == 0 && numInsertsRebuild == old(numInsertsRebuild) && numInserts < numInsertsRebuild
      ensures ok ==> LiveEntries(table[..]) == LiveEntries(oldTable[..])
    {
      var i := 0;
      assert oldTable[..][..0] == [];
      while i < oldTable.Length
        invariant 0 <= i <= oldTable.Length
        invariant Valid() && table == old(table) && hashSize == old(hashSize) && fillPermille == old(fillPermille)
        invariant numDeleted == 0 && numInsertsRebuild == old(numInsertsRebuild) && numInserts < numInsertsRebuild
        invariant LiveEntries(table[..]) == LiveEntries(oldTable[..][..i])
      {
        var moved := MoveEntry(oldTable, i, target);
        if !moved {
          return false;
        }
        i := i + 1;
      }
      assert oldTable[..][..oldTable.Length] == oldTable[..];
      return true;
    }

    /** One pass of the rebuild loop: the entry of old slot i, if live, is
        inserted into the new table, whose own rebuild check does not fire. */
    method MoveEntry(oldTable: array<Slot<K, D>>, i: nat, ghost target: nat) returns (ok: bool)
      requires Valid() && hashSize > 0 && numDeleted == 0 && numInsertsRebuild > target
      requires i < oldTable.Length && oldTable != table && |LiveEntries(oldTable[..])| < target
      requires LiveEntries(table[..]) == LiveEntries(oldTable[..][..i])
      modifies this, table
      ensures Valid() && table == old(table) && hashSize == old(hashSize) && fillPermille == old(fillPermille)
      ensures numDeleted == 0 && numInsertsRebuild == old(numInsertsRebuild) && numInserts < numInsertsRebuild
      ensures ok ==> LiveEntries(table[..]) == LiveEntries(oldTable[..][..i + 1])
    {
      LiveEntriesPrefix(oldTable[..], i);
      LiveEntriesSubPrefix(oldTable[..], i + 1);
      assert |LiveEntries(table[..])| == numInserts;
      if oldTable[i].Full? {
        var r := Place(oldTable[i].hash, oldTable[i].key, oldTable[i].data);
        assert |LiveEntries(table[..])| == numInserts;
        return r.At?;
      }
      return true;
    }

    /** reserve(count): rebuilds only when `count` exceeds the capacity. */
    method Reserve(count: nat) returns (ok: bool)
      requires Valid() && CanRebuild(count)
      modifies this
      ensures Valid()
      ensures count <= old(table.Length) ==> ok && table == old(table) && hashSize == old(hashSize)
      ensures table.Length >= count && fillPermille == old(fillPermille)
      ensures ok ==> LiveEntries(table[..]) == old(LiveEntries(table[..]))
    {
      if count <= table.Length {
        return true;
      }
      ok := RebuildTable(count);
    }

    /** tighten(): rebuilds only when there are tombstones. */
    method Tighten() returns (ok: bool)
      requires Valid() && CanRebuild(0)
      modifies this
      ensures Valid() && (ok ==> numDeleted == 0)
      ensures old(numDeleted) == 0 ==> ok && table == old(table)
      ensures ok ==> LiveEntries(table[..]) == old(LiveEntries(table[..]))
    {
      if numDeleted == 0 {
        return true;
      }
      ok := RebuildTable(0);
    }

    /** iterator_next(index): the next live slot after `index`, or the table
        size at the end. */
    method IteratorNext(index: int) returns (r: nat)
      requires index >= -1
      ensures r == NextLive(table[..], index + 1)
    {
      var i := index + 1;
      var size := table.Length;
      if i >= size {
        return size;
      }
      while table[i].Empty? || table[i].Deleted?
        invariant index + 1 <= i < size
        invariant NextLive(table[..], index + 1) == NextLive(table[..], i)
        decreases size - i
      {
        i := i + 1;
        if i >= size {
          return size;
        }
      }
      return i;
    }

    /** head(): the first live slot. */
    method Head() returns (r: nat)
      ensures r == NextLive(table[..], 0)
    {
      r := IteratorNext(-1);
    }

    /** iterator_at(it): NULL out of range; in range the slot must be live. */
    method IteratorAt(it: int) returns (r: Outcome)
      requires 0 <= it < table.Length ==> table[it].Full?
      ensures r == if 0 <= it < table.Length then At(it) else Null
    {
      if it < 0 || it >= table.Length {
        return Null;
      }
      return At(it);
    }
  }

  /** The first live slot at or after `from`, else the table size. */
  function NextLive<K, D>(s: seq<Slot<K, D>>, from: nat): (r: nat)
    ensures from <= |s| ==> from <= r <= |s|
    ensures from > |s| ==> r == |s|
    ensures r < |s| ==> s[r].Full?
    ensures forall j :: from <= j < r && j < |s| ==> !s[j].Full?
    decreases |s| - from
  {
    if from >= |s| then |s|
    else if s[from].Full? then from
    else NextLive(s, from + 1)
  }

  lemma {:induction false} LiveEntriesSubPrefix<K, D>(s: seq<Slot<K, D>>, i: nat)
    requires i <= |s|
    ensures |LiveEntries(s[..i])| <= |LiveEntries(s)|
    decreases |s| - i
  {
    if i < |s| {
      LiveEntriesSubPrefix(s, i + 1);
      LiveEntriesPrefix(s, i);
    } else {
      assert s[..i] == s;
    }
  }
}
