/**
  The copy-on-write `String` of String.cpp.

  A `String` points at a `StringData`, a reference-counted `vector<char>`
  that holds the text and its terminating NUL.  Copies share one
  `StringData`; any write first makes the data private (`Writeable`).
  The ghost set `owners` names the Strings that hold a reference, so the
  refcount can be checked against them, and the ghost flag `live` records
  whether the data has been deleted (its count reached zero).  The count may
  exceed the number of owners: the static empty string is pinned by extra
  references so that it is never deleted.

  The vector is a `seq<char>` that the methods reassign; `memmove`, `memcpy`
  and `vector::resize` are the value functions `MemMove`, `MemCopy` and `Resize`.
*/
module StringCow {
  import opened Wrappers
  import opened CLib
  import opened StrUtil
  import opened StrUtilH

  /** The buffer part of String::IsValid: non-empty, NUL last, no NUL before. */
  predicate WellFormed(v: seq<char>)
  {
    |v| > 0 && v[|v| - 1] == Nul && NulFree(v[..|v| - 1])
  }

  /** A NUL-free text followed by its NUL is a well-formed vector of that text. */
  lemma Terminated(v: seq<char>, s: seq<char>)
    requires v == s + [Nul] && NulFree(s)
    ensures WellFormed(v) && v[..|v| - 1] == s
  {
    assert v[..|v| - 1] == s;
  }

  /** Text `x` spliced into a terminated vector at `at` (before its NUL). */
  lemma Spliced(v: seq<char>, s: seq<char>, at: nat, x: seq<char>)
    requires v == s + [Nul] && NulFree(s) && at <= |s|
    ensures v[..at] + x + v[at..] == s[..at] + x + s[at..] + [Nul]
    ensures var w := s[..at] + x + s[at..];
            (WellFormed(w + [Nul]) <==> NulFree(x)) && (w + [Nul])[..|w|] == w
  {
    assert v[..at] == s[..at] && v[at..] == s[at..] + [Nul];
    var w := s[..at] + x + s[at..];
    assert (w + [Nul])[..|w|] == w;
    if !NulFree(x) {
      var k :| 0 <= k < |x| && x[k] == Nul;
      assert w[at + k] == Nul;
    }
  }

  // ---- vector and memory primitives ----

  function Zeros(n: nat): (z: seq<char>)
  {
    seq(n, _ => Nul)
  }

  /** vector::resize: cut, or extend with zero chars. */
  function Resize(v: seq<char>, n: nat): seq<char>
  {
    if n <= |v| then v[..n] else v + Zeros(n - |v|)
  }

  /** memmove(b + dst, b + src, n). */
  function MemMove(b: seq<char>, dst: nat, src: nat, n: nat): seq<char>
    requires src + n <= |b| && dst + n <= |b|
  {
    b[..dst] + b[src..src + n] + b[dst + n..]
  }

  /** memcpy(b + dst, p, |p|); strcpy is a MemCopy of the text and its NUL. */
  function MemCopy(b: seq<char>, dst: nat, p: seq<char>): seq<char>
    requires dst + |p| <= |b|
  {
    b[..dst] + p + b[dst + |p|..]
  }

  // ---- Insert(at, const char*) ----

  /** The vector after Insert(at, p) as written: resize by |p|, slide the
      tail up by |p|, then strcpy the text to `buf + at + old_len`.  None
      when that strcpy writes past the end of the vector. */
  function InsertAsWritten(s: seq<char>, at: nat, p: seq<char>): (r: Option<seq<char>>)
    requires at <= |s|
    ensures r.Some? <==> at == 0
  {
    var b := MemMove(Resize(s + [Nul], |s| + 1 + |p|), at + |p|, at, |s| - at);
    if at + |s| + |p| + 1 <= |b| then Some(MemCopy(b, at + |s|, p + [Nul])) else None
  }

  /** The vector after resizing and sliding up the tail of `v` by |p|: the
      old text with |p| chars reserved at `at`, the first |p| of which
      may hold anything. */
  lemma SlidUp(v: seq<char>, at: nat, p: seq<char>)
    requires WellFormed(v) && at < |v|
    ensures var b := Resize(v, |v| + |p|);
            |p| + |v| - 1 - at <= |b|
            && MemMove(b, at + |p|, at, |v| - 1 - at)[at + |p|..] == v[at..]
            && MemMove(b, at + |p|, at, |v| - 1 - at)[..at] == v[..at]
  {
    var b := Resize(v, |v| + |p|);
    assert b == v + Zeros(|p|);
    assert b[|b| - 1] == Nul;
    var m := MemMove(b, at + |p|, at, |v| - 1 - at);
    assert m[at + |p|..] == v[at..|v| - 1] + [b[|b| - 1]];
  }

  /** With the text copied to `buf + at` instead, the vector holds the old
      text with `p` inserted at `at`. */
  function InsertBuffer(v: seq<char>, at: nat, p: seq<char>): (r: seq<char>)
    requires WellFormed(v) && at < |v| && NulFree(p)
    ensures WellFormed(r) && r[..|r| - 1] == v[..at] + p + v[at..|v| - 1]
  {
    var m := MemMove(Resize(v, |v| + |p|), at + |p|, at, |v| - 1 - at);
    SlidUp(v, at, p);
    var r := MemCopy(m, at, p);
    assert r == m[..at] + p + m[at + |p|..];
    Spliced(v, v[..|v| - 1], at, p);
    assert v[..|v| - 1][..at] == v[..at] && v[..|v| - 1][at..] == v[at..|v| - 1];
    r
  }

  /** Insert(at, char c): push a NUL, slide the tail up by one, store `c`. */
  function InsertCharBuffer(v: seq<char>, at: nat, c: char): (r: seq<char>)
    requires WellFormed(v) && at < |v|
    ensures |r| == |v| + 1 && r[|r| - 1] == Nul && r[..|r| - 1] == v[..at] + [c] + v[at..|v| - 1]
    ensures WellFormed(r) <==> c != Nul
  {
    var m := MemMove(v + [Nul], at + 1, at, |v| - 1 - at);
    assert m[..at] == v[..at] && m[at + 1..] == v[at..];
    var r := m[at := c];
    assert r == v[..at] + [c] + v[at..];
    Spliced(v, v[..|v| - 1], at, [c]);
    assert v[..|v| - 1][..at] == v[..at] && v[..|v| - 1][at..] == v[at..|v| - 1];
    r
  }

  /** Both insertions read on the text a vector holds. */
  lemma InsertedText(v: seq<char>, s: seq<char>, at: nat, p: seq<char>, c: char)
    requires v == s + [Nul] && NulFree(s) && at <= |s| && NulFree(p)
    ensures InsertBuffer(v, at, p)[..|s| + |p|] == s[..at] + p + s[at..]
    ensures InsertCharBuffer(v, at, c) == s[..at] + [c] + s[at..] + [Nul]
    ensures WellFormed(InsertCharBuffer(v, at, c)) <==> c != Nul
  {
    assert v[..at] == s[..at] && v[at..|v| - 1] == s[at..];
    var q := InsertCharBuffer(v, at, c);
    assert q == q[..|q| - 1] + [q[|q| - 1]];
  }

  /** Any insertion away from the start writes past the end of the vector. */
  lemma InsertAsWrittenOverruns(s: seq<char>, at: nat, p: seq<char>)
    requires 0 < at <= |s|
    ensures InsertAsWritten(s, at, p) == None
  {
  }

  /** At the start it writes inside the vector, but "ab" with "X" inserted
      at 0 reads "aaX", not "Xab". */
  lemma InsertAsWrittenAtStart()
    ensures InsertAsWritten("ab", 0, "X") == Some("aaX" + [Nul])
    ensures InsertBuffer("ab" + [Nul], 0, "X")[..3] == "Xab"
  {
    var s, p := "ab", "X";
    var b0 := Resize(s + [Nul], |s| + 1 + |p|);
    assert Zeros(1) == [Nul];
    assert b0 == ['a', 'b', Nul, Nul];
    var b := MemMove(b0, 1, 0, 2);
    assert b == ['a', 'a', 'b', Nul];
    assert MemCopy(b, 2, p + [Nul]) == ['a', 'a', 'X', Nul] == "aaX" + [Nul];
    assert InsertAsWritten(s, 0, p) == Some(MemCopy(b, 2, p + [Nul]));
    InsertedText(s + [Nul], s, 0, p, 'X');
  }

  /** Truncate's buffer: cut to `n + 1` entries and terminate at `n`; when
      no NUL comes before `n` that leaves exactly the first `n` characters. */
  function TruncBuffer(v: seq<char>, n: nat): (r: seq<char>)
    requires n < |v| || n == |v|
    ensures |r| == n + 1 && r[n] == Nul && r[..n] == v[..n]
    ensures NulFree(v[..n]) ==> WellFormed(r)
  {
    Resize(v, n + 1)[n := Nul]
  }

  /** SetChar's buffer for a character that is not NUL: one entry
      overwritten, the text keeps its length and its terminator. */
  function SetCharBuffer(v: seq<char>, i: nat, c: char): (r: seq<char>)
    requires WellFormed(v) && i < |v| - 1 && c != Nul
    ensures WellFormed(r) && r[..|r| - 1] == v[..|v| - 1][i := c]
  {
    assert v[i := c][..|v| - 1] == v[..|v| - 1][i := c];
    v[i := c]
  }

  // ---- strcmp as an order ----

  /** Lexicographic order on chars: a proper prefix comes first. */
  predicate LexLess(a: seq<char>, b: seq<char>)
    decreases |a|
  {
    if a == [] then b != []
    else if b == [] then false
    else if a[0] != b[0] then a[0] < b[0]
    else LexLess(a[1..], b[1..])
  }

  /** Each char passed through `f`. */
  function Mapped(f: char -> char, s: seq<char>): (r: seq<char>)
    ensures |r| == |s| && forall k :: 0 <= k < |s| ==> r[k] == f(s[k])
  {
    seq(|s|, k requires 0 <= k < |s| => f(s[k]))
  }

  lemma {:induction false} CompareFromLess(a: seq<char>, b: seq<char>, f: char -> char, i: nat)
    requires i <= |a| && i <= |b| && NulFree(a) && NulFree(b) && KeepsNonNul(f)
    ensures CompareFrom(a, b, f, false, i) < 0 <==> LexLess(Mapped(f, a)[i..], Mapped(f, b)[i..])
    decreases |a| - i
  {
    var ma, mb := Mapped(f, a)[i..], Mapped(f, b)[i..];
    if i < |a| && i < |b| {
      assert ma[0] == f(a[i]) && mb[0] == f(b[i]);
      if f(a[i]) == f(b[i]) {
        assert ma[1..] == Mapped(f, a)[i + 1..] && mb[1..] == Mapped(f, b)[i + 1..];
        CompareFromLess(a, b, f, i + 1);
      }
    } else if i < |a| {
      assert f(a[i]) != Nul;
    } else if i < |b| {
      assert f(b[i]) != Nul;
    }
  }

  /** An unsigned comparison through `f` is below zero exactly when the
      mapped strings are in lexicographic order. */
  lemma CompareLess(a: seq<char>, b: seq<char>, f: char -> char)
    requires NulFree(a) && NulFree(b) && KeepsNonNul(f)
    ensures Compare(a, b, f, false) < 0 <==> LexLess(Mapped(f, a), Mapped(f, b))
  {
    CompareFromLess(a, b, f, 0);
    assert Mapped(f, a)[0..] == Mapped(f, a) && Mapped(f, b)[0..] == Mapped(f, b);
  }

  /** strcmp(a, b) < 0 is lexicographic order. */
  lemma StrcmpLess(a: seq<char>, b: seq<char>)
    requires NulFree(a) && NulFree(b)
    ensures Compare(a, b, Identity, false) < 0 <==> LexLess(a, b)
  {
    CompareLess(a, b, Identity);
    assert Mapped(Identity, a) == a && Mapped(Identity, b) == b;
  }

  lemma {:induction false} LexLessIrreflexive(a: seq<char>)
    ensures !LexLess(a, a)
    decreases |a|
  {
    if a != [] {
      LexLessIrreflexive(a[1..]);
    }
  }

  /** Exactly one of a < b, a == b, b < a: operator< is a strict total order. */
  lemma {:induction false} LexTrichotomy(a: seq<char>, b: seq<char>)
    ensures LexLess(a, b) || a == b || LexLess(b, a)
    ensures !(LexLess(a, b) && LexLess(b, a))
    ensures LexLess(a, b) ==> a != b
    decreases |a|
  {
    if a != [] && b != [] {
      if a[0] == b[0] {
        LexTrichotomy(a[1..], b[1..]);
        if a[1..] == b[1..] {
          assert a == [a[0]] + a[1..] && b == [b[0]] + b[1..];
        }
      }
    }
  }

  lemma {:induction false} LexLessTransitive(a: seq<char>, b: seq<char>, c: seq<char>)
    requires LexLess(a, b) && LexLess(b, c)
    ensures LexLess(a, c)
    decreases |a|
  {
    if a != [] && a[0] == b[0] && b[0] == c[0] {
      LexLessTransitive(a[1..], b[1..], c[1..]);
    }
  }

  /** operator<(const char*, const String&). */
  function CStrLess(p: seq<char>, str: String): (r: bool)
    reads str, str.data
    requires NulFree(p) && WellFormed(str.data.vec)
    ensures r <==> LexLess(p, str.Contents())
  {
    StrcmpLess(p, str.Contents());
    Compare(p, str.Contents(), Identity, false) < 0
  }

  /** LessI: stricmp below zero, i.e. order after folding to lower case. */
  function LessI(s1: String, s2: String): (r: bool)
    reads s1, s1.data, s2, s2.data
    requires WellFormed(s1.data.vec) && WellFormed(s2.data.vec)
    ensures r <==> LexLess(Mapped(ToLower, s1.Contents()), Mapped(ToLower, s2.Contents()))
  {
    CompareLess(s1.Contents(), s2.Contents(), ToLower);
    Compare(s1.Contents(), s2.Contents(), ToLower, false) < 0
  }

  /** EqualsI: strisame, equality after folding to lower case. */
  function EqualsI(s1: String, s2: String): (r: bool)
    reads s1, s1.data, s2, s2.data
    requires WellFormed(s1.data.vec) && WellFormed(s2.data.vec)
    ensures r <==> Mapped(ToLower, s1.Contents()) == Mapped(ToLower, s2.Contents())
  {
    var r := Strisame(s1.Contents(), s2.Contents());
    assert r ==> Mapped(ToLower, s1.Contents()) == Mapped(ToLower, s2.Contents());
    r
  }

  // ---- FindReplace ----

  /** FindReplace on the text: scanning left to right, each place where
      `from` matches case-insensitively is replaced by `to`, and the scan
      resumes after the replacement. */
  function ReplacedI(s: seq<char>, from: seq<char>, to: seq<char>): seq<char>
    requires |from| > 0
    decreases |s|
  {
    if s == [] then []
    else if IPrefix(from, s) then to + ReplacedI(s[|from|..], from, to)
    else [s[0]] + ReplacedI(s[1..], from, to)
  }

  /** The number of replacements that scan makes. */
  function MatchesI(s: seq<char>, from: seq<char>): nat
    requires |from| > 0
    decreases |s|
  {
    if s == [] then 0
    else if IPrefix(from, s) then 1 + MatchesI(s[|from|..], from)
    else MatchesI(s[1..], from)
  }

  /** The length the code asserts: each replacement changes it by |to| - |from|. */
  lemma {:induction false} ReplacedLength(s: seq<char>, from: seq<char>, to: seq<char>)
    requires |from| > 0
    ensures |ReplacedI(s, from, to)| == |s| + MatchesI(s, from) * (|to| - |from|)
    decreases |s|
  {
    if s != [] {
      if IPrefix(from, s) {
        var t := s[|from|..];
        ReplacedLength(t, from, to);
        assert |ReplacedI(s, from, to)| == |to| + |ReplacedI(t, from, to)|;
        assert MatchesI(s, from) == MatchesI(t, from) + 1;
        LengthStep(|s|, |t|, |from|, |to|, |ReplacedI(t, from, to)|, MatchesI(t, from));
      } else {
        ReplacedLength(s[1..], from, to);
      }
    }
  }

  lemma LengthStep(ls: int, lt: int, a: int, b: int, r: int, m: int)
    requires ls == lt + a && r == lt + m * (b - a)
    ensures b + r == ls + (m + 1) * (b - a)
  {
  }

  /** Without a match anywhere the text is unchanged and nothing is counted. */
  lemma {:induction false} ReplacedNoMatch(s: seq<char>, from: seq<char>, to: seq<char>)
    requires |from| > 0
    requires forall i :: 0 <= i < |s| ==> !IPrefix(from, s[i..])
    ensures ReplacedI(s, from, to) == s && MatchesI(s, from) == 0
    decreases |s|
  {
    if s != [] {
      assert s[0..] == s;
      assert !IPrefix(from, s);
      forall i | 0 <= i < |s[1..]|
        ensures !IPrefix(from, s[1..][i..])
      {
        assert s[1..][i..] == s[i + 1..];
      }
      ReplacedNoMatch(s[1..], from, to);
    }
  }

  /** Matching ignores case: any `from2` that agrees with `from` after
      ToUpper gives the same text and count. */
  lemma {:induction false} ReplacedIgnoresCase(s: seq<char>, from: seq<char>, from2: seq<char>, to: seq<char>)
    requires |from| > 0 && |from2| == |from|
    requires forall k :: 0 <= k < |from| ==> ToUpper(from[k]) == ToUpper(from2[k])
    ensures ReplacedI(s, from, to) == ReplacedI(s, from2, to) && MatchesI(s, from) == MatchesI(s, from2)
    decreases |s|
  {
    if s != [] {
      assert IPrefix(from, s) <==> IPrefix(from2, s);
      if IPrefix(from, s) {
        ReplacedIgnoresCase(s[|from|..], from, from2, to);
      } else {
        ReplacedIgnoresCase(s[1..], from, from2, to);
      }
    }
  }

  /** One replacement when `to` is longer: grow the vector, slide the tail
      up, copy `to` in. */
  lemma GrowStep(v: seq<char>, at: nat, n: nat, from: seq<char>, to: seq<char>)
    requires |v| == n + 1 && v[n] == Nul && at + |from| <= n && |to| > |from|
    ensures var add := |to| - |from|;
            var b := Resize(v, n + add + 1);
            at + |to| <= |b| && n <= |b| - add
            && MemCopy(MemMove(b, at + add, at, n - at), at, to) == v[..at] + to + v[at + |from|..n] + [Nul]
  {
    var add := |to| - |from|;
    var b := Resize(v, n + add + 1);
    assert b == v + Zeros(add);
    var m := MemMove(b, at + add, at, n - at);
    assert m[..at] == v[..at];
    assert m[at + add..] == v[at..n] + [Nul];
    var w := MemCopy(m, at, to);
    assert w == m[..at] + to + m[at + |to|..];
    assert m[at + |to|..] == (v[at..n] + [Nul])[|from|..];
  }

  /** One replacement when `to` is not longer: copy `to` in, slide the tail
      (with its NUL) down; the vector keeps its size. */
  lemma ShrinkStep(v: seq<char>, at: nat, n: nat, from: seq<char>, to: seq<char>)
    requires n < |v| && v[n] == Nul && at + |from| <= n && |to| <= |from|
    ensures at + |to| <= |v| && n + |to| - |from| + 1 <= |v|
    ensures var w := MemMove(MemCopy(v, at, to), at + |to|, at + |from|, n - at - |from| + 1);
            |w| == |v| && w[..n + |to| - |from| + 1] == v[..at] + to + v[at + |from|..n] + [Nul]
  {
    var c := MemCopy(v, at, to);
    forall k | at + |from| <= k < n + 1
      ensures c[k] == v[k]
    {
      assert c[k] == v[at + |to|..][k - at - |to|];
    }
    assert c[at + |from|..n + 1] == v[at + |from|..n + 1] == v[at + |from|..n] + [Nul];
    var w := MemMove(c, at + |to|, at + |from|, n - at - |from| + 1);
    assert w[..n + |to| - |from| + 1] == c[..at + |to|] + c[at + |from|..n + 1];
  }

  /** The buffer after one replacement when `to` is longer than `from`:
      grown by the difference, the tail slid up, `to` copied in. */
  function GrowAt(v: seq<char>, at: nat, n: nat, from: seq<char>, to: seq<char>): (w: seq<char>)
    requires |v| == n + 1 && v[n] == Nul && at + |from| <= n && |to| > |from|
    ensures w == v[..at] + to + v[at + |from|..n] + [Nul]
  {
    GrowStep(v, at, n, from, to);
    MemCopy(MemMove(Resize(v, n + |to| - |from| + 1), at + |to| - |from|, at, n - at), at, to)
  }

  /** The buffer after one replacement when `to` is not longer: `to`
      copied in, the tail (with its NUL) slid down, the size kept. */
  function ShrinkAt(v: seq<char>, at: nat, n: nat, from: seq<char>, to: seq<char>): (w: seq<char>)
    requires n < |v| && v[n] == Nul && at + |from| <= n && |to| <= |from|
    ensures |w| == |v| && w[..n + |to| - |from| + 1] == v[..at] + to + v[at + |from|..n] + [Nul]
  {
    ShrinkStep(v, at, n, from, to);
    MemMove(MemCopy(v, at, to), at + |to|, at + |from|, n - at - |from| + 1)
  }

  /** The state of the scan: the buffer holds `n` characters and a NUL
      (exactly that when the buffer grows on each hit), the part before
      `ptr` is final, and finishing the scan from `ptr` gives the text and
      count the whole scan promises. */
  ghost predicate Scanning(v: seq<char>, n: nat, ptr: nat, count: nat, s0: seq<char>, from: seq<char>, to: seq<char>)
    requires |from| > 0
  {
    ptr <= n < |v| && v[n] == Nul && NulFree(v[..n])
    && (|to| > |from| ==> |v| == n + 1)
    && v[..ptr] + ReplacedI(v[ptr..n], from, to) == ReplacedI(s0, from, to)
    && count + MatchesI(v[ptr..n], from) == MatchesI(s0, from)
  }

  /** A replacement at `at` keeps the scan state: the new buffer `w` holds
      the text before `at`, then `to`, then the rest of the old text, and
      the scan goes on after `to`. */
  lemma HitStep(v: seq<char>, w: seq<char>, at: nat, n: nat, m: nat, count: nat, s0: seq<char>, from: seq<char>, to: seq<char>)
    requires |from| > 0 && NulFree(to) && Scanning(v, n, at, count, s0, from, to)
    requires at + |from| <= n && IPrefix(from, v[at..n]) && m == n + |to| - |from|
    requires m < |w| && (|to| > |from| ==> |w| == m + 1)
    requires w[..m + 1] == v[..at] + to + v[at + |from|..n] + [Nul]
    ensures Scanning(w, m, at + |to|, count + 1, s0, from, to)
  {
    var rest := v[at + |from|..n];
    assert w[..m] == w[..m + 1][..m] == v[..at] + to + rest;
    assert w[m] == w[..m + 1][m] == Nul;
    assert w[..at + |to|] == w[..m][..at + |to|] == v[..at] + to;
    assert w[at + |to|..m] == w[..m][at + |to|..] == rest;
    assert v[at..n][|from|..] == rest;
    assert ReplacedI(v[at..n], from, to) == to + ReplacedI(rest, from, to);
    assert NulFree(v[..at]) && NulFree(rest) by {
      assert v[..at] == v[..n][..at] && rest == v[..n][at + |from|..];
    }
  }

  /** A step past a position where `from` does not match keeps it too. */
  lemma MissStep(v: seq<char>, ptr: nat, n: nat, count: nat, s0: seq<char>, from: seq<char>, to: seq<char>)
    requires |from| > 0 && Scanning(v, n, ptr, count, s0, from, to)
    requires ptr < n && !IPrefix(from, v[ptr..n])
    ensures Scanning(v, n, ptr + 1, count, s0, from, to)
  {
    assert v[ptr..n][1..] == v[ptr + 1..n];
    assert v[..ptr + 1] == v[..ptr] + [v[ptr..n][0]];
  }

  lemma HitNext(v: seq<char>, w: seq<char>, at: nat, n: nat, m: nat, count: nat, s0: seq<char>, from: seq<char>, to: seq<char>)
    requires |from| > 0 && NulFree(to) && Scanning(v, n, at, count, s0, from, to)
    requires at + |from| <= n && IPrefix(from, v[at..n]) && m == n + |to| - |from|
    requires w == if |to| > |from| then GrowAt(v, at, n, from, to) else ShrinkAt(v, at, n, from, to)
    ensures Scanning(w, m, at + |to|, count + 1, s0, from, to)
  {
    if |to| > |from| {
      assert w[..m + 1] == w;
    }
    HitStep(v, w, at, n, m, count, s0, from, to);
  }

  /** One replacement at `at`: the buffer grows first when `to` is the
      longer, `to` is copied over `from` and the tail slides to meet it. */
  method ReplaceOne(v: seq<char>, at: nat, n: nat, ghost count: nat, ghost s0: seq<char>, from: seq<char>, to: seq<char>)
    returns (w: seq<char>, m: nat)
    requires |from| > 0 && NulFree(to) && Scanning(v, n, at, count, s0, from, to)
    requires at + |from| <= n && IPrefix(from, v[at..n])
    ensures m == n + |to| - |from| && Scanning(w, m, at + |to|, count + 1, s0, from, to)
  {
    var addLen := |to| - |from|;
    if addLen > 0 {
      w := GrowAt(v, at, n, from, to);
    } else {
      w := ShrinkAt(v, at, n, from, to);
    }
    m := n + addLen;
    HitNext(v, w, at, n, m, count, s0, from, to);
  }

  /** The scanning loop of FindReplace on the buffer: `v0` holds `n0`
      characters and then a NUL. Each place where `from` matches is
      rewritten in place, the buffer growing first when `to` is the longer;
      the result holds the replaced text followed by a NUL, and `count`
      replacements were made. */
  method ReplaceScan(v0: seq<char>, n0: nat, from: seq<char>, to: seq<char>) returns (v: seq<char>, n: nat, count: nat)
    requires n0 < |v0| && v0[n0] == Nul && NulFree(v0[..n0])
    requires |from| > 0 && NulFree(from) && NulFree(to)
    requires |to| > |from| ==> |v0| == n0 + 1
    ensures n < |v| && v[n] == Nul && NulFree(v[..n])
    ensures v[..n] == ReplacedI(v0[..n0], from, to)
    ensures count == MatchesI(v0[..n0], from)
  {
    ghost var s0 := v0[..n0];
    var addLen := |to| - |from|;
    v, n, count := v0, n0, 0;
    var ptr: nat := 0;
    assert v[..ptr] == [] && v[ptr..n] == s0;
    while v[ptr] != Nul
      invariant Scanning(v, n, ptr, count, s0, from, to)
      decreases n - ptr
    {
      assert ptr < n && NulFree(v[ptr..n]) by {
        assert v[ptr..n] == v[..n][ptr..];
      }
      var hit := Stripresame(v[ptr..n], from);
      if hit {
        var at := ptr;
        v, n := ReplaceOne(v, at, n, count, s0, from, to);
        count := count + 1;
        ptr := at + |to|;
      } else {
        MissStep(v, ptr, n, count, s0, from, to);
        ptr := ptr + 1;
      }
    }
    assert ptr == n && v[ptr..n] == [];
  }

  // ---- the refcounted data ----

  class StringData {
    var vec: seq<char>
    var refCount: int
    ghost var owners: set<String>
    ghost var live: bool

    /** Alive, counted at least once per owner, and every owner points here. */
    ghost predicate Counted()
      reads this, owners
    {
      live && refCount >= |owners| && forall s {:trigger s in owners} :: s in owners ==> s.data == this
    }

    /** StringData(): one reference, holding `v`. */
    constructor (v: seq<char>)
      ensures vec == v && refCount == 1 && owners == {} && live
    {
      vec := v;
      refCount := 1;
      owners := {};
      live := true;
    }

    /** StringData(eCOW, pOld): a private copy of `src`'s vector, dropping
        one reference to `src`. */
    constructor Cow(src: StringData)
      requires src.live && src.refCount >= 1
      modifies src
      ensures vec == old(src.vec) && refCount == 1 && owners == {} && live
      ensures src.vec == old(src.vec) && src.owners == old(src.owners)
      ensures src.refCount == old(src.refCount) - 1 && (src.live <==> src.refCount > 0)
    {
      vec := src.vec;
      refCount := 1;
      owners := {};
      live := true;
      new;
      src.FreeRef();
    }

    method TakeRef()
      requires live
      modifies this
      ensures refCount == old(refCount) + 1
      ensures vec == old(vec) && owners == old(owners) && live
    {
      refCount := refCount + 1;
    }

    /** Ghost bookkeeping: the reference held by `a` now belongs to `b`. */
    ghost method Handover(a: String, b: String)
      requires a in owners && b !in owners
      modifies this
      ensures owners == old(owners) - {a} + {b} && |owners| == |old(owners)|
      ensures vec == old(vec) && refCount == old(refCount) && live == old(live)
    {
      assert |owners - {a}| == |owners| - 1;
      owners := owners - {a} + {b};
    }

    /** Dropping the last reference deletes the data. */
    method FreeRef()
      requires live && refCount >= 1
      modifies this
      ensures refCount == old(refCount) - 1 && (live <==> refCount > 0)
      ensures vec == old(vec) && owners == old(owners)
    {
      refCount := refCount - 1;
      if refCount == 0 {
        live := false;
      }
    }
  }

  /** A set holding `x` and no more than one element is `{x}`. */
  lemma OnlyOwner(owners: set<String>, x: String)
    requires x in owners && |owners| <= 1
    ensures owners == {x}
  {
    assert |owners - {x}| == |owners| - 1;
    assert owners - {x} == {};
  }

  /** The strings in `others` still share `d`, which still counts them and
      still holds `v`: what they read has not changed.  Vacuous when nobody
      else held the data. */
  ghost predicate CopiesUnchanged(d: StringData, v: seq<char>, others: set<String>)
    reads d, d.owners, others
  {
    others != {} ==>
      d.vec == v && d.Counted() && forall t :: t in others ==> t.data == d && t in d.owners
  }

  class String {
    var data: StringData

    /** This string holds a counted reference to live data. */
    ghost predicate Held()
      reads this, data, data.owners
    {
      this in data.owners && data.Counted()
    }

    /** String::IsValid. */
    ghost predicate Valid()
      reads this, data, data.owners
    {
      Held() && WellFormed(data.vec)
    }

    /** The only reference to its data, as after Writeable. */
    ghost predicate Sole()
      reads this, data, data.owners
    {
      Held() && data.refCount == 1 && data.owners == {this}
    }

    /** CStr() read as a string. */
    function Contents(): (s: seq<char>)
      reads this, data
      requires WellFormed(data.vec)
    {
      data.vec[..|data.vec| - 1]
    }

    /** Length(): the vector size less one, which is also strlen. */
    function Length(): (n: nat)
      reads this, data
      requires WellFormed(data.vec)
      ensures n == |Contents()|
    {
      |data.vec| - 1
    }

    // ---- constructors ----

    /** String(const char*): a private copy of the text. */
    constructor FromCStr(p: seq<char>)
      requires NulFree(p)
      ensures Sole() && Valid() && fresh(data) && Contents() == p
    {
      data := new StringData(MemCopy(Zeros(|p| + 1), 0, p + [Nul]));
      new;
      data.owners := {this};
    }

    /** String(const String&): shares the data and takes a reference. */
    constructor Copy(str: String)
      requires str.Held()
      modifies str.data
      ensures data == str.data && Held() && str.Held()
      ensures data.vec == old(str.data.vec) && data.refCount == old(str.data.refCount) + 1
      ensures data.owners == old(str.data.owners) + {this}
    {
      data := str.data;
      new;
      data.TakeRef();
      data.owners := data.owners + {this};
    }

    /** String(eEmpty), the static empty string: the data's count is pinned
        above its owners so that it is never deleted and never written. */
    constructor StaticEmpty()
      ensures Valid() && Contents() == [] && data.refCount == 3 && data.owners == {this}
    {
      data := new StringData([Nul]);
      new;
      data.refCount := 2;
      data.TakeRef();
      data.owners := {this};
    }

    /** String(eSubString, p, len): copies `len` chars, which are not checked
        for NULs; the result is valid only when they hold none. */
    constructor SubString(mem: seq<char>, len: nat)
      requires len <= |mem|
      ensures Held() && data.vec == mem[..len] + [Nul]
      ensures Valid() <==> NulFree(mem[..len])
    {
      data := new StringData(mem[..len] + [Nul]);
      new;
      data.owners := {this};
      assert data.vec[..|data.vec| - 1] == mem[..len];
    }

    /** String(eConcat, p1, p2). */
    constructor Concat(p1: seq<char>, p2: seq<char>)
      requires NulFree(p1) && NulFree(p2)
      ensures Sole() && Valid() && Contents() == p1 + p2
    {
      var b := Zeros(|p1| + |p2| + 1);
      b := MemCopy(b, 0, p1);
      b := MemCopy(b, |p1|, p2);
      b := b[|b| - 1 := Nul];
      assert b == p1 + p2 + [Nul];
      data := new StringData(b);
      new;
      data.owners := {this};
    }

    /** ~String: drops this string's reference. */
    method Dispose()
      requires Held()
      modifies data
      ensures data.owners == old(data.owners) - {this} && data.vec == old(data.vec)
      ensures data.refCount == old(data.refCount) - 1 && (data.live <==> data.refCount > 0)
      ensures CopiesUnchanged(data, old(data.vec), data.owners)
    {
      data.FreeRef();
      data.owners := data.owners - {this};
      assert |data.owners| == |old(data.owners)| - 1;
    }

    // ---- Writeable ----

    /** Writeable: breaks sharing whenever the count is not 1, so the text
        another copy reads is never written. */
    method Writeable()
      requires Held()
      modifies this, data
      ensures Sole() && data.vec == old(data.vec)
      ensures old(data.refCount) == 1 <==> data == old(data)
      ensures data == old(data) ==> old(data.owners) == {this}
      ensures data != old(data) ==> fresh(data) && old(data).refCount == old(data.refCount) - 1
                                    && old(data).owners == old(data.owners) - {this}
      ensures CopiesUnchanged(old(data), old(data.vec), old(data.owners) - {this})
    {
      if data.refCount != 1 {
        var oldData := data;
        assert |oldData.owners - {this}| == |oldData.owners| - 1;
        data := new StringData.Cow(oldData);
        oldData.owners := oldData.owners - {this};
        data.owners := {this};
      } else {
        OnlyOwner(data.owners, this);
      }
    }

    /** WriteableEmpty: like Writeable, but a shared vector is dropped
        rather than copied, and the private one holds just a NUL. */
    method WriteableEmpty()
      requires Held()
      modifies this, data
      ensures Sole()
      ensures old(data.refCount) == 1 ==> data == old(data) && data.vec == old(data.vec)
      ensures old(data.refCount) != 1 ==> fresh(data) && data.vec == [Nul]
                                          && old(data).refCount == old(data.refCount) - 1
      ensures CopiesUnchanged(old(data), old(data.vec), old(data.owners) - {this})
    {
      if data.refCount != 1 {
        var oldData := data;
        assert |oldData.owners - {this}| == |oldData.owners| - 1;
        oldData.FreeRef();
        oldData.owners := oldData.owners - {this};
        data := new StringData([Nul]);
        data.owners := {this};
      } else {
        OnlyOwner(data.owners, this);
      }
    }

    // ---- assignment ----

    /** operator=: takes the new reference before dropping the old one, so
        assigning a string to itself (or to a copy of itself) never deletes
        the data it keeps. */
    method Assign(str: String)
      requires Valid() && str.Valid()
      modifies this, data, str.data
      ensures Valid() && data == old(str.data) && data.vec == old(str.data.vec)
      ensures data.owners == old(str.data.owners) + {this}
      ensures old(data) == old(str.data) ==> data.refCount == old(data.refCount)
      ensures old(data) != old(str.data) ==>
                data.refCount == old(str.data.refCount) + 1
                && old(data).refCount == old(data.refCount) - 1
                && (old(data).live <==> old(data.refCount) > 1)
                && CopiesUnchanged(old(data), old(data.vec), old(data.owners) - {this})
    {
      var oldData, newData := data, str.data;
      newData.TakeRef();
      oldData.FreeRef();
      if oldData != newData {
        // the ghost bookkeeping: this moves from one owner set to the other
        assert this !in newData.owners;
        assert |newData.owners + {this}| == |newData.owners| + 1;
        assert |oldData.owners - {this}| == |oldData.owners| - 1;
        oldData.owners := oldData.owners - {this};
        newData.owners := newData.owners + {this};
        data := newData;
      }
    }

    /** Swap: exchanges the data pointers. */
    method Swap(rhs: String)
      requires Held() && rhs.Held()
      modifies this, rhs, data, rhs.data
      ensures Held() && rhs.Held()
      ensures data == old(rhs.data) && rhs.data == old(data)
      ensures data.vec == old(rhs.data.vec) && rhs.data.vec == old(data.vec)
      ensures data.refCount == old(rhs.data.refCount) && rhs.data.refCount == old(data.refCount)
    {
      if data != rhs.data {
        var d1, d2 := data, rhs.data;
        d1.Handover(this, rhs);
        d2.Handover(rhs, this);
        data, rhs.data := d2, d1;
      }
    }

    // ---- writes ----

    /** A write through the vector Writeable returned. */
    method Put(v: seq<char>)
      requires Sole()
      modifies data
      ensures Sole() && data.vec == v
    {
      data.vec := v;
    }

    /** Set(pStr): a NULL pointer (None) makes the string share the static
        empty one; otherwise the text is copied into private storage. */
    method Set(p: Option<seq<char>>, empty: String)
      requires Valid() && empty.Valid() && empty.Contents() == []
      requires p.Some? ==> NulFree(p.value)
      modifies this, data, empty.data
      ensures Valid() && Contents() == (if p.Some? then p.value else [])
      ensures p.None? ==> data == old(empty.data)
      ensures p.Some? ==> Sole() && CopiesUnchanged(old(data), old(data.vec), old(data.owners) - {this})
    {
      if p.Some? {
        var text := p.value;
        WriteableEmpty();
        var v := Resize([], |text| + 1);
        data.vec := MemCopy(v, 0, text + [Nul]);
      } else {
        Assign(empty);
      }
    }

    /** Append(const char*). */
    method Append(p: seq<char>)
      requires Valid() && NulFree(p)
      modifies this, data
      ensures Valid() && Sole() && Contents() == old(Contents()) + p
      ensures CopiesUnchanged(old(data), old(data.vec), old(data.owners) - {this})
    {
      ghost var s := Contents();
      Writeable();
      var oldLen := Length();
      var v := Resize(data.vec, oldLen + |p| + 1);
      data.vec := MemCopy(v, oldLen, p + [Nul]);
      assert data.vec == s + p + [Nul];
    }

    /** Append(const char c): nothing stops `c` from being NUL, which leaves
        a vector that is no longer valid. */
    method AppendChar(c: char)
      requires Valid()
      modifies this, data
      ensures Sole() && data.vec == old(Contents()) + [c, Nul]
      ensures Valid() <==> c != Nul
      ensures CopiesUnchanged(old(data), old(data.vec), old(data.owners) - {this})
    {
      ghost var s := Contents();
      Writeable();
      Spliced(data.vec, s, |s|, [c]);
      data.vec := data.vec[|data.vec| - 1 := c] + [Nul];
      assert data.vec == s[..|s|] + [c] + s[|s|..] + [Nul];
    }

    /** Insert(at, char c): a NUL `c` leaves an invalid vector, as for AppendChar. */
    method InsertChar(at: nat, c: char)
      requires Valid() && at <= Length()
      modifies this, data
      ensures Sole() && data.vec == old(Contents())[..at] + [c] + old(Contents())[at..] + [Nul]
      ensures Valid() <==> c != Nul
      ensures CopiesUnchanged(old(data), old(data.vec), old(data.owners) - {this})
    {
      ghost var s := Contents();
      var oldLen := Length();
      Writeable();
      InsertedText(data.vec, s, at, [], c);
      Put(InsertCharBuffer(data.vec, at, c));
    }

    /** Insert(at, const char*), with the text copied to `buf + at`; the
        code as written is InsertAsWritten. */
    method Insert(at: nat, p: seq<char>)
      requires Valid() && at <= Length() && NulFree(p)
      modifies this, data
      ensures Valid() && Sole() && Contents() == old(Contents())[..at] + p + old(Contents())[at..]
      ensures CopiesUnchanged(old(data), old(data.vec), old(data.owners) - {this})
    {
      ghost var s := Contents();
      var oldLen := Length();
      Writeable();
      InsertedText(data.vec, s, at, p, Nul);
      Put(InsertBuffer(data.vec, at, p));
    }

    /** GetChar. */
    function GetChar(i: nat): (c: char)
      reads this, data
      requires WellFormed(data.vec) && i < Length()
      ensures c != Nul && c == Contents()[i]
    {
      data.vec[i]
    }

    /** SetChar(i, c): a NUL truncates to length `i`, any other char
        replaces the one at `i`. */
    method SetChar(i: nat, c: char)
      requires Valid() && i < Length()
      modifies this, data
      ensures Valid() && Sole()
      ensures c == Nul ==> Contents() == old(Contents())[..i] && Length() == i
      ensures c != Nul ==> Contents() == old(Contents())[i := c]
      ensures CopiesUnchanged(old(data), old(data.vec), old(data.owners) - {this})
    {
      if c == Nul {
        ghost var s := Contents();
        assert Strlen(data.vec) == |s|;
        Truncate(i);
        assert Contents() == s[..i];
      } else {
        Writeable();
        Put(SetCharBuffer(data.vec, i, c));
      }
    }

    /** Truncate(n): works on any vector, terminated or not, as long as
        no NUL comes before `n` (the validity check that ends it); at
        `n == |vec|` the resize adds the terminator. */
    method Truncate(n: nat)
      requires Held() && n <= |data.vec| && NulFree(data.vec[..n])
      modifies this, data
      ensures Valid() && Sole() && Contents() == old(data.vec[..n]) && Length() == n
      ensures CopiesUnchanged(old(data), old(data.vec), old(data.owners) - {this})
    {
      Writeable();
      Put(TruncBuffer(data.vec, n));
    }

    /** FixLength: cuts the vector after its first NUL. */
    method FixLength()
      requires Held() && Nul in data.vec
      modifies this, data
      ensures Valid() && Sole() && Contents() == CStr(old(data.vec))
      ensures CopiesUnchanged(old(data), old(data.vec), old(data.owners) - {this})
    {
      Writeable();
      var n := Strlen(data.vec);
      Truncate(n);
    }

    /** WriteableCStr(size): a private vector of at least `size` chars for
        the caller to write into; the new chars are zero. */
    method WriteableCStr(size: nat)
      requires Held()
      modifies this, data
      ensures Sole()
      ensures data.vec == if size > |old(data.vec)| then Resize(old(data.vec), size) else old(data.vec)
      ensures CopiesUnchanged(old(data), old(data.vec), old(data.owners) - {this})
    {
      Writeable();
      if size > |data.vec| {
        data.vec := Resize(data.vec, size);
      }
    }

    /** Reserve: only breaks sharing (capacity is not modelled). */
    method Reserve(amount: int)
      requires Valid()
      modifies this, data
      ensures Valid() && Sole() && Contents() == old(Contents())
      ensures CopiesUnchanged(old(data), old(data.vec), old(data.owners) - {this})
    {
      Writeable();
    }

    /** Clear. */
    method Clear()
      requires Valid()
      modifies this, data
      ensures Valid() && Sole() && Contents() == []
      ensures CopiesUnchanged(old(data), old(data.vec), old(data.owners) - {this})
    {
      WriteableEmpty();
      data.vec := [] + [Nul];
    }

    /** Release: shares the static empty string. */
    method Release(empty: String)
      requires Valid() && empty.Valid() && empty.Contents() == []
      modifies this, data, empty.data
      ensures Valid() && Contents() == [] && data == old(empty.data)
    {
      Assign(empty);
    }

    /** PopBack: the last char, removed; 0 on an empty string. */
    method PopBack() returns (c: char)
      requires Valid()
      modifies this, data
      ensures Valid()
      ensures old(Length()) == 0 ==> c == Nul && data == old(data) && data.vec == old(data.vec)
      ensures old(Length()) > 0 ==>
                Sole() && c == old(Contents())[old(Length()) - 1]
                && Contents() == old(Contents())[..old(Length()) - 1]
                && CopiesUnchanged(old(data), old(data.vec), old(data.owners) - {this})
    {
      if Length() == 0 {
        return Nul;
      }
      ghost var s := Contents();
      Writeable();
      c := data.vec[|data.vec| - 2];
      data.vec := data.vec[..|data.vec| - 1];
      data.vec := data.vec[|data.vec| - 1 := Nul];
      Terminated(data.vec, s[..|s| - 1]);
    }

    /** Split(i): the tail after `i` moves to the result and the char at `i`
        is dropped; at `i == Length()` the result is the static empty string. */
    method Split(i: nat, empty: String) returns (ret: String)
      requires Valid() && i <= Length() && empty.Valid() && empty.Contents() == []
      modifies this, data, empty.data
      ensures Valid() && ret.Valid() && ret != this
      ensures i == old(Length()) ==>
                Contents() == old(Contents()) && ret.Contents() == [] && ret.data == old(empty.data)
      ensures i < old(Length()) ==>
                Contents() == old(Contents())[..i] && ret.Contents() == old(Contents())[i + 1..]
                && fresh(ret.data)
    {
      if i == Length() {
        ret := new String.Copy(empty);
        return;
      }
      var tail := Contents()[i + 1..];
      ret := new String.FromCStr(tail);
      Truncate(i);
      assert ret.Contents() == tail;
    }

    /** FindReplace: replaces every case-insensitive match of `from` (which
        must not be empty, or the scan never ends) and counts them. */
    method FindReplace(from: seq<char>, to: seq<char>) returns (count: nat)
      requires Valid() && NulFree(from) && NulFree(to) && |from| > 0
      modifies this, data
      ensures Valid() && Sole()
      ensures Contents() == ReplacedI(old(Contents()), from, to)
      ensures count == MatchesI(old(Contents()), from)
      ensures Length() == old(Length()) + count * (|to| - |from|)
      ensures CopiesUnchanged(old(data), old(data.vec), old(data.owners) - {this})
    {
      ghost var s0 := Contents();
      var oldLen := Length();
      Writeable();
      var v, n;
      v, n, count := ReplaceScan(data.vec, oldLen, from, to);
      Put(v);
      assert v == v[..n] + [Nul] + v[n + 1..];
      CStrOfTerminated(v[..n], v[n + 1..]);
      FixLength();
      ReplacedLength(s0, from, to);
    }

    // ---- comparisons ----

    /** operator==(const String&): equal data is a shortcut, then strcmp. */
    function Equals(str: String): (r: bool)
      reads this, data, str, str.data
      requires WellFormed(data.vec) && WellFormed(str.data.vec)
      ensures r <==> Contents() == str.Contents()
    {
      data == str.data || Strsame(Contents(), str.Contents())
    }

    /** operator!=(const String&). */
    function NotEquals(str: String): (r: bool)
      reads this, data, str, str.data
      requires WellFormed(data.vec) && WellFormed(str.data.vec)
      ensures r <==> Contents() != str.Contents()
    {
      if data == str.data then false else !Strsame(Contents(), str.Contents())
    }

    /** operator<(const String&): strcmp below zero. */
    function Less(str: String): (r: bool)
      reads this, data, str, str.data
      requires WellFormed(data.vec) && WellFormed(str.data.vec)
      ensures r <==> LexLess(Contents(), str.Contents())
    {
      StrcmpLess(Contents(), str.Contents());
      Compare(Contents(), str.Contents(), Identity, false) < 0
    }

    /** operator==(const char*), and the free operator== with the operands swapped. */
    function EqualsCStr(p: seq<char>): (r: bool)
      reads this, data
      requires WellFormed(data.vec) && NulFree(p)
      ensures r <==> Contents() == p
    {
      Strsame(Contents(), p)
    }

    /** operator!=(const char*), and the free operator!= with the operands swapped. */
    function NotEqualsCStr(p: seq<char>): (r: bool)
      reads this, data
      requires WellFormed(data.vec) && NulFree(p)
      ensures r <==> Contents() != p
    {
      !Strsame(Contents(), p)
    }

    /** operator<(const char*). */
    function LessCStr(p: seq<char>): (r: bool)
      reads this, data
      requires WellFormed(data.vec) && NulFree(p)
      ensures r <==> LexLess(Contents(), p)
    {
      StrcmpLess(Contents(), p);
      Compare(Contents(), p, Identity, false) < 0
    }
  }
}
