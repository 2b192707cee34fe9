/**
  The char* helpers of StrUtil.cpp.  Read-only scans are methods over the
  string's content (a NUL-free sequence whose terminator sits at its end);
  the helpers that write into a caller's buffer take an `array<char>` holding
  a terminated string.  A returned `char*` becomes a position (an index) or,
  where the source can return NULL, an `Option`.
*/
module StrUtil {
  import opened Wrappers
  import opened CLib
  import opened StrUtilH

  // ---- white space ----

  /** skipwhitespace: the first position at or after `p` that is not isspace. */
  method Skipwhitespace(s: seq<char>, p: nat) returns (q: nat)
    requires p <= |s|
    ensures p <= q <= |s| && (forall k :: p <= k < q ==> IsSpace(s[k]))
    ensures q < |s| ==> !IsSpace(s[q])
    ensures q == SpanSpace(s, p)
  {
    q := p;
    while q < |s| && IsSpace(s[q])
      invariant p <= q <= |s|
      invariant forall k :: p <= k < q ==> IsSpace(s[k])
      invariant SpanSpace(s, q) == SpanSpace(s, p)
    {
      q := q + 1;
    }
  }

  method SkipDigits(s: seq<char>, p: nat) returns (q: nat)
    requires p <= |s|
    ensures q == SpanDigits(s, p)
  {
    q := p;
    while q < |s| && IsDigit(s[q])
      invariant p <= q <= |s|
      invariant SpanDigits(s, q) == SpanDigits(s, p)
    {
      q := q + 1;
    }
  }

  // ---- isnumber ----

  /** Where the optional exponent of a number that starts at `i` ends. */
  function ExponentEnd(s: seq<char>, i: nat): (j: nat)
    requires i <= |s|
    ensures i <= j <= |s|
  {
    if ToLower(At(s, i)) == 'e' then
      var k := if At(s, i + 1) == '-' || At(s, i + 1) == '+' then i + 2 else i + 1;
      SpanDigits(s, k)
    else i
  }

  /** The end of the longest prefix (after leading white space) of the shape
      [sign] digits [. digits] [e [sign] digits] that isnumber accepts. */
  function NumberEnd(s: seq<char>): (j: nat)
    ensures j <= |s|
  {
    ExponentEnd(s, MantissaEnd(s, SpanSpace(s, 0)))
  }

  /** The end of [sign] digits [. digits] starting at `i`. */
  function MantissaEnd(s: seq<char>, i: nat): (j: nat)
    requires i <= |s|
    ensures i <= j <= |s|
  {
    var i1 := if At(s, i) == '-' || At(s, i) == '+' then i + 1 else i;
    var i2 := SpanDigits(s, i1);
    var i3 := if At(s, i2) == '.' then i2 + 1 else i2;
    SpanDigits(s, i3)
  }

  /** isnumber: after the number, only white space may follow. */
  predicate IsNumberSpec(s: seq<char>)
  {
    SpanSpace(s, NumberEnd(s)) == |s|
  }

  method SkipMantissa(s: seq<char>, p0: nat) returns (p: nat)
    requires p0 <= |s|
    ensures p == MantissaEnd(s, p0)
  {
    p := p0;
    if At(s, p) == '-' || At(s, p) == '+' { p := p + 1; }
    p := SkipDigits(s, p);
    if At(s, p) == '.' { p := p + 1; }
    p := SkipDigits(s, p);
  }

  method SkipExponent(s: seq<char>, p0: nat) returns (p: nat)
    requires p0 <= |s|
    ensures p == ExponentEnd(s, p0)
  {
    p := p0;
    if ToLower(At(s, p)) == 'e' {
      p := p + 1;
      if At(s, p) == '-' || At(s, p) == '+' { p := p + 1; }
      p := SkipDigits(s, p);
    }
  }

  method IsNumber(s: seq<char>) returns (r: bool)
    requires NulFree(s)
    ensures r == IsNumberSpec(s)
  {
    var p := Skipwhitespace(s, 0);
    p := SkipMantissa(s, p);
    p := SkipExponent(s, p);
    p := Skipwhitespace(s, p);
    r := At(s, p) == Nul;
  }

  predicate NumberChar(c: char)
  {
    IsSpace(c) || IsDigit(c) || c == '-' || c == '+' || c == '.' || c == 'e' || c == 'E'
  }

  lemma MantissaChars(s: seq<char>, i: nat)
    requires i <= |s|
    ensures forall k :: i <= k < MantissaEnd(s, i) ==> NumberChar(s[k])
  {
  }

  lemma ExponentChars(s: seq<char>, i: nat)
    requires i <= |s|
    ensures forall k :: i <= k < ExponentEnd(s, i) ==> NumberChar(s[k])
  {
  }

  /** Everything isnumber accepts is made of white space, digits, signs, '.' and 'e'. */
  lemma IsNumberChars(s: seq<char>)
    requires IsNumberSpec(s)
    ensures forall k :: 0 <= k < |s| ==> NumberChar(s[k])
  {
    var i0 := SpanSpace(s, 0);
    var m := MantissaEnd(s, i0);
    var e := ExponentEnd(s, m);
    MantissaChars(s, i0);
    ExponentChars(s, m);
    assert forall k :: e <= k < |s| ==> IsSpace(s[k]);
  }

  /** An optionally signed run of digits, padded with white space, is a number;
      so is the empty string. */
  lemma IsNumberOfInteger(sign: seq<char>, d: seq<char>)
    requires sign == [] || sign == ['-'] || sign == ['+']
    requires AllDigits(d)
    ensures IsNumberSpec(sign + d)
    ensures IsNumberSpec([])
  {
    var s := sign + d;
    assert SpanSpace(s, 0) == 0 by {
      if |s| > 0 { assert s[0] == '-' || s[0] == '+' || IsDigit(s[0]); }
    }
    assert s[|sign|..] == d;
    SpanDigitsOfDigits(s, |sign|);
  }

  /** A letter after the digits makes the string not a number. */
  lemma NotNumberExample()
    ensures !IsNumberSpec("33 xx")
  {
    var s := "33 xx";
    assert SpanSpace(s, 0) == 0;
    assert SpanDigits(s, 2) == 2;
    assert SpanDigits(s, 0) == 2;
    assert MantissaEnd(s, 0) == 2;
    assert ExponentEnd(s, 2) == 2;
    assert SpanSpace(s, 3) == 3;
    assert SpanSpace(s, 2) == 3;
  }

  lemma NumberExample()
    ensures IsNumberSpec("-99.4e7")
  {
    var t := "-99.4e7";
    assert SpanSpace(t, 0) == 0;
    assert SpanDigits(t, 3) == 3;
    assert SpanDigits(t, 1) == 3;
    assert SpanDigits(t, 5) == 5;
    assert SpanDigits(t, 4) == 5;
    assert MantissaEnd(t, 0) == 5;
    assert SpanDigits(t, 7) == 7;
    assert SpanDigits(t, 6) == 7;
    assert ExponentEnd(t, 5) == 7;
  }

  // ---- prefix tests ----

  /** strpresamelen: the length of the longest common prefix. */
  method Strpresamelen(s1: seq<char>, s2: seq<char>) returns (n: nat)
    requires NulFree(s1) && NulFree(s2)
    ensures n <= |s1| && n <= |s2| && s1[..n] == s2[..n]
    ensures n < |s1| && n < |s2| ==> s1[n] != s2[n]
  {
    n := 0;
    while At(s1, n) == At(s2, n)
      invariant n <= |s1| && n <= |s2| && s1[..n] == s2[..n]
      decreases |s1| - n
    {
      if At(s1, n) == Nul {
        return;
      }
      n := n + 1;
    }
  }

  /** strpresame: `pre` is a prefix of `str`; an empty `pre` always matches. */
  method Strpresame(str: seq<char>, pre: seq<char>) returns (r: bool)
    requires NulFree(str) && NulFree(pre)
    ensures r <==> pre <= str
  {
    var i := 0;
    while i < |pre|
      invariant i <= |pre| && i <= |str| && str[..i] == pre[..i]
    {
      if At(str, i) != pre[i] {
        return false;
      }
      i := i + 1;
    }
    return true;
  }

  /** Case-insensitive prefix: `toupper` agrees along all of `pre`. */
  predicate IPrefix(pre: seq<char>, str: seq<char>)
  {
    |pre| <= |str| && forall k :: 0 <= k < |pre| ==> ToUpper(str[k]) == ToUpper(pre[k])
  }

  /** stripresame: case-insensitive strpresame. */
  method Stripresame(str: seq<char>, pre: seq<char>) returns (r: bool)
    requires NulFree(str) && NulFree(pre)
    ensures r <==> IPrefix(pre, str)
  {
    var i := 0;
    while i < |pre|
      invariant i <= |pre| && i <= |str|
      invariant forall k :: 0 <= k < i ==> ToUpper(str[k]) == ToUpper(pre[k])
    {
      if ToUpper(At(str, i)) != ToUpper(pre[i]) {
        return false;
      }
      i := i + 1;
    }
    return true;
  }

  // ---- strtcmp ----

  /** strtcmp as written: `c1 == 0` is tested on the tokenchar'd value, which is
      never 0 (tokenchar sets bit 0x20), so the loop cannot stop at the
      terminators.  `m1` and `m2` are all the memory readable from `p1` and
      `p2` (string, terminator and whatever follows); None means the loop went
      on reading past it. */
  method StrtcmpAsWritten(m1: seq<char>, m2: seq<char>) returns (r: Option<int>)
    ensures r != Some(0)
    ensures r.None? <==> forall k :: 0 <= k < |m1| && k < |m2| ==> TokenChar(m1[k]) == TokenChar(m2[k])
    ensures m1 == m2 ==> r == None
  {
    var i := 0;
    while i < |m1| && i < |m2|
      invariant i <= |m1| && i <= |m2|
      invariant forall k :: 0 <= k < i ==> TokenChar(m1[k]) == TokenChar(m2[k])
    {
      var c1 := TokenChar(m1[i]);
      var c2 := TokenChar(m2[i]);
      if c1 != c2 {
        SCharInjective(c1, c2);
        return Some(SChar(c1) - SChar(c2));
      }
      if c1 == Nul {
        return Some(0);
      }
      i := i + 1;
    }
    return None;
  }

  /** strtcmp with the terminator test made on the raw character: the first
      difference of tokenchar'd characters, or 0 when both strings end together. */
  method Strtcmp(p1: seq<char>, p2: seq<char>) returns (r: int)
    requires NulFree(p1) && NulFree(p2)
    ensures r == Compare(p1, p2, TokenChar, true)
    ensures r == 0 <==> Strtsame(p1, p2)
  {
    var i := 0;
    while true
      invariant i <= |p1| && i <= |p2|
      invariant CompareFrom(p1, p2, TokenChar, true, i) == Compare(p1, p2, TokenChar, true)
      decreases |p1| - i
    {
      var c1 := if At(p1, i) == Nul then Nul else TokenChar(p1[i]);
      var c2 := if At(p2, i) == Nul then Nul else TokenChar(p2[i]);
      if c1 != c2 {
        return SChar(c1) - SChar(c2);
      }
      if c1 == Nul {
        return 0;
      }
      i := i + 1;
    }
  }

  // ---- searching ----

  /** Case-insensitive match of `pat` at position `p` of `s`. */
  predicate IMatchAt(s: seq<char>, pat: seq<char>, p: nat)
  {
    p + |pat| <= |s| && forall k :: 0 <= k < |pat| ==> ToUpper(s[p + k]) == ToUpper(pat[k])
  }

  /** Does `pat[1..]` match case-insensitively from `s[p+1]` on? (the inner loop) */
  method IMatchRest(s: seq<char>, pat: seq<char>, p: nat) returns (r: bool)
    requires NulFree(s) && NulFree(pat) && p < |s| && 1 <= |pat|
    requires ToUpper(s[p]) == ToUpper(pat[0])
    ensures r <==> IMatchAt(s, pat, p)
  {
    var k := 1;
    while k < |pat| && ToUpper(pat[k]) == ToUpper(At(s, p + k))
      invariant 1 <= k <= |pat| && p + k <= |s|
      invariant forall j :: 0 <= j < k ==> ToUpper(s[p + j]) == ToUpper(pat[j])
    {
      k := k + 1;
    }
    r := k == |pat|;
  }

  /** stristr: the first case-insensitive occurrence of `search_for`.  Unlike
      strstr, an empty `search_for` is never found. */
  method Stristr(search_in: seq<char>, search_for: seq<char>) returns (r: Option<nat>)
    requires NulFree(search_in) && NulFree(search_for)
    ensures r.Some? ==> 1 <= |search_for| && IMatchAt(search_in, search_for, r.value)
                        && forall q :: 0 <= q < r.value ==> !IMatchAt(search_in, search_for, q)
    ensures r.None? ==> |search_for| == 0 || forall q :: 0 <= q <= |search_in| ==> !IMatchAt(search_in, search_for, q)
  {
    var p := 0;
    while p < |search_in|
      invariant p <= |search_in|
      invariant forall q :: 0 <= q < p ==> |search_for| == 0 || !IMatchAt(search_in, search_for, q)
    {
      if ToUpper(search_in[p]) == ToUpper(At(search_for, 0)) {
        var m := IMatchRest(search_in, search_for, p);
        if m {
          return Some(p);
        }
      }
      p := p + 1;
    }
    return None;
  }

  /** strrstr: the last occurrence of a non-empty `search_for`. */
  method Strrstr(search_in: seq<char>, search_for: seq<char>) returns (r: Option<nat>)
    requires NulFree(search_in) && NulFree(search_for)
    ensures r.Some? ==> 1 <= |search_for| && MatchAt(search_in, search_for, r.value)
                        && forall q :: r.value < q <= |search_in| ==> !MatchAt(search_in, search_for, q)
    ensures r.None? ==> |search_for| == 0 || forall q :: 0 <= q <= |search_in| ==> !MatchAt(search_in, search_for, q)
  {
    var p := |search_in|;
    while p > 0
      invariant p <= |search_in|
      invariant forall q: nat :: p <= q <= |search_in| ==> |search_for| == 0 || !MatchAt(search_in, search_for, q)
    {
      p := p - 1;
      if search_in[p] == At(search_for, 0) {
        var k := 1;
        while k < |search_for| && search_for[k] == At(search_in, p + k)
          invariant 1 <= k <= |search_for| && p + k <= |search_in|
          invariant search_in[p..p + k] == search_for[..k]
        {
          k := k + 1;
        }
        if k == |search_for| {
          return Some(p);
        }
      }
    }
    return None;
  }

  /** strchrset: the first character of `search_in` that belongs to `search_set`. */
  method Strchrset(search_in: seq<char>, search_set: seq<char>) returns (r: Option<nat>)
    requires NulFree(search_in) && NulFree(search_set)
    ensures r.Some? ==> r.value < |search_in| && search_in[r.value] in search_set
                        && forall q :: 0 <= q < r.value ==> search_in[q] !in search_set
    ensures r.None? ==> forall q :: 0 <= q < |search_in| ==> search_in[q] !in search_set
  {
    // the 256-entry mask of the source, as the set of flagged characters
    var mask: set<char> := {};
    var i := 0;
    while i < |search_set|
      invariant i <= |search_set| && mask == set k | 0 <= k < i :: search_set[k]
    {
      mask := mask + {search_set[i]};
      i := i + 1;
    }
    assert forall c :: c in mask <==> c in search_set by {
      forall c ensures c in mask <==> c in search_set {
        if c in search_set {
          var k :| 0 <= k < |search_set| && search_set[k] == c;
        }
      }
    }
    var p := 0;
    while p < |search_in|
      invariant p <= |search_in|
      invariant forall q :: 0 <= q < p ==> search_in[q] !in search_set
    {
      if search_in[p] in mask {
        return Some(p);
      }
      p := p + 1;
    }
    return None;
  }

  /** strcount: the number of positions holding `c`. */
  method Strcount(str: seq<char>, c: char) returns (count: nat)
    requires NulFree(str)
    ensures count == multiset(str)[c]
  {
    count := 0;
    var i := 0;
    while i < |str|
      invariant i <= |str| && count == multiset(str[..i])[c]
    {
      assert str[..i + 1] == str[..i] + [str[i]];
      if str[i] == c {
        count := count + 1;
      }
      i := i + 1;
    }
    assert str[..i] == str;
  }

  // ---- writing into buffers ----

  function Min(a: int, b: int): int { if a < b then a else b }

  /** strlcpy: copies min(strlen(fm)+1, maxLen) chars and always stores a NUL
      at to[maxLen-1]; the copy is therefore always terminated and holds the
      first min(strlen(fm), maxLen-1) chars of `fm`. */
  method Strlcpy(to: array<char>, fm: seq<char>, maxLen: int)
    requires NulFree(fm) && 1 <= maxLen <= to.Length
    modifies to
    ensures forall i :: 0 <= i < to.Length ==>
              to[i] == (if i == maxLen - 1 then Nul
                        else if i < Min(|fm| + 1, maxLen) then At(fm, i)
                        else old(to[i]))
    ensures Nul in to[..] && CStr(to[..]) == fm[..Min(|fm|, maxLen - 1)]
  {
    var len := Min(|fm| + 1, maxLen);
    var i := 0;
    while i < len
      invariant i <= len
      invariant forall k :: 0 <= k < to.Length ==> to[k] == (if k < i then At(fm, k) else old(to[k]))
    {
      to[i] := At(fm, i);
      i := i + 1;
    }
    to[maxLen - 1] := Nul;
    var n := Min(|fm|, maxLen - 1);
    assert to[..][..n] == fm[..n];
    CStrOfTerminated(fm[..n], to[..][n + 1..]);
    assert to[..] == fm[..n] + [Nul] + to[..][n + 1..];
  }

  /** cb::strncpy (StrUtil.h) forwards to strlcpy with the count cast to int,
      so the destination is always terminated; it returns the destination. */
  method Strncpy(destination: array<char>, source: seq<char>, num: nat) returns (r: array<char>)
    requires NulFree(source) && 1 <= num <= Int32Max && num <= destination.Length
    modifies destination
    ensures r == destination
    ensures Nul in destination[..] && CStr(destination[..]) == source[..Min(|source|, num - 1)]
  {
    Strlcpy(destination, source, num);
    r := destination;
  }

  /** The string with every `fm` replaced by `to`. */
  function Replaced(s: seq<char>, fm: char, to: char): (t: seq<char>)
    ensures |t| == |s|
    ensures forall i :: 0 <= i < |s| ==> t[i] == (if s[i] == fm then to else s[i])
  {
    if s == [] then [] else [if s[0] == fm then to else s[0]] + Replaced(s[1..], fm, to)
  }

  /** strrep: replaces exactly the positions of the string holding `fm`; the
      length and every other char stay as they were. */
  method Strrep(str: array<char>, fm: char, to: char)
    requires Nul in str[..]
    modifies str
    ensures str[..|old(CStr(str[..]))|] == Replaced(old(CStr(str[..])), fm, to)
    ensures str[|old(CStr(str[..]))|..] == old(str[|CStr(str[..])|..])
  {
    ghost var a := str[..];
    ghost var s := CStr(a);
    var i := 0;
    while str[i] != Nul
      invariant i <= |s|
      invariant forall k :: 0 <= k < str.Length ==> str[k] == (if k < i && a[k] == fm then to else a[k])
      decreases |s| - i
    {
      if str[i] == fm {
        str[i] := to;
      }
      i := i + 1;
    }
    assert i == |s|;
    forall k | 0 <= k < |s|
      ensures str[k] == Replaced(s, fm, to)[k]
    {
      assert s[k] == a[k];
    }
    assert str[|s|..] == a[|s|..];
  }

  /** After strrep(fm -> to) the string holds no `fm`, and strcount(to) has
      grown by the old strcount(fm). */
  lemma {:induction false} ReplacedCounts(s: seq<char>, fm: char, to: char)
    requires fm != to
    ensures multiset(Replaced(s, fm, to))[fm] == 0
    ensures multiset(Replaced(s, fm, to))[to] == multiset(s)[to] + multiset(s)[fm]
  {
    if s != [] {
      ReplacedCounts(s[1..], fm, to);
      assert s == [s[0]] + s[1..];
      assert Replaced(s, fm, to) == [if s[0] == fm then to else s[0]] + Replaced(s[1..], fm, to);
    }
  }

  /** strins: inserts `fm` at position `at` of the buffer, shifting the rest of
      the string (and its terminator) down; returns the position just after
      the insertion.  The caller must have made room. */
  method Strins(buf: array<char>, at: nat, fm: seq<char>) returns (end: nat)
    requires at <= buf.Length && Nul in buf[at..] && NulFree(fm)
    requires at + |CStr(buf[at..])| + |fm| < buf.Length
    modifies buf
    ensures end == at + |fm|
    ensures buf[..at] == old(buf[..at])
    ensures Nul in buf[at..] && CStr(buf[at..]) == fm + old(CStr(buf[at..]))
    ensures buf[at + |fm| + |old(CStr(buf[at..]))| + 1..] == old(buf[at + |fm| + |CStr(buf[at..])| + 1..])
  {
    ghost var b0 := buf[..];
    var tolen: nat := Strlen(buf[at..]);
    ghost var t := CStr(b0[at..]);
    assert |t| == tolen;
    // move the tail, terminator included, down by |fm|
    ShiftDown(buf, at, tolen + 1, |fm|);
    ghost var b1 := buf[..];
    CopyInto(buf, at, fm);
    end := at + |fm|;
    StrinsLayout(b0, b1, buf[..], at, fm, t, tolen);
  }

  /** The two moves of strins together: shift the old string down by |fm|,
      then copy `fm` in front of it. */
  lemma StrinsLayout(b0: seq<char>, b1: seq<char>, b2: seq<char>, at: nat, fm: seq<char>, t: seq<char>, len: nat)
    requires at <= |b0|
    requires Nul in b0[at..]
    requires t == CStr(b0[at..])
    requires len == |t|
    requires NulFree(fm)
    requires at + len + |fm| < |b0|
    requires b1 == Moved(b0, at, len + 1, |fm|)
    requires b2 == Overwritten(b1, at, fm)
    ensures b2[..at] == b0[..at]
    ensures Nul in b2[at..] && CStr(b2[at..]) == fm + t
    ensures b2[at + |fm| + |t| + 1..] == b0[at + |fm| + |t| + 1..]
  {
    ShiftedTail(b0, b1, at, |fm|, |t|);
    CopiedInto(b1, b2, at, fm, t, b0[at + |fm| + |t| + 1..]);
  }

  /** After the shift: the head is unchanged and the string with its
      terminator sits `dist` further down. */
  lemma ShiftedTail(b0: seq<char>, b1: seq<char>, at: nat, dist: nat, len: nat)
    requires at <= |b0| && Nul in b0[at..] && len == |CStr(b0[at..])| && at + dist + len < |b0|
    requires b1 == b0[..at + dist] + b0[at..at + (len + 1)] + b0[at + dist + (len + 1)..]
    ensures b1[..at] == b0[..at]
    ensures b1[at + dist..] == CStr(b0[at..]) + [Nul] + b0[at + dist + len + 1..]
  {
    assert b0[at..at + (len + 1)] == CStr(b0[at..]) + [Nul] by {
      assert b0[at..at + (len + 1)] == b0[at..][..len + 1];
    }
  }

  /** After `fm` is copied in front of the shifted string, the string at
      `at` is `fm` followed by the old one. */
  lemma CopiedInto(b1: seq<char>, b2: seq<char>, at: nat, fm: seq<char>, t: seq<char>, rest: seq<char>)
    requires NulFree(fm) && NulFree(t) && at + |fm| <= |b1|
    requires b1[at + |fm|..] == t + [Nul] + rest
    requires b2 == b1[..at] + fm + b1[at + |fm|..]
    ensures b2[..at] == b1[..at]
    ensures Nul in b2[at..] && CStr(b2[at..]) == fm + t
    ensures b2[at + |fm| + |t| + 1..] == rest
  {
    assert b2[at..] == (fm + t) + [Nul] + rest;
    CStrOfTerminated(fm + t, rest);
    assert b2[at + |fm| + |t| + 1..] == b2[at..][|fm| + |t| + 1..];
  }

  /** `s` after memmove(s + from + dist, s + from, len). */
  function Moved(s: seq<char>, from: nat, len: nat, dist: nat): (r: seq<char>)
    requires from + dist + len <= |s|
    ensures |r| == |s|
  {
    s[..from + dist] + s[from..from + len] + s[from + dist + len..]
  }

  /** `s` after memcpy(s + at, fm, |fm|). */
  function Overwritten(s: seq<char>, at: nat, fm: seq<char>): (r: seq<char>)
    requires at + |fm| <= |s|
    ensures |r| == |s|
  {
    s[..at] + fm + s[at + |fm|..]
  }

  /** memmove(buf + from + dist, buf + from, len), copying back to front. */
  method ShiftDown(buf: array<char>, from: nat, len: nat, dist: nat)
    requires from + dist + len <= buf.Length
    modifies buf
    ensures buf[..] == Moved(old(buf[..]), from, len, dist)
  {
    var k := len;
    while k > 0
      invariant 0 <= k <= len
      invariant forall j :: 0 <= j < buf.Length ==>
                  buf[j] == (if from + dist + k <= j < from + dist + len then old(buf[j - dist]) else old(buf[j]))
    {
      k := k - 1;
      assert buf[from + k] == old(buf[from + k]);
      buf[from + dist + k] := buf[from + k];
    }
    assert buf[..] == old(buf[..from + dist]) + old(buf[from..from + len]) + old(buf[from + dist + len..]);
  }

  /** memcpy(buf + at, fm, |fm|). */
  method CopyInto(buf: array<char>, at: nat, fm: seq<char>)
    requires at + |fm| <= buf.Length
    modifies buf
    ensures buf[..] == Overwritten(old(buf[..]), at, fm)
  {
    var i := 0;
    while i < |fm|
      invariant i <= |fm|
      invariant forall j :: 0 <= j < buf.Length ==>
                  buf[j] == (if at <= j < at + i then fm[j - at] else old(buf[j]))
    {
      buf[at + i] := fm[i];
      i := i + 1;
    }
    assert buf[..] == old(buf[..at]) + fm + old(buf[at + |fm|..]);
  }

  /** The string without its trailing white space. */
  function TrimEnd(s: seq<char>): (t: seq<char>)
    ensures t <= s && (t == [] || !IsSpace(t[|t| - 1]))
    ensures forall k :: |t| <= k < |s| ==> IsSpace(s[k])
  {
    if s == [] || !IsSpace(s[|s| - 1]) then s else TrimEnd(s[..|s| - 1])
  }

  /** TrimEnd cuts exactly at the last non-white char. */
  lemma {:induction false} TrimEndAt(s: seq<char>, n: nat)
    requires n <= |s| && (n == 0 || !IsSpace(s[n - 1]))
    requires forall k :: n <= k < |s| ==> IsSpace(s[k])
    ensures TrimEnd(s) == s[..n]
    decreases |s|
  {
    if |s| > n {
      TrimEndAt(s[..|s| - 1], n);
      assert s[..|s| - 1][..n] == s[..n];
    }
  }

  /** killtailingwhite: overwrites the trailing white space with NULs. */
  method Killtailingwhite(ptr: array<char>)
    requires Nul in ptr[..]
    modifies ptr
    ensures forall i :: 0 <= i < ptr.Length ==>
              ptr[i] == (if |TrimEnd(old(CStr(ptr[..])))| <= i < |old(CStr(ptr[..]))| then Nul else old(ptr[i]))
    ensures Nul in ptr[..] && CStr(ptr[..]) == TrimEnd(old(CStr(ptr[..])))
  {
    ghost var content := CStr(ptr[..]);
    ghost var old_buf := ptr[..];
    var pend: nat := Strlen(ptr[..]);   // one past the char the source's pend points at
    while pend > 0 && IsSpace(ptr[pend - 1])
      invariant pend <= |content|
      invariant forall k :: pend <= k < |content| ==> IsSpace(content[k])
      invariant forall i :: 0 <= i < ptr.Length ==>
                  ptr[i] == (if pend <= i < |content| then Nul else old_buf[i])
    {
      ptr[pend - 1] := Nul;
      pend := pend - 1;
    }
    TrimEndAt(content, pend);
    assert ptr[..] == content[..pend] + [Nul] + ptr[pend + 1..];
    CStrOfTerminated(content[..pend], ptr[pend + 1..]);
  }

  // ---- sprintfcommas ----

  /** The decimal text of `n` with ',' between groups of three digits: the
      leading group unpadded, every later group "%03d" after a ','. */
  function Commas(n: nat): (s: seq<char>)
    ensures 1 <= |s|
    decreases n
  {
    if n < 1000 then Digits(n) else Commas(n / 1000) + [','] + ZeroPad3(n % 1000)
  }

  /** sprintfcommas output: a leading '-' for negatives, then the magnitude. */
  function CommasSigned(n: int): (s: seq<char>)
  {
    if n < 0 then ['-'] + Commas(-n) else Commas(n)
  }

  function RemoveCommas(s: seq<char>): (t: seq<char>)
    ensures |t| <= |s|
  {
    if s == [] then [] else (if s[0] == ',' then [] else [s[0]]) + RemoveCommas(s[1..])
  }

  lemma {:induction false} RemoveCommasAppend(a: seq<char>, b: seq<char>)
    ensures RemoveCommas(a + b) == RemoveCommas(a) + RemoveCommas(b)
    decreases |a|
  {
    if a == [] {
      assert a + b == b;
    } else {
      assert (a + b)[0] == a[0];
      assert (a + b)[1..] == a[1..] + b;
      RemoveCommasAppend(a[1..], b);
    }
  }

  lemma {:induction false} RemoveCommasDigits(s: seq<char>)
    requires AllDigits(s)
    ensures RemoveCommas(s) == s
    decreases |s|
  {
    if s != [] {
      RemoveCommasDigits(s[1..]);
    }
  }

  /** Three more decimal digits: Digits(a*1000 + r) == Digits(a) ++ "%03d"(r). */
  lemma DigitsThousands(n: nat)
    requires n >= 1000
    ensures Digits(n) == Digits(n / 1000) + ZeroPad3(n % 1000)
  {
    var q1, d0 := n / 10, n % 10;
    var q2, d1 := q1 / 10, q1 % 10;
    var q3, d2 := q2 / 10, q2 % 10;
    var t := d2 * 10 + d1;
    var r := t * 10 + d0;
    assert n == q3 * 1000 + r;
    DivModUnique(n, 1000, q3, r);
    DivModUnique(r, 10, t, d0);
    DivModUnique(t, 10, d2, d1);
    DivModUnique(r, 100, d2, d1 * 10 + d0);
    assert ZeroPad3(r) == [DigitChar(d2), DigitChar(d1), DigitChar(d0)];
    assert Digits(n) == Digits(q1) + [DigitChar(d0)];
    assert Digits(q1) == Digits(q2) + [DigitChar(d1)];
    assert Digits(q2) == Digits(q3) + [DigitChar(d2)];
  }

  lemma DigitsBelow1000(n: nat)
    requires n < 1000
    ensures |Digits(n)| <= 3
  {
    if n >= 10 {
      assert |Digits(n)| == |Digits(n / 10)| + 1;
      assert |Digits(n / 10)| <= 2 by {
        if n / 10 >= 10 {
          assert |Digits(n / 10)| == |Digits(n / 100)| + 1;
        }
      }
    }
  }

  /** Dropping the separators gives back the plain decimal digits. */
  lemma {:induction false} CommasAreDigits(n: nat)
    ensures RemoveCommas(Commas(n)) == Digits(n)
    decreases n
  {
    if n < 1000 {
      RemoveCommasDigits(Digits(n));
    } else {
      CommasAreDigits(n / 1000);
      RemoveCommasAppend(Commas(n / 1000) + [','], ZeroPad3(n % 1000));
      RemoveCommasAppend(Commas(n / 1000), [',']);
      assert RemoveCommas([',']) == [];
      RemoveCommasDigits(ZeroPad3(n % 1000));
      DigitsThousands(n);
    }
  }

  function Pow1000(e: nat): (p: nat)
    ensures p >= 1 && (e >= 1 ==> p >= 1000)
  {
    if e == 0 then 1 else 1000 * Pow1000(e - 1)
  }

  lemma Pow1000Six()
    ensures Pow1000(6) == 1_000_000_000_000_000_000
  {
    assert Pow1000(2) == 1_000_000;
    assert Pow1000(4) == 1_000_000_000_000;
  }

  /** A number below 10 * 1000^e prints in at most 4e+1 characters. */
  lemma {:induction false} CommasLength(n: nat, e: nat)
    requires n < 10 * Pow1000(e)
    ensures |Commas(n)| <= 4 * e + 1
    decreases e
  {
    if n < 1000 {
      DigitsBelow1000(n);
      assert e == 0 ==> n < 10;
    } else {
      assert e >= 1;
      assert n / 1000 < 10 * Pow1000(e - 1);
      CommasLength(n / 1000, e - 1);
    }
  }

  /** sprintf into the buffer at `ptr`: the text, then a terminator. */
  method WriteText(into: array<char>, ptr: nat, text: seq<char>) returns (end: nat)
    requires ptr + |text| < into.Length
    modifies into
    ensures end == ptr + |text|
    ensures into[..ptr] == old(into[..ptr]) && into[ptr..end] == text && into[end] == Nul
    ensures into[end + 1..] == old(into[end + 1..])
  {
    var k := 0;
    while k < |text|
      invariant k <= |text|
      invariant forall j :: 0 <= j < into.Length ==>
                  into[j] == (if ptr <= j < ptr + k then text[j - ptr] else old(into[j]))
    {
      into[ptr + k] := text[k];
      k := k + 1;
    }
    into[ptr + k] := Nul;
    end := ptr + k;
  }

  /** sprintf at `ptr` of the text that starts at `start`. */
  method AppendText(into: array<char>, start: nat, ptr: nat, text: seq<char>) returns (end: nat)
    requires start <= ptr && ptr + |text| < into.Length
    modifies into
    ensures end == ptr + |text|
    ensures into[..start] == old(into[..start])
    ensures into[start..end] == old(into[start..ptr]) + text && into[end] == Nul
  {
    end := WriteText(into, ptr, text);
    assert into[start..ptr] == into[..ptr][start..];
  }

  /** sprintfcommas on magnitudes below 10^18, where the source's int64
      `place *= 1000` cannot overflow and its negation is exact (see
      SprintfcommasPlaceOverflow for what happens above).  The largest output,
      "-999,999,999,999,999,999", has 24 characters. */
  method Sprintfcommas(into: array<char>, number: int)
    requires -1_000_000_000_000_000_000 < number < 1_000_000_000_000_000_000 && into.Length >= 27
    modifies into
    ensures |CommasSigned(number)| <= 26
    ensures into[..|CommasSigned(number)|] == CommasSigned(number)
    ensures into[|CommasSigned(number)|] == Nul
  {
    ghost var want := CommasSigned(number);
    var end: nat;
    if number == 0 {
      end := WriteText(into, 0, "0");
      assert want == "0";
    } else {
      var n: nat := if number < 0 then -number else number;
      var start: nat := 0;
      if number < 0 {
        into[0] := '-';
        start := 1;
      }
      ghost var sign := into[..start];
      assert want == sign + Commas(n);
      var place, e := TopPlace(n);
      end := PrintGroups(into, start, n, place, e);
      assert into[..end] == sign + Commas(n) by {
        assert into[..end] == into[..start] + into[start..end];
      }
    }
    assert into[..end] == want && into[end] == Nul && end <= 26;
  }

  /** The first loop: the weight of the leading group, 1000^e <= n < 1000^(e+1). */
  method TopPlace(n: nat) returns (place: nat, ghost e: nat)
    requires 1 <= n
    ensures place == Pow1000(e) && place <= n < place * 1000
  {
    e := 1;
    place := 1000;
    while n >= place
      invariant place == Pow1000(e) && 1 <= e && n >= Pow1000(e - 1)
      decreases n - place
    {
      place := place * 1000;
      e := e + 1;
    }
    place := place / 1000;
    e := e - 1;
  }

  /** The second loop: prints the groups of `n` from the one of weight `place`
      down, each by sprintf, and stops early should the text pass 30 chars. */
  method PrintGroups(into: array<char>, start: nat, n: nat, place0: nat, ghost e0: nat) returns (end: nat)
    requires place0 == Pow1000(e0) && place0 <= n < place0 * 1000 && n <= 0x8000_0000_0000_0000
    requires start + 25 < into.Length
    modifies into
    ensures end == start + |Commas(n)| && |Commas(n)| <= 25
    ensures into[..start] == old(into[..start])
    ensures into[start..end] == Commas(n) && into[end] == Nul
  {
    var place: nat := place0;
    ghost var e: nat := e0;
    var remainder: nat := n;
    var ptr: nat := start;
    var first := true;
    ghost var unit: nat := Pow1000(e + 1);   // the weight of the groups already printed
    ghost var printed: nat := 0;             // their value
    DivModUnique(n, unit, 0, n);
    while place > 0
      invariant place > 0 ==> place == Pow1000(e) && unit == Pow1000(e + 1)
      invariant place == 0 ==> unit == 1 && !first
      invariant unit >= 1 && remainder == n % unit && printed == n / unit
      invariant first ==> place > 0 && n < unit && n >= place && ptr == start
      invariant !first ==> printed >= 1 && ptr == start + |Commas(printed)| && ptr <= start + 25
      invariant !first ==> into[start..ptr] == Commas(printed) && into[ptr] == Nul
      invariant into[..start] == old(into[..start])
      decreases place
    {
      ptr, remainder := PrintGroup(into, start, ptr, n, place, unit, remainder, first);
      printed := n / place;
      first := false;
      PlaceDown(place, e);
      unit := place;
      place := place / 1000;
      if place > 0 {
        e := e - 1;
      }
      if ptr - start > 30 {
        break;
      }
    }
    assert place == 0 && unit == 1;
    DivModUnique(n, unit, n, 0);
    end := ptr;
  }

  /** One round of the second loop: the group of weight `place` is taken off
      `remainder` and printed after the groups above it. */
  method PrintGroup(into: array<char>, start: nat, ptr: nat, n: nat, place: nat, ghost unit: nat,
                    remainder: nat, first: bool)
    returns (end: nat, rest: nat)
    requires place >= 1 && unit == place * 1000 && n <= 0x8000_0000_0000_0000
    requires remainder == n % unit && start <= ptr <= start + 25 && start + 25 < into.Length
    requires first ==> n < unit && n >= place && ptr == start
    requires !first ==> n / unit >= 1 && ptr == start + |Commas(n / unit)|
    requires !first ==> into[start..ptr] == Commas(n / unit)
    modifies into
    ensures rest == n % place && n / place >= 1
    ensures end == start + |Commas(n / place)| && end <= start + 25
    ensures into[start..end] == Commas(n / place) && into[end] == Nul
    ensures into[..start] == old(into[..start])
  {
    CommasStep(n, place, unit, first);
    var cur := remainder / place;
    rest := remainder - cur * place;
    var text := if first then Digits(cur) else [','] + ZeroPad3(cur);
    end := AppendText(into, start, ptr, text);
  }

  /** The next lower group weight: `place / 1000`, or 0 after the units. */
  lemma PlaceDown(place: nat, e: nat)
    requires place == Pow1000(e)
    ensures place / 1000 > 0 ==> e >= 1 && place / 1000 == Pow1000(e - 1)
    ensures place / 1000 == 0 ==> place == 1
  {
    if e >= 1 {
      DivModUnique(place, 1000, Pow1000(e - 1), 0);
    }
  }

  /** One round of the printing loop: the group taken from `remainder` is the
      next group of `n`, and the text printed extends Commas. */
  lemma CommasStep(n: nat, place: nat, unit: nat, first: bool)
    requires place >= 1 && unit == place * 1000 && n <= 0x8000_0000_0000_0000
    requires first ==> n < unit && n >= place
    requires !first ==> n / unit >= 1
    ensures (n % unit) / place == n / place % 1000
    ensures n % unit - (n % unit) / place * place == n % place
    ensures n / place >= 1
    ensures Commas(n / place) ==
              if first then Digits((n % unit) / place)
              else Commas(n / unit) + [','] + ZeroPad3((n % unit) / place)
    ensures |Commas(n / place)| <= 25
  {
    DivModUnits(n, place, unit);
    var m := n / place;
    QuotientBounds(n, place);
    if first {
      DivModUnique(n, unit, 0, n);
    }
    CommasGroup(m, n / unit, (n % unit) / place, first);
    Pow1000Six();
    assert m < 10 * Pow1000(6);
    CommasLength(m, 6);
  }

  lemma CommasGroup(m: nat, prev: nat, cur: nat, first: bool)
    requires cur == m % 1000 && m / 1000 == prev
    requires first ==> prev == 0 && m >= 1
    requires !first ==> prev >= 1
    ensures Commas(m) == if first then Digits(cur) else Commas(prev) + [','] + ZeroPad3(cur)
  {
  }

  lemma QuotientBounds(n: nat, d: nat)
    requires d >= 1
    ensures n / d <= n
    ensures n >= d ==> n / d >= 1
  {
    var m := n / d;
    assert n == m * d + n % d;
    MulMonotone(d, 1, m);
  }

  lemma DivModUnits(n: nat, place: nat, unit: nat)
    requires place >= 1 && unit == place * 1000
    ensures (n % unit) / place == n / place % 1000
    ensures n % unit - (n % unit) / place * place == n % place
    ensures (n / place) / 1000 == n / unit
  {
    var q := n / unit;
    var r := n % unit;
    var a := r / place;
    var b := r % place;
    assert r == a * place + b;
    assert a < 1000 by {
      assert a * place <= r < 1000 * place;
      if a >= 1000 {
        MulMonotone(a, 1000, place);
      }
    }
    assert n == (q * 1000 + a) * place + b;
    DivModUnique(n, place, q * 1000 + a, b);
    DivModUnique(q * 1000 + a, 1000, q, a);
  }

  /** The value of `place` after `k` rounds of the source's `place *= 1000`,
      which is evaluated in int64 and so wraps once it passes 10^18. */
  function PlaceAsWritten(k: nat): (p: int)
    ensures IsInt64(p)
  {
    if k == 0 then 1000 else Wrap64(PlaceAsWritten(k - 1) * 1000)
  }

  /** For 10^18 the first loop stops at the wrapped value 10^21 mod 2^64, so the
      leading group printed is 258 instead of 1; and for INT64_MAX the loop
      `while (number >= place)` never stops, since no int64 exceeds it. */
  lemma SprintfcommasPlaceOverflow()
    ensures PlaceAsWritten(5) == 1_000_000_000_000_000_000
    ensures PlaceAsWritten(6) == 3_875_820_019_684_212_736
    ensures 1_000_000_000_000_000_000 < PlaceAsWritten(6)
    ensures 1_000_000_000_000_000_000 / (PlaceAsWritten(6) / 1000) == 258
    ensures forall k: nat :: Int64Max >= PlaceAsWritten(k)
  {
    assert PlaceAsWritten(1) == 1_000_000;
    assert PlaceAsWritten(2) == 1_000_000_000;
    assert PlaceAsWritten(3) == 1_000_000_000_000;
    assert PlaceAsWritten(4) == 1_000_000_000_000_000;
    assert PlaceAsWritten(5) == 1_000_000_000_000_000_000;
  }

  /** The corrected model prints the same digits as "%lld", grouped. */
  lemma SprintfcommasDigits(number: int)
    ensures RemoveCommas(CommasSigned(number)) == Decimal(number)
  {
    var m: nat := if number < 0 then -number else number;
    CommasAreDigits(m);
    if number < 0 {
      RemoveCommasAppend(['-'], Commas(m));
    }
  }

  // ---- expandStrEscapes ----

  /** A decimal escape: digits are taken while the value so far is below 26.
      Gives the value and the position after the last digit taken. */
  function EscapeDigits(s: seq<char>, i: nat, v: nat): (r: (nat, nat))
    requires i <= |s|
    ensures i <= r.1 <= |s|
    ensures i < |s| && IsDigit(s[i]) && v < 26 ==> r.1 > i
    ensures v < 26 ==> r.0 < 260
    ensures v >= 26 ==> r == (v, i)
    decreases |s| - i
  {
    if i < |s| && IsDigit(s[i]) && v < 26 then EscapeDigits(s, i + 1, v * 10 + DigitValue(s[i]))
    else (v, i)
  }

  /** One step of expandStrEscapes at position `i`: the text written and where
      the next step starts.  \n \r \t \\ become the control characters, a
      backslash and digits the byte of their value, any other backslash pair
      is copied; a backslash that ends the string is copied and ends the scan. */
  function EscapeStep(s: seq<char>, i: nat): (r: (seq<char>, nat))
    requires i < |s|
    ensures i < r.1 <= |s| && 1 <= |r.0| <= r.1 - i
    ensures s[i] != '\\' ==> r == ([s[i]], i + 1)
  {
    if s[i] != '\\' then ([s[i]], i + 1)
    else if i + 1 == |s| then (['\\'], i + 1)
    else if s[i + 1] == 'n' then (['\n'], i + 2)
    else if s[i + 1] == 'r' then (['\r'], i + 2)
    else if s[i + 1] == 't' then (['\t'], i + 2)
    else if s[i + 1] == '\\' then (['\\'], i + 2)
    else if IsDigit(s[i + 1]) then
      var (v, j) := EscapeDigits(s, i + 1, 0);
      ([ByteChar(v)], j)
    else (['\\', s[i + 1]], i + 2)
  }

  /** What expandStrEscapes writes for the text from position `i` on. */
  function ExpandedFrom(s: seq<char>, i: nat): (t: seq<char>)
    requires i <= |s|
    ensures |t| <= |s| - i
    decreases |s| - i
  {
    if i == |s| then []
    else
      var (piece, j) := EscapeStep(s, i);
      piece + ExpandedFrom(s, j)
  }

  function Expanded(s: seq<char>): (t: seq<char>)
    ensures |t| <= |s|
  {
    ExpandedFrom(s, 0)
  }

  /** expandStrEscapes: writes the expansion of `fm`, then a terminator. */
  method ExpandStrEscapes(to: array<char>, fm: seq<char>)
    requires NulFree(fm) && |fm| < to.Length
    modifies to
    ensures to[..|Expanded(fm)|] == Expanded(fm) && to[|Expanded(fm)|] == Nul
  {
    ghost var goal := Expanded(fm);
    var i: nat := 0;
    var j: nat := 0;
    while At(fm, i) != Nul
      invariant i <= |fm| && j + |ExpandedFrom(fm, i)| <= |fm|
      invariant to[..j] + ExpandedFrom(fm, i) == goal
      decreases |fm| - i
    {
      ghost var done := to[..j];
      ghost var later := ExpandedFrom(fm, i);
      var piece, next := ExpandOne(fm, i);
      ExpandedFromStep(fm, i);
      assert later == piece + ExpandedFrom(fm, next);
      j := WritePiece(to, j, piece);
      assert (done + piece) + ExpandedFrom(fm, next) == goal;
      i := next;
    }
    to[j] := Nul;
  }

  /** The body of the expandStrEscapes loop: one character or escape. */
  method ExpandOne(fm: seq<char>, i0: nat) returns (piece: seq<char>, i: nat)
    requires NulFree(fm) && i0 < |fm|
    ensures (piece, i) == EscapeStep(fm, i0)
  {
    i := i0;
    if fm[i] == '\\' {
      i := i + 1;
      var c := At(fm, i);
      if c == 'n' {
        piece := ['\n']; i := i + 1;
      } else if c == 'r' {
        piece := ['\r']; i := i + 1;
      } else if c == 't' {
        piece := ['\t']; i := i + 1;
      } else if c == '\\' {
        piece := ['\\']; i := i + 1;
      } else if IsDigit(c) {
        var v: nat := 0;
        while At(fm, i) != Nul && IsDigit(fm[i]) && v < 26
          invariant i0 + 1 <= i <= |fm|
          invariant EscapeDigits(fm, i, v) == EscapeDigits(fm, i0 + 1, 0)
          decreases |fm| - i
        {
          v := v * 10 + DigitValue(fm[i]);
          i := i + 1;
        }
        piece := [ByteChar(v)];
      } else if c == Nul {
        // a backslash ending the string: copied, and the scan stops at the terminator
        piece := ['\\'];
      } else {
        piece := ['\\', c];
        i := i + 1;
      }
    } else {
      piece := [fm[i]];
      i := i + 1;
    }
  }

  /** Stores one or two characters at `j`. */
  method WritePiece(to: array<char>, j: nat, piece: seq<char>) returns (end: nat)
    requires 1 <= |piece| <= 2 && j + |piece| <= to.Length
    modifies to
    ensures end == j + |piece|
    ensures to[..end] == old(to[..j]) + piece
  {
    to[j] := piece[0];
    if |piece| == 2 {
      to[j + 1] := piece[1];
    }
    end := j + |piece|;
    assert to[..end] == old(to[..j]) + piece;
  }

  /** expandStrEscapes as written, run over all the memory `m` readable from
      `fm` (None: it read past `m`).  For a backslash right before the
      terminator the default case copies the backslash and the terminator,
      steps past the terminator and carries on scanning what follows. */
  function ExpandStrEscapesAsWritten(m: seq<char>, i: nat): (r: Option<seq<char>>)
    requires i <= |m|
    ensures r.Some? ==> exists k :: i <= k < |m| && m[k] == Nul
    decreases |m| - i
  {
    if i == |m| then None
    else if m[i] == Nul then Some([])
    else if m[i] == '\\' && i + 1 == |m| then None
    else
      var (piece, j) := EscapeStep(m, i);
      Prepend(piece, ExpandStrEscapesAsWritten(m, j))
  }

  function Prepend(p: seq<char>, r: Option<seq<char>>): (q: Option<seq<char>>)
    ensures q.Some? <==> r.Some?
  {
    match r
    case None => None
    case Some(t) => Some(p + t)
  }

  /** "a\" followed by its terminator: the source reads past the end of the
      string; with "X" and another NUL after it, it writes the terminator into
      the output and carries on with the X.  The corrected expansion stops. */
  lemma ExpandStrEscapesOverrun()
    ensures ExpandStrEscapesAsWritten(['a', '\\', Nul], 0) == None
    ensures ExpandStrEscapesAsWritten(['a', '\\', Nul, 'X', Nul], 0) == Some(['a', '\\', Nul, 'X'])
    ensures Expanded(['a', '\\']) == ['a', '\\']
  {
    var m1 := ['a', '\\', Nul];
    assert EscapeStep(m1, 1) == (['\\', Nul], 3);
    assert ExpandStrEscapesAsWritten(m1, 1) == None;
    var m2 := ['a', '\\', Nul, 'X', Nul];
    var none: seq<char> := [];
    assert ExpandStrEscapesAsWritten(m2, 4) == Some(none);
    assert EscapeStep(m2, 3) == (['X'], 4);
    assert ['X'] + none == ['X'];
    assert ExpandStrEscapesAsWritten(m2, 3) == Some(['X']);
    assert EscapeStep(m2, 1) == (['\\', Nul], 3);
    assert ['\\', Nul] + ['X'] == ['\\', Nul, 'X'];
    assert ExpandStrEscapesAsWritten(m2, 1) == Some(['\\', Nul, 'X']);
    assert ['a'] + ['\\', Nul, 'X'] == ['a', '\\', Nul, 'X'];
    var s := ['a', '\\'];
    assert ExpandedFrom(s, 1) == ['\\'];
  }

  /** The escape that expandStrEscapes undoes. */
  function EscapeChar(c: char): (e: seq<char>)
    ensures 1 <= |e| <= 2
  {
    if c == '\n' then ['\\', 'n']
    else if c == '\r' then ['\\', 'r']
    else if c == '\t' then ['\\', 't']
    else if c == '\\' then ['\\', '\\']
    else [c]
  }

  function Escape(s: seq<char>): (t: seq<char>)
  {
    if s == [] then [] else EscapeChar(s[0]) + Escape(s[1..])
  }

  lemma {:induction false} EscapeDigitsSuffix(p: seq<char>, s: seq<char>, i: nat, v: nat)
    requires i <= |s|
    ensures EscapeDigits(p + s, |p| + i, v) == (EscapeDigits(s, i, v).0, |p| + EscapeDigits(s, i, v).1)
    decreases |s| - i
  {
    if i < |s| {
      assert (p + s)[|p| + i] == s[i];
      if IsDigit(s[i]) && v < 26 {
        EscapeDigitsSuffix(p, s, i + 1, v * 10 + DigitValue(s[i]));
      }
    }
  }

  lemma EscapeStepSuffix(p: seq<char>, s: seq<char>, i: nat)
    requires i < |s|
    ensures EscapeStep(p + s, |p| + i) == (EscapeStep(s, i).0, |p| + EscapeStep(s, i).1)
  {
    assert (p + s)[|p| + i] == s[i];
    if i + 1 < |s| {
      assert (p + s)[|p| + i + 1] == s[i + 1];
      EscapeDigitsSuffix(p, s, i + 1, 0);
    }
  }

  /** One step of ExpandedFrom: the first piece, then the rest. */
  lemma ExpandedFromStep(s: seq<char>, i: nat)
    requires i < |s|
    ensures ExpandedFrom(s, i) == EscapeStep(s, i).0 + ExpandedFrom(s, EscapeStep(s, i).1)
  {
  }

  /** ExpandedFrom only looks at the text from `i` on. */
  lemma {:induction false} ExpandedFromSuffix(p: seq<char>, s: seq<char>, i: nat)
    requires i <= |s|
    ensures ExpandedFrom(p + s, |p| + i) == ExpandedFrom(s, i)
    decreases |s| - i
  {
    if i < |s| {
      var (piece, j) := EscapeStep(s, i);
      EscapeStepSuffix(p, s, i);
      ExpandedFromSuffix(p, s, j);
      calc {
        ExpandedFrom(p + s, |p| + i);
        piece + ExpandedFrom(p + s, |p| + j);
        piece + ExpandedFrom(s, j);
        ExpandedFrom(s, i);
      }
    }
  }

  /** Expanding the escaped text gives back the original string. */
  lemma {:induction false} ExpandEscape(s: seq<char>)
    ensures Expanded(Escape(s)) == s
    decreases |s|
  {
    if s != [] {
      var e := EscapeChar(s[0]);
      var rest := Escape(s[1..]);
      ExpandEscape(s[1..]);
      ExpandedFromSuffix(e, rest, 0);
      var t := e + rest;
      assert Escape(s) == t;
      assert t[0] == e[0];
      if |e| == 2 {
        assert t[1] == e[1];
      }
      assert EscapeStep(t, 0) == ([s[0]], |e|);
    }
  }

  /** Text without a backslash passes through unchanged. */
  lemma {:induction false} ExpandedPlain(s: seq<char>, i: nat)
    requires i <= |s| && forall k :: i <= k < |s| ==> s[k] != '\\'
    ensures ExpandedFrom(s, i) == s[i..]
    decreases |s| - i
  {
    if i < |s| {
      ExpandedPlain(s, i + 1);
    }
  }

  /** The digit rule: "\255" is one byte, "\300" is byte 30 then '0'. */
  lemma ExpandedDigitsExamples()
    ensures Expanded(['\\', '2', '5', '5']) == [ByteChar(255)]
    ensures Expanded(['\\', '3', '0', '0']) == [ByteChar(30), '0']
  {
    var a := ['\\', '2', '5', '5'];
    assert EscapeDigits(a, 1, 0) == (255, 4);
    assert EscapeStep(a, 0) == ([ByteChar(255)], 4);
    var b := ['\\', '3', '0', '0'];
    assert EscapeDigits(b, 1, 0) == (30, 3);
    assert EscapeStep(b, 0) == ([ByteChar(30)], 3);
    assert ExpandedFrom(b, 3) == ['0'];
  }

  // ---- argstr ----

  /** Where an argument value lives: argv[arg] + offset. */
  datatype ArgPos = ArgPos(arg: nat, offset: nat)

  /** argstr: the value of the option argv[i] ("-o"), read as "-oxxx",
      "-o xxx", "-o=xxx" or, when nothing follows in argv[i], the next
      argument "-o" "xxx".  Also gives the updated `i`: the index of the
      argument consumed, or argc when the value is missing (NULL). */
  function Argstr(argv: seq<seq<char>>, i: nat): (r: (Option<ArgPos>, nat))
    requires i < |argv| && 2 <= |argv[i]|
    ensures r.0.None? <==> r.1 == |argv|
    ensures r.0.Some? && r.1 == i ==>
              r.0.value.arg == i && 2 <= r.0.value.offset < |argv[i]| && !IsSpace(argv[i][r.0.value.offset])
              && forall k :: 2 <= k < r.0.value.offset ==> IsSpace(argv[i][k]) || argv[i][k] == '='
    ensures r.1 != i ==> (r.1 == i + 1 && r.0 == Some(ArgPos(i + 1, 0))) || (i == |argv| - 1 && r.0.None?)
    ensures r.1 != i ==> forall k :: 2 <= k < |argv[i]| ==> IsSpace(argv[i][k]) || argv[i][k] == '='
  {
    var a := argv[i];
    var c0 := SpanSpace(a, 2);
    var c1 := if At(a, c0) == '=' then c0 + 1 else c0;
    var c2 := SpanSpace(a, c1);
    if c2 < |a| then (Some(ArgPos(i, c2)), i)
    else if i == |argv| - 1 then (None, |argv|)
    else (Some(ArgPos(i + 1, 0)), i + 1)
  }

  lemma ArgstrExamples()
    ensures Argstr(["-ofoo"], 0) == (Some(ArgPos(0, 2)), 0)
    ensures Argstr(["-o=foo"], 0) == (Some(ArgPos(0, 3)), 0)
    ensures Argstr(["-o", "foo"], 0) == (Some(ArgPos(1, 0)), 1)
    ensures Argstr(["-o"], 0) == (None, 1)
  {
    assert SpanSpace("-o=foo", 3) == 3;
    assert SpanSpace("-o=foo", 2) == 2;
    assert SpanSpace("-ofoo", 2) == 2;
  }
}
