/**
  The text helpers of MoreUtil.cpp: membership of a string in a vector of
  strings, splitting a ';'-separated list, delimited substrings, trimming,
  C++-comment-aware brace matching, myatof's number text, itoacommas,
  buffer comparison, keyword advance and the quote-aware tokenizer.

  As in StrUtil, a `const char*` argument is its NUL-free content and a
  returned pointer is a position; `vector<String>` is a sequence of strings.
*/
module MoreUtil {
  import opened Wrappers
  import opened CLib
  import opened StrUtilH
  import opened StrUtil

  // ---- IsStringIn*Vec* ----

  /** The six membership tests differ only in how `str` is compared with an element. */
  datatype VecMatch = Same | ISame | Prefix | IPrefixOf | Portion | IPortion

  /** Does element `e` satisfy the test `how` against `str`? */
  predicate Matches(how: VecMatch, str: seq<char>, e: seq<char>)
    requires NulFree(str) && NulFree(e)
  {
    match how
    case Same => Strsame(str, e)
    case ISame => Strisame(str, e)
    case Prefix => e <= str
    case IPrefixOf => IPrefix(e, str)
    case Portion => StrStr(str, e).Some?
    case IPortion => 1 <= |e| && exists q :: 0 <= q <= |str| && IMatchAt(str, e, q)
  }

  predicate AllNulFree(vec: seq<seq<char>>)
  {
    forall i :: 0 <= i < |vec| ==> NulFree(vec[i])
  }

  /** The loop shared by the six functions: is some element a match? */
  method IsStringInVec(str: seq<char>, vec: seq<seq<char>>, how: VecMatch) returns (r: bool)
    requires NulFree(str) && AllNulFree(vec)
    ensures r <==> exists i :: 0 <= i < |vec| && Matches(how, str, vec[i])
  {
    var i := 0;
    while i < |vec|
      invariant i <= |vec|
      invariant forall k :: 0 <= k < i ==> !Matches(how, str, vec[k])
    {
      var hit: bool;
      match how {
        case Same => hit := Strsame(str, vec[i]);
        case ISame => hit := Strisame(str, vec[i]);
        case Prefix => hit := Strpresame(str, vec[i]);
        case IPrefixOf => hit := Stripresame(str, vec[i]);
        case Portion => hit := StrStr(str, vec[i]).Some?;
        case IPortion =>
          var found := Stristr(str, vec[i]);
          hit := found.Some?;
      }
      if hit {
        return true;
      }
      i := i + 1;
    }
    return false;
  }

  /** IsStringInVecI: some element equals `str` ignoring case. */
  method IsStringInVecI(str: seq<char>, vec: seq<seq<char>>) returns (r: bool)
    requires NulFree(str) && AllNulFree(vec)
    ensures r <==> exists i :: 0 <= i < |vec| && |vec[i]| == |str|
                     && forall k :: 0 <= k < |str| ==> ToLower(str[k]) == ToLower(vec[i][k])
  {
    r := IsStringInVec(str, vec, ISame);
  }

  /** IsStringInVecC: some element equals `str`. */
  method IsStringInVecC(str: seq<char>, vec: seq<seq<char>>) returns (r: bool)
    requires NulFree(str) && AllNulFree(vec)
    ensures r <==> str in vec
  {
    r := IsStringInVec(str, vec, Same);
  }

  /** IsStringPrefixInVecI: some element is a prefix of `str` ignoring case. */
  method IsStringPrefixInVecI(str: seq<char>, vec: seq<seq<char>>) returns (r: bool)
    requires NulFree(str) && AllNulFree(vec)
    ensures r <==> exists i :: 0 <= i < |vec| && IPrefix(vec[i], str)
  {
    r := IsStringInVec(str, vec, IPrefixOf);
  }

  /** IsStringPrefixInVecC: some element is a prefix of `str` (an empty element always is). */
  method IsStringPrefixInVecC(str: seq<char>, vec: seq<seq<char>>) returns (r: bool)
    requires NulFree(str) && AllNulFree(vec)
    ensures r <==> exists i :: 0 <= i < |vec| && vec[i] <= str
    ensures [] in vec ==> r
  {
    r := IsStringInVec(str, vec, Prefix);
    if [] in vec {
      var i :| 0 <= i < |vec| && vec[i] == [];
      assert Matches(Prefix, str, vec[i]);
    }
  }

  /** IsStringPortionInVecI: some non-empty element occurs in `str` ignoring case. */
  method IsStringPortionInVecI(str: seq<char>, vec: seq<seq<char>>) returns (r: bool)
    requires NulFree(str) && AllNulFree(vec)
    ensures r <==> exists i :: 0 <= i < |vec| && 1 <= |vec[i]|
                     && exists q :: 0 <= q <= |str| && IMatchAt(str, vec[i], q)
  {
    r := IsStringInVec(str, vec, IPortion);
  }

  /** IsStringPortionInVecC: some element occurs in `str`; strstr finds an empty element. */
  method IsStringPortionInVecC(str: seq<char>, vec: seq<seq<char>>) returns (r: bool)
    requires NulFree(str) && AllNulFree(vec)
    ensures r <==> exists i :: 0 <= i < |vec| && exists q :: 0 <= q <= |str| && MatchAt(str, vec[i], q)
  {
    r := IsStringInVec(str, vec, Portion);
  }

  // ---- ParseSemicolonsToStringVec ----

  /** The pieces of `s[i..]` between the separators `c`: one more than there are separators. */
  function SplitFrom(s: seq<char>, c: char, i: nat): (parts: seq<seq<char>>)
    requires i <= |s|
    ensures 1 <= |parts| && forall k :: 0 <= k < |parts| ==> c !in parts[k]
    decreases |s| - i
  {
    if c in s[i..] then
      var k := FirstIndex(s, c, i);
      assert c !in s[i..k];
      [s[i..k]] + SplitFrom(s, c, k + 1)
    else [s[i..]]
  }

  /** The pieces joined again with `c` between them. */
  function Join(parts: seq<seq<char>>, c: char): seq<char>
    requires 1 <= |parts|
  {
    if |parts| == 1 then parts[0] else parts[0] + [c] + Join(parts[1..], c)
  }

  /** Join of a piece followed by at least one more. */
  lemma JoinCons(p0: seq<char>, rest: seq<seq<char>>, c: char)
    requires 1 <= |rest|
    ensures Join([p0] + rest, c) == p0 + [c] + Join(rest, c)
  {
    var parts := [p0] + rest;
    assert parts[0] == p0 && parts[1..] == rest;
  }

  /** A slice cut in three around position `k`. */
  lemma SliceAround(s: seq<char>, i: nat, k: nat)
    requires i <= k < |s|
    ensures s[i..] == s[i..k] + [s[k]] + s[k + 1..]
  {
  }

  /** Joining the pieces gives back the text. */
  lemma {:induction false} JoinSplit(s: seq<char>, c: char, i: nat)
    requires i <= |s|
    ensures Join(SplitFrom(s, c, i), c) == s[i..]
    decreases |s| - i
  {
    if c in s[i..] {
      var k := FirstIndex(s, c, i);
      var rest := SplitFrom(s, c, k + 1);
      assert SplitFrom(s, c, i) == [s[i..k]] + rest;
      JoinSplit(s, c, k + 1);
      JoinCons(s[i..k], rest, c);
      SliceAround(s, i, k);
    }
  }

  /** Splitting the joined pieces gives back the pieces, as long as none holds `c`. */
  lemma SplitJoin(parts: seq<seq<char>>, c: char)
    requires 1 <= |parts| && forall k :: 0 <= k < |parts| ==> c !in parts[k]
    ensures SplitFrom(Join(parts, c), c, 0) == parts
  {
    var s := Join(parts, c);
    assert s[0..] == s;
    SplitJoinAt(s, 0, parts, c);
  }

  lemma {:induction false} SplitJoinAt(s: seq<char>, i: nat, parts: seq<seq<char>>, c: char)
    requires i <= |s| && 1 <= |parts| && forall k :: 0 <= k < |parts| ==> c !in parts[k]
    requires s[i..] == Join(parts, c)
    ensures SplitFrom(s, c, i) == parts
    decreases |parts|, 1
  {
    if |parts| == 1 {
      SplitJoinOne(s, i, parts, c);
    } else {
      SplitJoinMore(s, i, parts, c);
    }
  }

  /** Two or more pieces: the first, then the split of the rest. */
  lemma {:induction false} SplitJoinMore(s: seq<char>, i: nat, parts: seq<seq<char>>, c: char)
    requires i <= |s| && 2 <= |parts| && forall k :: 0 <= k < |parts| ==> c !in parts[k]
    requires s[i..] == Join(parts, c)
    ensures SplitFrom(s, c, i) == parts
    decreases |parts|, 0
  {
    SplitJoinPrep(s, i, parts, c);
    var j, rest := i + |parts[0]| + 1, parts[1..];
    SplitJoinAt(s, j, rest, c);
    SplitJoinCons(s, i, parts, c, j, rest);
  }

  /** A single piece is the whole rest of the text. */
  lemma SplitJoinOne(s: seq<char>, i: nat, parts: seq<seq<char>>, c: char)
    requires i <= |s| && |parts| == 1 && c !in parts[0] && s[i..] == Join(parts, c)
    ensures SplitFrom(s, c, i) == parts
  {
  }

  /** With two or more pieces, the rest of the text after the first
      separator is the join of the other pieces. */
  lemma SplitJoinPrep(s: seq<char>, i: nat, parts: seq<seq<char>>, c: char)
    requires i <= |s| && 2 <= |parts| && forall k :: 0 <= k < |parts| ==> c !in parts[k]
    requires s[i..] == Join(parts, c)
    ensures i + |parts[0]| + 1 <= |s| && s[i + |parts[0]| + 1..] == Join(parts[1..], c)
    ensures forall k :: 0 <= k < |parts[1..]| ==> c !in parts[1..][k]
  {
    var p0, rest := parts[0], parts[1..];
    forall k | 0 <= k < |rest| ensures c !in rest[k] {
      assert rest[k] == parts[k + 1];
    }
    SplitPieces(s, i, i + |p0|, p0, c, Join(rest, c));
  }

  /** The first piece split off in front of the split of the rest. */
  lemma SplitJoinCons(s: seq<char>, i: nat, parts: seq<seq<char>>, c: char, j: nat, rest: seq<seq<char>>)
    requires i <= |s| && 2 <= |parts| && forall k :: 0 <= k < |parts| ==> c !in parts[k]
    requires s[i..] == Join(parts, c)
    requires j == i + |parts[0]| + 1 <= |s| && rest == parts[1..] && SplitFrom(s, c, j) == rest
    ensures SplitFrom(s, c, i) == parts
  {
    var p0, k := parts[0], j - 1;
    JoinFirst(parts, c);
    SplitPieces(s, i, k, p0, c, Join(rest, c));
    SplitFromAt(s, c, i, k, j);
    assert parts == [p0] + rest;
  }

  /** Join of two or more pieces: the first, the separator, the rest. */
  lemma JoinFirst(parts: seq<seq<char>>, c: char)
    requires 2 <= |parts|
    ensures Join(parts, c) == parts[0] + [c] + Join(parts[1..], c)
  {
  }

  /** Where the first piece, the separator and the tail sit in `s`. */
  lemma SplitPieces(s: seq<char>, i: nat, k: nat, p0: seq<char>, c: char, tail: seq<char>)
    requires i <= |s| && k == i + |p0| && s[i..] == p0 + [c] + tail
    ensures k < |s| && s[i..k] == p0 && s[k] == c && s[k + 1..] == tail
  {
    var x := s[i..];
    assert x[..|p0|] == p0;
    assert x[|p0|] == c;
    assert x[|p0| + 1..] == tail;
  }

  /** One piece split off at the first separator `k`. */
  lemma SplitFromAt(s: seq<char>, c: char, i: nat, k: nat, j: nat)
    requires i <= k < |s| && s[k] == c && c !in s[i..k] && j == k + 1
    ensures SplitFrom(s, c, i) == [s[i..k]] + SplitFrom(s, c, j)
  {
    FirstIndexAt(s, c, i, k);
  }

  /** The last piece: no separator is left. */
  lemma SplitFromLast(s: seq<char>, c: char, i: nat, piece: seq<char>)
    requires i <= |s| && c !in s[i..|s|] && piece == s[i..|s|]
    ensures SplitFrom(s, c, i) == [piece]
  {
    assert s[i..] == s[i..|s|];
  }

  /** Moving one piece from the front of the rest to the end of the output. */
  lemma Regroup(out: seq<seq<char>>, piece: seq<char>, later: seq<seq<char>>)
    ensures (out + [piece]) + later == out + ([piece] + later)
  {
  }

  /** FirstIndex finds the first `c` when everything before it differs. */
  lemma FirstIndexAt(s: seq<char>, c: char, i: nat, k: nat)
    requires i <= k < |s| && s[k] == c && c !in s[i..k]
    ensures c in s[i..] && FirstIndex(s, c, i) == k
  {
    assert s[i..][k - i] == c;
  }

  /** strchrorend: the first `c` at or after `p`, or the end of the string. */
  function Strchrorend(s: seq<char>, c: char, p: nat): (q: nat)
    requires p <= |s|
    ensures p <= q <= |s| && (q < |s| ==> s[q] == c) && c !in s[p..q]
  {
    if c in s[p..] then FirstIndex(s, c, p) else |s|
  }

  /** ParseSemicolonsToStringVec: appends the ';'-separated pieces of the filter
      (cut to the 255 chars strlcpy keeps) to `vec`; a NULL filter adds nothing. */
  method ParseSemicolonsToStringVec(filter: Option<seq<char>>, vec: seq<seq<char>>)
    returns (out: seq<seq<char>>)
    requires filter.Some? ==> NulFree(filter.value)
    ensures filter.None? ==> out == vec
    ensures filter.Some? ==>
              out == vec + SplitFrom(filter.value[..Min(|filter.value|, 255)], ';', 0)
  {
    out := vec;
    if filter.Some? {
      var extWork := new char[260];
      Strlcpy(extWork, filter.value, 256);
      var t := CStr(extWork[..]);
      out := PushPieces(t, vec);
    }
  }

  /** The loop of ParseSemicolonsToStringVec: each piece up to the next ';'
      (or the end) is pushed in turn. */
  method PushPieces(t: seq<char>, vec: seq<seq<char>>) returns (out: seq<seq<char>>)
    ensures out == vec + SplitFrom(t, ';', 0)
  {
    out := vec;
    var ptr := 0;
    while true
      invariant ptr <= |t|
      invariant out + SplitFrom(t, ';', ptr) == vec + SplitFrom(t, ';', 0)
      decreases |t| - ptr
    {
      var end := Strchrorend(t, ';', ptr);
      var piece := t[ptr..end];
      if end == |t| {
        SplitFromLast(t, ';', ptr, piece);
        out := out + [piece];
        return;
      }
      var next := end + 1;
      SplitFromAt(t, ';', ptr, end, next);
      Regroup(out, piece, SplitFrom(t, ';', next));
      out := out + [piece];
      ptr := next;
    }
  }

  // ---- GetSubStr ----

  /** The substring found and the position `*pAfter` is left at. */
  datatype SubStr = SubStr(text: seq<char>, after: nat)

  /** GetSubStr: the text strictly between the first `startDelim` and the next
      `endDelim` after it, with `after` just past `endDelim`; the empty string
      and `after == 0` (the start) when either is missing. */
  function GetSubStr(s: seq<char>, startDelim: char, endDelim: char): (r: SubStr)
    requires NulFree(s) && startDelim != Nul
    ensures r.after == 0 <==> (startDelim !in s ||
              (endDelim != Nul && endDelim !in s[FirstIndex(s, startDelim, 0) + 1..]))
    ensures r.after == 0 ==> r.text == []
    ensures r.after != 0 ==>
              var p1 := r.after - 2 - |r.text|;
              0 <= p1 && p1 + 1 + |r.text| <= |s| && s[p1] == startDelim && startDelim !in s[..p1]
              && r.text == s[p1 + 1..p1 + 1 + |r.text|] && endDelim !in r.text
              && At(s, r.after - 1) == endDelim
  {
    match StrChr(s, startDelim)
    case None => SubStr([], 0)
    case Some(p1) =>
      assert FirstIndex(s, startDelim, 0) == p1;
      var rest := s[p1 + 1..];
      match StrChr(rest, endDelim)
      case None => SubStr([], 0)
      case Some(k) =>
        assert endDelim !in rest[..k];
        assert At(s, p1 + 1 + k) == At(rest, k);
        assert startDelim !in s[..p1];
        assert rest[..k] == s[p1 + 1..p1 + 1 + k];
        SubStr(rest[..k], p1 + 1 + k + 1)
  }

  /** GetSubStr finds what was wrapped in the delimiters. */
  lemma GetSubStrOfWrapped(a: seq<char>, startDelim: char, t: seq<char>, endDelim: char, b: seq<char>)
    requires NulFree(a + t + b) && startDelim != Nul && endDelim != Nul
    requires startDelim !in a && endDelim !in t
    ensures NulFree(a + [startDelim] + t + [endDelim] + b)
    ensures GetSubStr(a + [startDelim] + t + [endDelim] + b, startDelim, endDelim)
            == SubStr(t, |a| + |t| + 2)
  {
    var s := a + [startDelim] + t + [endDelim] + b;
    assert forall k :: 0 <= k < |s| ==> s[k] != Nul by {
      forall k | 0 <= k < |s| ensures s[k] != Nul {
        if k < |a| { assert s[k] == (a + t + b)[k]; }
        else if |a| < k < |a| + 1 + |t| { assert s[k] == (a + t + b)[k - 1]; }
        else if k > |a| + |t| + 1 { assert s[k] == (a + t + b)[k - 2]; }
      }
    }
    assert s[..|a|] == a;
    assert s[|a|] == startDelim;
    assert startDelim in s;
    assert FirstIndex(s, startDelim, 0) == |a|;
    var rest := s[|a| + 1..];
    assert rest == t + [endDelim] + b;
    assert rest[..|t|] == t && rest[|t|] == endDelim;
    assert rest[|t|] == endDelim;
    assert FirstIndex(rest, endDelim, 0) == |t|;
  }

  // ---- KillHeadTailWhite ----

  /** skipwhitebackwards(ptr, start): steps back over white space but never
      below `start` (position 0 here); -1 stands for the position before an
      empty string. */
  function SkipWhiteBackwards(r: seq<char>, e: int): (f: int)
    requires -1 <= e < |r|
    ensures -1 <= f <= e && (f > 0 ==> !IsSpace(r[f]))
    ensures forall k :: f < k <= e ==> IsSpace(r[k])
    ensures f == -1 <==> e == -1
    decreases e + 1
  {
    if e > 0 && IsSpace(r[e]) then SkipWhiteBackwards(r, e - 1) else e
  }

  /** The string without its leading and trailing white space. */
  function Trimmed(s: seq<char>): (t: seq<char>)
    requires NulFree(s)
  {
    TrimEnd(s[SpanSpace(s, 0)..])
  }

  /** KillHeadTailWhite as written: the `end <= str` test also fires when the
      trimmed text is a single char, which is then dropped. */
  function KillHeadTailWhite(s: seq<char>): (t: seq<char>)
    requires NulFree(s)
    ensures |t| != 1
  {
    var r := s[SpanSpace(s, 0)..];
    var e := SkipWhiteBackwards(r, |r| - 1);
    if e <= 0 then [] else r[..e + 1]
  }

  /** KillHeadTailWhite trims both ends, except that it gives "" whenever the
      trimmed text has fewer than two chars. */
  lemma KillHeadTailWhiteTrims(s: seq<char>)
    requires NulFree(s)
    ensures KillHeadTailWhite(s) == if |Trimmed(s)| <= 1 then [] else Trimmed(s)
  {
    var r := s[SpanSpace(s, 0)..];
    var e := SkipWhiteBackwards(r, |r| - 1);
    if e > 0 {
      TrimEndAt(r, e + 1);
    } else if e == 0 {
      TrimEndAt(r, 1);
    } else {
      TrimEndAt(r, 0);
    }
  }

  /** What KillHeadTailWhite is for: the text with no white space at either end,
      kept whatever its length. */
  function KillHeadTailWhiteIntended(s: seq<char>): (t: seq<char>)
    requires NulFree(s)
    ensures t == [] || (!IsSpace(t[0]) && !IsSpace(t[|t| - 1]))
    ensures var a := SpanSpace(s, 0);
              a + |t| <= |s| && s[a..a + |t|] == t
              && (forall k :: 0 <= k < a ==> IsSpace(s[k]))
              && (forall k :: a + |t| <= k < |s| ==> IsSpace(s[k]))
  {
    var a := SpanSpace(s, 0);
    var t := Trimmed(s);
    assert t <= s[a..];
    assert t != [] ==> t[0] == s[a];
    assert s[a..a + |t|] == t;
    assert forall k :: a + |t| <= k < |s| ==> s[k] == s[a..][k - a];
    t
  }

  /** The discrepancy: a lone non-white char is dropped. */
  lemma KillHeadTailWhiteDropsOneChar()
    ensures KillHeadTailWhite([' ', 'x', ' ']) == []
    ensures KillHeadTailWhiteIntended([' ', 'x', ' ']) == ['x']
  {
    var s := [' ', 'x', ' '];
    assert SpanSpace(s, 0) == 1;
    var r := s[1..];
    assert r == ['x', ' '];
    assert SkipWhiteBackwards(r, 1) == 0;
    assert TrimEnd(r) == ['x'] by { TrimEndAt(r, 1); }
  }

  /** The intended version keeps every trimmed text, the as-written one only
      those of two or more chars. */
  lemma KillHeadTailWhiteAgrees(s: seq<char>)
    requires NulFree(s)
    ensures |KillHeadTailWhiteIntended(s)| >= 2 ==> KillHeadTailWhite(s) == KillHeadTailWhiteIntended(s)
    ensures |KillHeadTailWhiteIntended(s)| <= 1 ==> KillHeadTailWhite(s) == []
  {
    KillHeadTailWhiteTrims(s);
  }

  /** KillHeadTailWhiteAndQuotes: KillHeadTailWhite, then one pair of matching
      surrounding '"' or '\'' removed. */
  function KillHeadTailWhiteAndQuotes(s: seq<char>): (t: seq<char>)
    requires NulFree(s)
  {
    var k := KillHeadTailWhite(s);
    if |k| >= 2 && ((k[0] == '"' && k[|k| - 1] == '"') || (k[0] == '\'' && k[|k| - 1] == '\''))
    then k[1..|k| - 1]
    else k
  }

  /** A quoted string, with white space around it, comes back without its quotes. */
  lemma KillHeadTailWhiteAndQuotesUnquotes(w1: seq<char>, q: char, x: seq<char>, w2: seq<char>)
    requires q == '"' || q == '\''
    requires NulFree(x) && forall k :: 0 <= k < |w1| ==> IsSpace(w1[k])
    requires forall k :: 0 <= k < |w2| ==> IsSpace(w2[k])
    ensures NulFree(w1 + [q] + x + [q] + w2)
    ensures KillHeadTailWhiteAndQuotes(w1 + [q] + x + [q] + w2) == x
  {
    var y := [q] + x + [q];
    assert w1 + [q] + x + [q] + w2 == w1 + y + w2;
    NulFreeWrapped(w1, y, w2);
    TrimmedOfWrapped(w1, y, w2);
    KillHeadTailWhiteTrims(w1 + y + w2);
    assert y[1..|y| - 1] == x;
  }

  /** White space around a NUL-free text leaves it NUL-free. */
  lemma NulFreeWrapped(w1: seq<char>, y: seq<char>, w2: seq<char>)
    requires NulFree(y) && forall k :: 0 <= k < |w1| ==> IsSpace(w1[k])
    requires forall k :: 0 <= k < |w2| ==> IsSpace(w2[k])
    ensures NulFree(w1 + y + w2)
  {
    var s := w1 + y + w2;
    forall k | 0 <= k < |s| ensures s[k] != Nul {
      if k < |w1| {
        assert s[k] == w1[k];
      } else if k < |w1| + |y| {
        assert s[k] == y[k - |w1|];
      } else {
        assert s[k] == w2[k - |w1| - |y|];
      }
    }
  }

  /** Trimming white space around a text that starts and ends with non-white
      chars gives back the text. */
  lemma TrimmedOfWrapped(w1: seq<char>, y: seq<char>, w2: seq<char>)
    requires NulFree(w1 + y + w2) && 1 <= |y| && !IsSpace(y[0]) && !IsSpace(y[|y| - 1])
    requires forall k :: 0 <= k < |w1| ==> IsSpace(w1[k])
    requires forall k :: 0 <= k < |w2| ==> IsSpace(w2[k])
    ensures Trimmed(w1 + y + w2) == y
  {
    var s := w1 + y + w2;
    assert s[|w1|] == y[0];
    assert forall k :: 0 <= k < |w1| ==> s[k] == w1[k];
    SpanSpaceAt(s, |w1|);
    var r := s[|w1|..];
    assert r == y + w2;
    assert r[|y| - 1] == y[|y| - 1];
    assert forall k :: |y| <= k < |r| ==> r[k] == w2[k - |y|];
    TrimEndAt(r, |y|);
    assert r[..|y|] == y;
  }

  /** SpanSpace stops exactly at the first non-white char. */
  lemma SpanSpaceAt(s: seq<char>, n: nat)
    requires n < |s| && !IsSpace(s[n]) && forall k :: 0 <= k < n ==> IsSpace(s[k])
    ensures SpanSpace(s, 0) == n
  {
  }

  // ---- SkipCppComments / FindMatchingBrace ----

  /** strstrorend: the first match of `pat` at or after `p`, or the end of the string. */
  function Strstrorend(s: seq<char>, pat: seq<char>, p: nat): (q: nat)
    requires p <= |s|
    ensures p <= q <= |s|
  {
    match StrStrFrom(s, pat, p)
    case Some(k) => k
    case None => |s|
  }

  /** Strstrorend stops at the first match of `pat`, or at the end when there is none. */
  lemma StrstrorendFirst(s: seq<char>, pat: seq<char>, p: nat)
    requires p <= |s|
    ensures var q := Strstrorend(s, pat, p);
            (q < |s| ==> MatchAt(s, pat, q)) && forall k :: p <= k < q ==> !MatchAt(s, pat, k)
  {
  }

  /** SkipCppComments: at "//" skips to the next newline (or the end), at "/*"
      to the next "*/" (or the end); anywhere else stays put. */
  function SkipCppComments(s: seq<char>, p: nat): (q: nat)
    requires p <= |s|
    ensures p <= q <= |s|
  {
    if At(s, p) == '/' && At(s, p + 1) == '/' then Strchrorend(s, '\n', p + 2)
    else if At(s, p) == '/' && At(s, p + 1) == '*' then Strstrorend(s, ['*', '/'], p + 2)
    else p
  }

  /** What SkipCppComments skips: a "//" comment up to its newline, a block
      comment up to its closing star-slash, and nothing elsewhere. */
  lemma SkipCppCommentsSkips(s: seq<char>, p: nat)
    requires p <= |s|
    ensures var q := SkipCppComments(s, p);
            (q == p <==> !(At(s, p) == '/' && (At(s, p + 1) == '/' || At(s, p + 1) == '*')))
            && (At(s, p) == '/' && At(s, p + 1) == '/' ==>
                  p + 2 <= q && (q < |s| ==> s[q] == '\n') && '\n' !in s[p + 2..q])
            && (At(s, p) == '/' && At(s, p + 1) == '*' ==>
                  p + 2 <= q && (q < |s| ==> MatchAt(s, ['*', '/'], q))
                  && forall k :: p + 2 <= k < q ==> !MatchAt(s, ['*', '/'], k))
  {
    if At(s, p) == '/' && At(s, p + 1) == '*' {
      StrstrorendFirst(s, ['*', '/'], p + 2);
    }
  }

  /** The scan of FindMatchingBrace from `p` at nesting `depth`: one past the
      `close` met at depth 0, or None when the text ends first. */
  function BraceScan(s: seq<char>, p: nat, depth: nat, open: char, close: char): (r: Option<nat>)
    requires p <= |s|
    ensures r.Some? ==> p < r.value <= |s| && s[r.value - 1] == close
    decreases |s| - p
  {
    var q := SkipCppComments(s, p);
    if q == |s| then None
    else
      var d1 := Opened(s[q], depth, open);
      if s[q] == close && d1 == 0 then Some(q + 1)
      else BraceScan(s, q + 1, if s[q] == close then d1 - 1 else d1, open, close)
  }

  /** FindMatchingBrace: from the `open` at `start`, one past the `close` that
      balances it, skipping C++ comments; None (NULL) if the text ends first. */
  method FindMatchingBrace(s: seq<char>, start: nat, open: char, close: char) returns (r: Option<nat>)
    requires NulFree(s) && start < |s| && s[start] == open
    ensures r == BraceScan(s, start + 1, 0, open, close)
    ensures r.Some? ==> start + 1 < r.value <= |s| && s[r.value - 1] == close
  {
    ghost var goal := BraceScan(s, start + 1, 0, open, close);
    assert goal.Some? ==> start + 1 < goal.value <= |s| && s[goal.value - 1] == close;
    var ptr := start + 1;
    var depth: nat := 0;
    while true
      invariant start + 1 <= ptr <= |s|
      invariant BraceScan(s, ptr, depth, open, close) == goal
      decreases |s| - ptr
    {
      var done, found, next, d := BraceRound(s, ptr, depth, open, close);
      if done {
        return found;
      }
      ptr, depth := next, d;
    }
  }

  /** One pass of the loop of FindMatchingBrace: skip a comment, then either
      stop (at the end, or at the balancing `close`) or step past one char. */
  method BraceRound(s: seq<char>, p: nat, depth: nat, open: char, close: char)
    returns (done: bool, found: Option<nat>, next: nat, d: nat)
    requires p <= |s|
    ensures done ==> found == BraceScan(s, p, depth, open, close)
    ensures !done ==> p < next <= |s| && BraceScan(s, next, d, open, close) == BraceScan(s, p, depth, open, close)
  {
    var ptr := SkipCppComments(s, p);
    if ptr == |s| {
      BraceScanEnd(s, p, depth, open, close);
      return true, None, 0, 0;
    }
    var c := s[ptr];
    d := Opened(c, depth, open);
    if c == close && d == 0 {
      BraceScanMatch(s, p, ptr, depth, open, close);
      return true, Some(ptr + 1), 0, 0;
    }
    d := if c == close then d - 1 else d;
    BraceScanGoOn(s, p, ptr, depth, d, open, close);
    done, found, next := false, None, ptr + 1;
  }

  /** The text ends (after a comment, perhaps) before any balancing `close`. */
  lemma BraceScanEnd(s: seq<char>, p: nat, depth: nat, open: char, close: char)
    requires p <= |s| && SkipCppComments(s, p) == |s|
    ensures BraceScan(s, p, depth, open, close) == None
  {
  }

  /** The char after the skipped comment is the balancing `close`. */
  lemma BraceScanMatch(s: seq<char>, p: nat, q: nat, depth: nat, open: char, close: char)
    requires p <= |s| && q == SkipCppComments(s, p) && q < |s|
    requires s[q] == close && Opened(s[q], depth, open) == 0
    ensures BraceScan(s, p, depth, open, close) == Some(q + 1)
  {
  }

  /** Any other char: the scan goes on past it at depth `d2`. */
  lemma BraceScanGoOn(s: seq<char>, p: nat, q: nat, depth: nat, d2: nat, open: char, close: char)
    requires p <= |s| && q == SkipCppComments(s, p) && q < |s|
    requires !(s[q] == close && Opened(s[q], depth, open) == 0)
    requires d2 == Opened(s[q], depth, open) - (if s[q] == close then 1 else 0)
    ensures BraceScan(s, p, depth, open, close) == BraceScan(s, q + 1, d2, open, close)
  {
  }

  /** The depth after an `open`. */
  function Opened(c: char, depth: nat, open: char): (d: nat)
    ensures d == depth || d == depth + 1
  {
    if c == open then depth + 1 else depth
  }

  /** How much a char changes the nesting depth. */
  function Delta(c: char, open: char, close: char): int
  {
    (if c == open then 1 else 0) - (if c == close then 1 else 0)
  }

  /** The nesting depth gained over `s[p..k]`. */
  function Depth(s: seq<char>, p: nat, k: nat, open: char, close: char): int
    requires p <= k <= |s|
    decreases k - p
  {
    if p == k then 0 else Delta(s[p], open, close) + Depth(s, p + 1, k, open, close)
  }

  predicate NoSlash(s: seq<char>, p: nat)
  {
    forall k :: p <= k < |s| ==> s[k] != '/'
  }

  /** On text without comments, the scan stops at the first point where the
      depth drops below zero, and fails only if it never does. */
  lemma {:induction false} BraceScanBalances(s: seq<char>, p: nat, depth: nat, open: char, close: char)
    requires p <= |s| && open != close && NoSlash(s, p)
    ensures var r := BraceScan(s, p, depth, open, close);
            (r.Some? ==> depth + Depth(s, p, r.value, open, close) == -1
                         && forall k :: p <= k < r.value ==> depth + Depth(s, p, k, open, close) >= 0)
            && (r.None? ==> forall k :: p <= k <= |s| ==> depth + Depth(s, p, k, open, close) >= 0)
    decreases |s| - p
  {
    assert SkipCppComments(s, p) == p;
    if p < |s| {
      var c := s[p];
      if !(c == close && depth == 0) {
        var d2: nat := depth + Delta(c, open, close);
        BraceScanBalances(s, p + 1, d2, open, close);
        assert BraceScan(s, p, depth, open, close) == BraceScan(s, p + 1, d2, open, close);
        forall k | p + 1 <= k <= |s|
          ensures Depth(s, p, k, open, close) == Delta(c, open, close) + Depth(s, p + 1, k, open, close)
        {
        }
      }
    }
  }

  /** FindMatchingBrace, on text without comments: the `close` it stops after
      brings the depth counted from `start` (which includes the `open`) back to
      zero for the first time; when it fails, the depth never returns to zero. */
  lemma FindMatchingBraceBalances(s: seq<char>, start: nat, open: char, close: char)
    requires start < |s| && s[start] == open && open != close && NoSlash(s, start + 1)
    ensures var r := BraceScan(s, start + 1, 0, open, close);
            (r.Some? ==> Depth(s, start, r.value, open, close) == 0
                         && forall k :: start < k < r.value ==> Depth(s, start, k, open, close) >= 1)
            && (r.None? ==> forall k :: start < k <= |s| ==> Depth(s, start, k, open, close) >= 1)
  {
    BraceScanBalances(s, start + 1, 0, open, close);
    forall k | start + 1 <= k <= |s|
      ensures Depth(s, start, k, open, close) == 1 + Depth(s, start + 1, k, open, close)
    {
    }
  }

  /** A brace inside a comment does not count: "{/*}*/}" matches at its end. */
  lemma FindMatchingBraceSkipsComment()
    ensures BraceScan(['{', '/', '*', '}', '*', '/', '}'], 1, 0, '{', '}') == Some(7)
  {
    var s := ['{', '/', '*', '}', '*', '/', '}'];
    assert s[3..5] == ['}', '*'];
    assert s[4..6] == ['*', '/'];
    assert !MatchAt(s, ['*', '/'], 3);
    assert MatchAt(s, ['*', '/'], 4);
    assert StrStrFrom(s, ['*', '/'], 3) == Some(4);
    assert SkipCppComments(s, 1) == 4;
    assert SkipCppComments(s, 5) == 5;
    assert SkipCppComments(s, 6) == 6;
  }

  // ---- myatof ----

  /** The digits and '.' myatof copies from position `p` on, dropping ','. */
  function MyatofDigits(s: seq<char>, p: nat): (t: seq<char>)
    requires p <= |s|
    ensures |t| <= |s| - p
    decreases |s| - p
  {
    if p < |s| && (IsDigit(s[p]) || s[p] == '.') then [s[p]] + MyatofDigits(s, p + 1)
    else if p < |s| && s[p] == ',' then MyatofDigits(s, p + 1)
    else []
  }

  /** Every character is a digit or '.'. */
  predicate DigitsOrPoints(t: seq<char>)
  {
    forall k :: 0 <= k < |t| ==> IsDigit(t[k]) || t[k] == '.'
  }

  /** The copy keeps only digits and '.'. */
  lemma {:induction false} MyatofDigitsChars(s: seq<char>, p: nat)
    requires p <= |s|
    ensures DigitsOrPoints(MyatofDigits(s, p))
    decreases |s| - p
  {
    if p < |s| && (IsDigit(s[p]) || s[p] == '.') {
      MyatofDigitsChars(s, p + 1);
      var t := MyatofDigits(s, p + 1);
      var u := MyatofDigits(s, p);
      assert u == [s[p]] + t;
      forall k | 0 <= k < |u|
        ensures IsDigit(u[k]) || u[k] == '.'
      {
        if k > 0 {
          assert u[k] == t[k - 1];
        }
      }
    } else if p < |s| && s[p] == ',' {
      MyatofDigitsChars(s, p + 1);
    }
  }

  /** The text myatof hands to atof: white space, then an optional '$' and an
      optional '+' are skipped, a '-' is kept, then digits and '.' with the
      ',' separators removed. */
  function MyatofText(s: seq<char>): (t: seq<char>)
    requires NulFree(s)
    ensures |t| <= |s|
  {
    var p := MyatofStart(s);
    if At(s, p) == '-' then ['-'] + MyatofDigits(s, p + 1)
    else MyatofDigits(s, p)
  }

  /** Where the number starts: after white space, an optional '$' and an optional '+'. */
  function MyatofStart(s: seq<char>): (p: nat)
    requires NulFree(s)
    ensures p <= |s|
  {
    var p0 := SpanSpace(s, 0);
    var p1 := if At(s, p0) == '$' then p0 + 1 else p0;
    if At(s, p1) == '+' then p1 + 1 else p1
  }

  /** What myatof hands to atof is a number: digits and '.', after at most a
      leading '-'. */
  lemma MyatofTextChars(s: seq<char>)
    requires NulFree(s)
    ensures var t := MyatofText(s);
            (|t| > 0 && t[0] == '-' ==> DigitsOrPoints(t[1..]))
            && (t == [] || t[0] != '-' ==> DigitsOrPoints(t))
  {
    var p2 := MyatofStart(s);
    if At(s, p2) == '-' {
      MyatofDigitsChars(s, p2 + 1);
      assert MyatofText(s)[1..] == MyatofDigits(s, p2 + 1);
    } else {
      MyatofDigitsChars(s, p2);
      var d := MyatofDigits(s, p2);
      assert d == [] || d[0] != '-';
    }
  }

  /** myatof up to the call to atof: the text it builds in its buffer. */
  method Myatof(input: seq<char>) returns (buffer: seq<char>)
    requires NulFree(input)
    ensures buffer == MyatofText(input)
  {
    var ptr := Skipwhitespace(input, 0);
    if At(input, ptr) == '$' {
      ptr := ptr + 1;
    }
    if At(input, ptr) == '+' {
      ptr := ptr + 1;
    }
    assert ptr == MyatofStart(input);
    buffer := [];
    if At(input, ptr) == '-' {
      buffer := [input[ptr]];
      ptr := ptr + 1;
    }
    var d := CopyNumber(input, ptr);
    buffer := buffer + d;
  }

  /** The copy loop of myatof: digits and '.' are copied, ',' skipped. */
  method CopyNumber(input: seq<char>, p0: nat) returns (d: seq<char>)
    requires p0 <= |input|
    ensures d == MyatofDigits(input, p0)
  {
    d := [];
    var ptr := p0;
    while At(input, ptr) == ',' || At(input, ptr) == '.' || IsDigit(At(input, ptr))
      invariant p0 <= ptr <= |input|
      invariant d + MyatofDigits(input, ptr) == MyatofDigits(input, p0)
      decreases |input| - ptr
    {
      if input[ptr] == ',' {
        ptr := ptr + 1;
      } else {
        assert MyatofDigits(input, ptr) == [input[ptr]] + MyatofDigits(input, ptr + 1);
        d := d + [input[ptr]];
        ptr := ptr + 1;
      }
    }
    assert MyatofDigits(input, ptr) == [];
  }

  /** Every char of a comma-grouped number is a digit or ',', and the first is a digit. */
  lemma {:induction false} CommasChars(n: nat)
    ensures IsDigit(Commas(n)[0])
    ensures forall k :: 0 <= k < |Commas(n)| ==> IsDigit(Commas(n)[k]) || Commas(n)[k] == ','
    decreases n
  {
    if n >= 1000 {
      CommasChars(n / 1000);
      var a := Commas(n / 1000);
      var z := ZeroPad3(n % 1000);
      assert Commas(n) == a + [','] + z;
      assert forall k :: |a| + 1 <= k < |Commas(n)| ==> Commas(n)[k] == z[k - |a| - 1];
    }
  }

  lemma {:induction false} MyatofDigitsOfGrouped(s: seq<char>, p: nat)
    requires p <= |s| && forall k :: p <= k < |s| ==> IsDigit(s[k]) || s[k] == ','
    ensures MyatofDigits(s, p) == RemoveCommas(s[p..])
    decreases |s| - p
  {
    if p < |s| {
      MyatofDigitsOfGrouped(s, p + 1);
      assert s[p..][1..] == s[p + 1..];
    }
  }

  /** myatof reads back what itoacommas and sprintfcommas write: the text it
      passes on is the plain "%d" text, which atoi reads as the number. */
  lemma MyatofReadsCommas(n: int)
    ensures NulFree(CommasSigned(n))
    ensures MyatofText(CommasSigned(n)) == Decimal(n)
    ensures Atoi(MyatofText(CommasSigned(n))) == n
  {
    AtoiDecimal(n);
    if n < 0 {
      MyatofReadsNegative(n);
    } else {
      MyatofReadsGrouped(n);
    }
  }

  /** myatof on a comma-grouped number: the digits without the commas. */
  lemma MyatofReadsGrouped(n: nat)
    ensures NulFree(CommasSigned(n)) && MyatofText(CommasSigned(n)) == Decimal(n)
  {
    var c := Commas(n);
    assert CommasSigned(n) == c && Decimal(n) == Digits(n);
    CommasChars(n);
    assert NulFree(c);
    assert SpanSpace(c, 0) == 0;
    assert MyatofStart(c) == 0;
    MyatofDigitsOfGrouped(c, 0);
    assert c[0..] == c;
    CommasAreDigits(n);
  }

  /** myatof on a negative comma-grouped number keeps the '-'. */
  lemma MyatofReadsNegative(n: int)
    requires n < 0
    ensures NulFree(CommasSigned(n)) && MyatofText(CommasSigned(n)) == Decimal(n)
  {
    var m: nat := -n;
    var c := Commas(m);
    var s := ['-'] + c;
    assert CommasSigned(n) == s && Decimal(n) == ['-'] + Digits(m);
    CommasChars(m);
    assert s[1..] == c;
    forall k | 1 <= k < |s|
      ensures IsDigit(s[k]) || s[k] == ','
    {
      assert s[k] == c[k - 1];
    }
    assert NulFree(s);
    assert SpanSpace(s, 0) == 0 && At(s, 0) == '-';
    assert MyatofText(s) == ['-'] + MyatofDigits(s, 1);
    MyatofDigitsOfGrouped(s, 1);
    CommasAreDigits(m);
  }

  // ---- itoacommas ----

  /** The chars itoacommas writes for `n` before reversing: digits from the
      least significant, with a ',' before every fourth; `k` digits of the
      current group are already written. */
  function RevGroups(n: int, k: nat): (r: seq<char>)
    requires k <= 3
    ensures forall i :: 0 <= i < |r| ==> r[i] == ',' || IsDigit(r[i])
    decreases n
  {
    if n <= 0 then []
    else (if k == 3 then [','] else []) + [DigitChar(n % 10)] + RevGroups(n / 10, if k == 3 then 1 else k + 1)
  }

  lemma RevGroupsSmall(n: nat)
    requires 1 <= n < 1000
    ensures RevGroups(n, 0) == Reverse(Digits(n))
  {
    if n < 10 {
      assert RevGroups(n, 0) == [DigitChar(n)];
    } else if n < 100 {
      assert RevGroups(n / 10, 1) == [DigitChar(n / 10 % 10)] + RevGroups(n / 100, 2);
      assert n / 100 == 0 && n / 10 % 10 == n / 10;
      assert RevGroups(n, 0) == [DigitChar(n % 10), DigitChar(n / 10)];
      assert Digits(n) == [DigitChar(n / 10), DigitChar(n % 10)];
    } else {
      assert n / 100 / 10 == 0 && n / 100 % 10 == n / 100 && n / 10 / 10 == n / 100;
      assert RevGroups(n / 100, 2) == [DigitChar(n / 100)] + RevGroups(n / 1000, 3);
      assert RevGroups(n / 10, 1) == [DigitChar(n / 10 % 10)] + RevGroups(n / 100, 2);
      assert RevGroups(n, 0) == [DigitChar(n % 10), DigitChar(n / 10 % 10), DigitChar(n / 100)];
      assert Digits(n / 10) == [DigitChar(n / 100), DigitChar(n / 10 % 10)];
      assert Digits(n) == [DigitChar(n / 100), DigitChar(n / 10 % 10), DigitChar(n % 10)];
    }
  }

  lemma RevGroupsThousands(n: nat)
    requires n >= 1000
    ensures RevGroups(n, 0) == Reverse(ZeroPad3(n % 1000)) + [','] + RevGroups(n / 1000, 0)
  {
    var m := n / 1000;
    RevGroupsThree(n);
    assert RevGroups(m, 3) == [','] + RevGroups(m, 0);
    ZeroPad3Digits(n);
  }

  /** Three digits of a number of four or more, least significant first. */
  lemma RevGroupsThree(n: nat)
    requires n >= 1000
    ensures RevGroups(n, 0) == [DigitChar(n % 10), DigitChar(n / 10 % 10), DigitChar(n / 100 % 10)] + RevGroups(n / 1000, 3)
  {
    DivTens(n);
    var n1 := n / 10;
    var n2 := n1 / 10;
    RevGroupsThreeSteps(n, n1, n2, n2 / 10);
  }

  lemma RevGroupsThreeSteps(n: nat, n1: nat, n2: nat, m: nat)
    requires n1 == n / 10 && n2 == n1 / 10 && m == n2 / 10 && m >= 1
    ensures RevGroups(n, 0) == [DigitChar(n % 10), DigitChar(n1 % 10), DigitChar(n2 % 10)] + RevGroups(m, 3)
  {
    RevGroupsStep(n, 0, n1);
    RevGroupsStep(n1, 1, n2);
    RevGroupsStep(n2, 2, m);
    var a, b, c := DigitChar(n % 10), DigitChar(n1 % 10), DigitChar(n2 % 10);
    var tail := RevGroups(m, 3);
    assert [a] + ([b] + ([c] + tail)) == [a, b, c] + tail;
  }

  /** One digit written below the third of a group. */
  lemma RevGroupsStep(n: int, k: nat, next: int)
    requires n > 0 && k < 3 && next == n / 10
    ensures RevGroups(n, k) == [DigitChar(n % 10)] + RevGroups(next, k + 1)
  {
  }

  /** Dividing by ten twice or three times is dividing by a hundred or a thousand. */
  lemma DivTens(n: nat)
    ensures n / 10 / 10 == n / 100 && n / 100 / 10 == n / 1000
    ensures n >= 1000 ==> n / 10 / 10 / 10 >= 1 && n / 10 / 10 >= 1 && n / 10 >= 1
  {
    var q1, r1 := n / 10, n % 10;
    var q2, r2 := q1 / 10, q1 % 10;
    var q3, r3 := q2 / 10, q2 % 10;
    DivModUnique(n, 100, q2, r2 * 10 + r1);
    DivModUnique(n, 1000, q3, r3 * 100 + r2 * 10 + r1);
  }

  lemma ZeroPad3Digits(n: nat)
    ensures Reverse(ZeroPad3(n % 1000)) == [DigitChar(n % 10), DigitChar(n / 10 % 10), DigitChar(n / 100 % 10)]
  {
    var q, r := n / 1000, n % 1000;
    assert n == q * 1000 + r;
    DivModUnique(n, 100, 10 * q + r / 100, r % 100);
    DivModUnique(10 * q + r / 100, 10, q, r / 100);
    DivModUnique(n, 10, 100 * q + r / 10, r % 10);
    DivModUnique(100 * q + r / 10, 10, 10 * q + r / 10 / 10, r / 10 % 10);
  }

  /** Reversed, the written chars are exactly the comma-grouped number. */
  lemma {:induction false} RevGroupsCommas(n: nat)
    requires n >= 1
    ensures Reverse(RevGroups(n, 0)) == Commas(n)
    decreases n
  {
    if n < 1000 {
      RevGroupsSmall(n);
      ReverseReverse(Digits(n));
    } else {
      RevGroupsCommas(n / 1000);
      RevGroupsThousands(n);
      var z := Reverse(ZeroPad3(n % 1000));
      ReverseAppend(z + [','], RevGroups(n / 1000, 0));
      ReverseAppend(z, [',']);
      ReverseReverse(ZeroPad3(n % 1000));
      assert Reverse([',']) == [','];
    }
  }

  /** The body shared by itoacommas and itoacommas64 once the sign is taken:
      writes the digits of `m` (none when `m <= 0`) least significant first
      with ',' every three, a '-' when `neg`, the terminator, then reverses. */
  method ItoacommasDigits(into: array<char>, m: int, neg: bool, ghost e: nat)
    requires m <= 0 || m < 10 * Pow1000(e)
    requires into.Length >= 4 * e + 3
    modifies into
    ensures Nul in into[..]
    ensures CStr(into[..]) == (if neg then ['-'] else []) + (if m > 0 then Commas(m) else [])
  {
    ghost var total := RevGroups(m, 0);
    if m > 0 {
      RevGroupsCommas(m);
      CommasLength(m, e);
    }
    assert |total| <= 4 * e + 1;
    var ptr := WriteRevGroups(into, m);
    FinishReversed(into, ptr, neg);
  }

  /** The end of itoacommas: the sign, the terminator, then strrev. */
  method FinishReversed(into: array<char>, ptr: nat, neg: bool)
    requires ptr + 2 <= into.Length && NulFree(into[..ptr])
    modifies into
    ensures Nul in into[..]
    ensures CStr(into[..]) == (if neg then ['-'] else []) + Reverse(old(into[..ptr]))
  {
    ghost var total := into[..ptr];
    ghost var sign: seq<char> := if neg then ['-'] else [];
    ghost var text := total + sign;
    var end := ptr;
    if neg {
      into[end] := '-';
      end := end + 1;
    }
    into[end] := Nul;
    assert into[..end] == text;
    ghost var rest := into[end + 1..];
    assert NulFree(text);
    CStrOfTerminated(text, rest);
    assert into[..] == text + [Nul] + rest;
    assert CStr(into[..]) == text;
    Strrev(into);
    assert CStr(into[..]) == Reverse(text);
    ReverseAppend(total, sign);
    assert Reverse(sign) == sign;
  }

  /** The digit loop of itoacommas: writes RevGroups(m, 0) at the start of `into`. */
  method WriteRevGroups(into: array<char>, m: int) returns (ptr: nat)
    requires |RevGroups(m, 0)| < into.Length
    modifies into
    ensures ptr == |RevGroups(m, 0)| && into[..ptr] == RevGroups(m, 0)
  {
    ghost var total := RevGroups(m, 0);
    var number := m;
    var numdigits: nat := 0;
    ptr := 0;
    ghost var written: seq<char> := [];
    while number > 0
      invariant numdigits <= 3
      invariant ptr == |written| && ptr + |RevGroups(number, numdigits)| == |total|
      invariant into[..ptr] == written
      invariant written + RevGroups(number, numdigits) == total
      decreases number
    {
      var next := number / 10;
      var cur := number - next * 10;
      var piece := (if numdigits == 3 then [','] else []) + [DigitChar(cur)];
      ghost var nd' := if numdigits == 3 then 1 else numdigits + 1;
      ghost var rest := RevGroups(next, nd');
      assert RevGroups(number, numdigits) == piece + rest;
      assert (written + piece) + rest == total;
      number := next;
      if numdigits == 3 {
        into[ptr] := ',';
        ptr := ptr + 1;
        numdigits := 0;
      }
      into[ptr] := DigitChar(cur);
      ptr := ptr + 1;
      numdigits := numdigits + 1;
      written := written + piece;
      assert numdigits == nd';
    }
  }

  /** itoacommas (int): "0" for zero, else the comma-grouped magnitude with a
      leading '-'.  As written, INT_MIN negates to itself, no digit is
      written, and the result is "-". */
  method Itoacommas(number: int, into: array<char>)
    requires IsInt32(number) && into.Length >= 15
    modifies into
    ensures Nul in into[..]
    ensures CStr(into[..]) == if number == Int32Min then ['-'] else CommasSigned(number)
  {
    if number == 0 {
      into[0] := '0';
      into[1] := Nul;
      CStrOfTerminated(['0'], into[2..]);
      assert into[..] == ['0'] + [Nul] + into[2..];
      return;
    }
    var neg := false;
    var n := number;
    if n < 0 {
      n := Wrap32(-n);
      neg := true;
    }
    assert Pow1000(3) == 1_000_000_000;
    ItoacommasDigits(into, n, neg, 3);
  }

  /** itoacommas64: the same for int64; INT64_MIN gives "-". */
  method Itoacommas64(number: int, into: array<char>)
    requires IsInt64(number) && into.Length >= 27
    modifies into
    ensures Nul in into[..]
    ensures CStr(into[..]) == if number == Int64Min then ['-'] else CommasSigned(number)
  {
    if number == 0 {
      into[0] := '0';
      into[1] := Nul;
      CStrOfTerminated(['0'], into[2..]);
      assert into[..] == ['0'] + [Nul] + into[2..];
      return;
    }
    var neg := false;
    var n := number;
    if n < 0 {
      n := Wrap64(-n);
      neg := true;
    }
    Pow1000Six();
    ItoacommasDigits(into, n, neg, 6);
  }

  /** itoacommas as intended: the magnitude taken as an unsigned value, so the
      most negative number prints in full too. */
  method ItoacommasIntended(number: int, into: array<char>)
    requires IsInt64(number) && into.Length >= 27
    modifies into
    ensures Nul in into[..]
    ensures CStr(into[..]) == CommasSigned(number)
  {
    if number == 0 {
      into[0] := '0';
      into[1] := Nul;
      CStrOfTerminated(['0'], into[2..]);
      assert into[..] == ['0'] + [Nul] + into[2..];
      return;
    }
    var neg := number < 0;
    var n := if neg then -number else number;
    Pow1000Six();
    ItoacommasDigits(into, n, neg, 6);
  }

  /** The most negative value is its own two's-complement negation, and its
      grouped text is much longer than the "-" itoacommas leaves. */
  lemma ItoacommasMinValue()
    ensures Wrap32(-Int32Min) == Int32Min && Wrap64(-Int64Min) == Int64Min
    ensures CommasSigned(Int32Min) != ['-'] && CommasSigned(Int64Min) != ['-']
  {
  }

  // ---- CountNumSame / AreBuffersSame ----

  /** CountNumSame: the length of the common prefix of two byte buffers, at most `size`. */
  method CountNumSame(buf1: seq<bv8>, buf2: seq<bv8>, size: nat) returns (numSame: nat)
    requires size <= |buf1| && size <= |buf2|
    ensures numSame <= size && buf1[..numSame] == buf2[..numSame]
    ensures numSame < size ==> buf1[numSame] != buf2[numSame]
  {
    numSame := 0;
    while numSame < size
      invariant numSame <= size && buf1[..numSame] == buf2[..numSame]
    {
      if buf1[numSame] != buf2[numSame] {
        return;
      }
      numSame := numSame + 1;
    }
  }

  /** AreBuffersSame: the first `size` bytes agree. */
  method AreBuffersSame(buf1: seq<bv8>, buf2: seq<bv8>, size: nat) returns (r: bool)
    requires size <= |buf1| && size <= |buf2|
    ensures r <==> buf1[..size] == buf2[..size]
  {
    var sameLen := CountNumSame(buf1, buf2, size);
    if sameLen < size {
      assert buf1[..size][sameLen] != buf2[..size][sameLen];
    }
    r := sameLen == size;
  }

  // ---- stripresameadvance ----

  /** stripresameadvance: after white space, does `match` start here, ignoring
      case?  If so the position moves past it and the white space after it;
      otherwise it stays where it was. */
  method Stripresameadvance(s: seq<char>, p: nat, match_: seq<char>) returns (ok: bool, q: nat)
    requires NulFree(s) && NulFree(match_) && p <= |s|
    ensures ok <==> IPrefix(match_, s[SpanSpace(s, p)..])
    ensures ok ==> q == SpanSpace(s, SpanSpace(s, p) + |match_|)
    ensures !ok ==> q == p
  {
    var ptr := Skipwhitespace(s, p);
    ok := Stripresame(s[ptr..], match_);
    if ok {
      q := Skipwhitespace(s, ptr + |match_|);
    } else {
      q := p;
    }
  }

  // ---- nexttok_skipquotes ----

  /** Where nexttok_skipquotes stops. */
  datatype TokStop = AtDelim(k: nat) | AtNewline(k: nat) | NoToken

  /** The closing quote `qc` at or after `i`, or None when a NUL comes first. */
  function QuoteEnd(m: seq<char>, i: nat, qc: char): (r: Option<nat>)
    requires i <= |m|
    ensures r.Some? ==> i <= r.value < |m| && m[r.value] == qc
                        && forall k :: i <= k < r.value ==> m[k] != qc && m[k] != Nul
    decreases |m| - i
  {
    if i == |m| then None
    else if m[i] == qc then Some(i)
    else if m[i] == Nul then None
    else QuoteEnd(m, i + 1, qc)
  }

  /** The scan of nexttok_skipquotes over the buffer `m` from `i`. */
  function TokScan(m: seq<char>, i: nat, delim: char): (r: TokStop)
    requires i <= |m|
    ensures r.AtDelim? ==> i <= r.k < |m| && m[r.k] == delim
    ensures r.AtNewline? ==> i <= r.k < |m| && m[r.k] == '\n'
    decreases |m| - i
  {
    if i == |m| then NoToken
    else if m[i] == delim then AtDelim(i)
    else if m[i] == '"' || m[i] == '\'' then
      match QuoteEnd(m, i + 1, m[i])
      case None => NoToken
      case Some(j) => TokScan(m, j + 1, delim)
    else if m[i] == Nul then NoToken
    else if m[i] == '\n' then AtNewline(i)
    else TokScan(m, i + 1, delim)
  }

  /** Seeks the closing quote as the inner loops of nexttok_skipquotes do. */
  method SeekQuote(m: seq<char>, i0: nat, qc: char) returns (r: Option<nat>)
    requires i0 <= |m|
    ensures r == QuoteEnd(m, i0, qc)
  {
    var i := i0;
    while i < |m| && m[i] != qc
      invariant i0 <= i <= |m| && QuoteEnd(m, i, qc) == QuoteEnd(m, i0, qc)
    {
      if m[i] == Nul {
        return None;
      }
      i := i + 1;
    }
    if i == |m| {
      return None;
    }
    return Some(i);
  }

  /** nexttok_skipquotes: the token at `p` ends at the first `tok_delim`
      outside quotes, which is overwritten with NUL; the result is the next
      token after white space.  A newline ends the scan without writing, and
      the end of the string or an unclosed quote gives NULL. */
  method NexttokSkipquotes(buf: array<char>, p: nat, tok_delim: char) returns (r: Option<nat>)
    requires p < buf.Length && tok_delim != Nul
    modifies buf
    ensures match TokScan(old(buf[..]), p, tok_delim)
            case AtDelim(k) => buf[..] == old(buf[..])[k := Nul] && r == Some(SpanSpace(buf[..], k + 1))
            case AtNewline(k) => buf[..] == old(buf[..]) && r == Some(k)
            case NoToken => buf[..] == old(buf[..]) && r.None?
  {
    var i := p;
    while true
      invariant p <= i <= buf.Length
      invariant TokScan(buf[..], i, tok_delim) == TokScan(buf[..], p, tok_delim)
      invariant buf[..] == old(buf[..])
      decreases buf.Length - i
    {
      if i == buf.Length {
        return None;
      }
      if buf[i] == tok_delim {
        buf[i] := Nul;
        var next := Skipwhitespace(buf[..], i + 1);
        return Some(next);
      }
      if buf[i] == '"' || buf[i] == '\'' {
        var close := SeekQuote(buf[..], i + 1, buf[i]);
        if close.None? {
          return None;
        }
        i := close.value;
      } else if buf[i] == Nul {
        return None;
      } else if buf[i] == '\n' {
        return Some(i);
      }
      i := i + 1;
    }
  }

  /** Ordinary chars are passed over. */
  lemma {:induction false} TokScanPlain(m: seq<char>, i: nat, j: nat, delim: char)
    requires i <= j <= |m|
    requires forall k :: i <= k < j ==> m[k] != delim && m[k] != '"' && m[k] != '\'' && m[k] != Nul && m[k] != '\n'
    ensures TokScan(m, i, delim) == TokScan(m, j, delim)
    decreases j - i
  {
    if i < j {
      TokScanPlain(m, i + 1, j, delim);
    }
  }

  /** A quoted stretch is passed over whole: a delimiter inside quotes does not
      end the token. */
  lemma {:induction false} TokScanSkipsQuoted(m: seq<char>, i: nat, j: nat, delim: char)
    requires i < j < |m| && (m[i] == '"' || m[i] == '\'') && m[i] != delim && m[j] == m[i]
    requires forall k :: i < k < j ==> m[k] != m[i] && m[k] != Nul
    ensures TokScan(m, i, delim) == TokScan(m, j + 1, delim)
  {
    QuoteEndAt(m, i + 1, j, m[i]);
  }

  lemma {:induction false} QuoteEndAt(m: seq<char>, i: nat, j: nat, qc: char)
    requires i <= j < |m| && m[j] == qc
    requires forall k :: i <= k < j ==> m[k] != qc && m[k] != Nul
    ensures QuoteEnd(m, i, qc) == Some(j)
    decreases j - i
  {
    if i < j {
      QuoteEndAt(m, i + 1, j, qc);
    }
  }

  /** The tokenizer's own example, shortened: in  a,"b,c",d  the first token
      ends at index 1 and the second at index 7, after the quoted comma. */
  lemma NexttokExample()
    ensures TokScan(['a', ',', '"', 'b', ',', 'c', '"', ',', 'd', Nul], 0, ',') == AtDelim(1)
    ensures TokScan(['a', ',', '"', 'b', ',', 'c', '"', ',', 'd', Nul], 2, ',') == AtDelim(7)
  {
    var m := ['a', ',', '"', 'b', ',', 'c', '"', ',', 'd', Nul];
    TokScanSkipsQuoted(m, 2, 6, ',');
  }
}
