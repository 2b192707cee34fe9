/** The inline helpers of StrUtil.h: pure expressions over C strings. */
module StrUtilH {
  import opened Wrappers
  import opened CLib

  /** macro_tolower: only 'A'..'Z' change (by setting bit 0x20). */
  function MacroToLower(c: char): (l: char)
    ensures l == ToLower(c)
  {
    if 'A' <= c <= 'Z' then ByteChar(c as int + 0x20) else c
  }

  /** `x | 0x20` on a byte value. */
  function OrBit5(x: nat): nat
  {
    if x / 0x20 % 2 == 1 then x else x + 0x20
  }

  /** tokenchar: a back slash becomes '/', then bit 0x20 is set ("unsafe_tolower"). */
  function TokenChar(c: char): (t: char)
    ensures t as int < 256 && t as int / 0x20 % 2 == 1
    ensures t != Nul
    ensures c as int < 256 && c as int / 0x20 % 2 == 1 && c != '\\' ==> t == c
    ensures IsUpper(c) ==> t == ToLower(c)
  {
    var b := (if c == '\\' then '/' else c) as int % 256;
    ByteChar(OrBit5(b))
  }

  /** Case and slash direction do not affect a token character. */
  lemma TokenCharFolds(c: char)
    ensures TokenChar(TokenChar(c)) == TokenChar(c)
    ensures TokenChar('\\') == TokenChar('/')
    ensures TokenChar(ToUpper(c)) == TokenChar(ToLower(c))
  {
  }

  /** The root of the strtcmp defect: the terminator does not map to itself. */
  lemma TokenCharOfNul()
    ensures TokenChar(Nul) == ' ' && TokenChar(' ') == ' '
  {
  }

  /** strend: the position of the terminating NUL. */
  function Strend(s: seq<char>): (p: nat)
    requires NulFree(s)
    ensures At(s, p) == Nul && forall q :: 0 <= q < p ==> At(s, q) != Nul
  {
    |s|
  }

  /** strrchrorend: the last occurrence of `c`, or strend when there is none. */
  function Strrchrorend(s: seq<char>, c: char): (p: nat)
    requires NulFree(s)
    ensures p <= |s|
    ensures p < |s| ==> s[p] == c && forall q :: p < q < |s| ==> s[q] != c
    ensures p == |s| ==> c == Nul || c !in s
  {
    match StrRChr(s, c)
    case Some(k) => k
    case None => Strend(s)
  }

  /** strstrend: just past the first match of `pat`, or NULL when it is absent. */
  function Strstrend(s: seq<char>, pat: seq<char>): (r: Option<nat>)
    ensures r.Some? ==> |pat| <= r.value <= |s| && MatchAt(s, pat, r.value - |pat|)
                        && forall q :: 0 <= q < r.value - |pat| ==> !MatchAt(s, pat, q)
    ensures r.None? ==> forall q :: 0 <= q <= |s| ==> !MatchAt(s, pat, q)
  {
    match StrStr(s, pat)
    case Some(p) => Some(p + |pat|)
    case None => None
  }

  /** strtsame: strtcmp(s1,s2) == 0, i.e. equal once mapped through tokenchar. */
  function Strtsame(s1: seq<char>, s2: seq<char>): (r: bool)
    requires NulFree(s1) && NulFree(s2)
    ensures r <==> |s1| == |s2| && forall k :: 0 <= k < |s1| ==> TokenChar(s1[k]) == TokenChar(s2[k])
  {
    CompareZero(s1, s2, TokenChar, true);
    Compare(s1, s2, TokenChar, true) == 0
  }

  /** strisame: stricmp(s1,s2) == 0 (MSVC folds to lower case). */
  function Strisame(s1: seq<char>, s2: seq<char>): (r: bool)
    requires NulFree(s1) && NulFree(s2)
    ensures r <==> |s1| == |s2| && forall k :: 0 <= k < |s1| ==> ToLower(s1[k]) == ToLower(s2[k])
  {
    CompareZero(s1, s2, ToLower, false);
    Compare(s1, s2, ToLower, false) == 0
  }

  function Identity(c: char): char { c }

  /** strsame: strcmp(s1,s2) == 0. */
  function Strsame(s1: seq<char>, s2: seq<char>): (r: bool)
    requires NulFree(s1) && NulFree(s2)
    ensures r <==> s1 == s2
  {
    CompareZero(s1, s2, Identity, false);
    assert |s1| == |s2| && (forall k :: 0 <= k < |s1| ==> Identity(s1[k]) == Identity(s2[k])) ==> s1 == s2;
    Compare(s1, s2, Identity, false) == 0
  }
}
