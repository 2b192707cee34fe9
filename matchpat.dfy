/**
  The wildcard patterns of matchpat.cpp.  A pattern string is compiled into a
  zero-terminated array of 16-bit codes: a byte stands for itself, the codes
  256..260 are the wild cards `*`, `?`, `~`, `[` and `]`, and the codes from
  0x1000 up carry an alternation (`(a|b)`) or conjunction (`{a&b}`) marker in
  the top nibble and the nesting depth in the low twelve bits.

  Patterns are `seq<int>` without their terminator; reading index |p| gives
  the terminator 0, and a read beyond it is an over-read, which the matcher
  reports as `None`.
*/
module MatchPat {
  import opened Wrappers
  import opened CLib

  const WANY := 256
  const WCHAR := 257
  const WNOT := 258
  const WBRA := 259
  const WKET := 260

  const PBASE := 0x1000
  const PMASK := 0x0FFF
  const POPENOR := 0x1000
  const POPENAND := 0x2000
  const PDONEOR := 0x3000
  const PDONEAND := 0x4000
  const POR := 0x5000
  const PAND := 0x6000

  /** patchar is uint16: a code is stored modulo 2^16. */
  function Patchar(v: int): (r: int)
    ensures 0 <= r < 0x1_0000
    ensures 0 <= v < 0x1_0000 ==> r == v
  {
    v % 0x1_0000
  }

  /** A C string read through `const uint8 *`: non-NUL bytes. */
  predicate IsBytes(s: string)
  {
    forall k :: 0 <= k < |s| ==> 0 < s[k] as int < 256
  }

  /** A compiled pattern: nonzero 16-bit codes before the terminator. */
  predicate IsPattern(p: seq<int>)
  {
    forall k :: 0 <= k < |p| ==> 0 < p[k] < 0x1_0000
  }

  /** The characters with a wild meaning; a backquote before one of them
      makes it literal. */
  predicate IsWildChar(c: char)
  {
    c == '`' || c == '[' || c == ']' || c == '(' || c == ')' || c == '{' || c == '}' ||
    c == '|' || c == '&' || c == '?' || c == '~' || c == '*' || c == '#'
  }

  /** strmatch2seq(s, c1, c2): strchr finds the first c1, and a second strchr
      looks for c2 from that position on. */
  function Seq2(s: string, c1: char, c2: char): bool
  {
    if |s| == 0 then false
    else if s[0] == c1 then c2 in s
    else Seq2(s[1..], c1, c2)
  }

  /** c1 occurs in s, and c2 occurs somewhere after it. */
  ghost predicate Follows(s: string, c1: char, c2: char)
  {
    exists i, j :: 0 <= i < j < |s| && s[i] == c1 && s[j] == c2
  }

  /** For two different characters strmatch2seq tests exactly that c2
      follows some c1. */
  lemma {:induction false} Seq2Follows(s: string, c1: char, c2: char)
    requires c1 != c2
    ensures Seq2(s, c1, c2) <==> Follows(s, c1, c2)
  {
    if |s| == 0 {
    } else if s[0] == c1 {
      if c2 in s {
        var j :| 0 <= j < |s| && s[j] == c2;
        assert s[0] == c1 && 0 < j;
      }
    } else {
      Seq2Follows(s[1..], c1, c2);
      if Follows(s, c1, c2) {
        var i, j :| 0 <= i < j < |s| && s[i] == c1 && s[j] == c2;
        assert s[1..][i - 1] == c1 && s[1..][j - 1] == c2;
      }
      if Follows(s[1..], c1, c2) {
        var i, j :| 0 <= i < j < |s[1..]| && s[1..][i] == c1 && s[1..][j] == c2;
        assert s[i + 1] == c1 && s[j + 1] == c2;
      }
    }
  }

  /** The state of MakePattern: the codes written so far and its counters. */
  datatype Builder = Builder(out: seq<int>, nestOr: int, nestAnd: int, bras: int, kets: int)

  const Start := Builder([], 0, 0, 0, 0)

  /** One turn of MakePattern's loop on the rest `s` of the string: the new
      state and how many characters were consumed. */
  function Step(s: string, b: Builder): (r: (Builder, nat))
    requires |s| > 0
    ensures 1 <= r.1 <= |s| && |r.0.out| == |b.out| + 1
  {
    var rest := s[1..];
    var lit := b.(out := b.out + [s[0] as int]);
    match s[0]
    case '`' =>
      if |rest| > 0 && IsWildChar(rest[0]) then (b.(out := b.out + [rest[0] as int]), 2)
      else (lit, 1)
    case '[' =>
      if Seq2(rest, '-', ']') || Seq2(rest, ',', ']')
      then (b.(out := b.out + [WBRA], bras := b.bras + 1), 1)
      else (lit, 1)
    case ']' =>
      if b.bras > b.kets then (b.(out := b.out + [WKET], kets := b.kets + 1), 1) else (lit, 1)
    case '(' =>
      if Seq2(rest, '|', ')')
      then (b.(out := b.out + [Patchar(POPENOR + b.nestOr + 1)], nestOr := b.nestOr + 1), 1)
      else (lit, 1)
    case ')' =>
      if b.nestOr > 0
      then (b.(out := b.out + [Patchar(PDONEOR + b.nestOr)], nestOr := b.nestOr - 1), 1)
      else (lit, 1)
    case '{' =>
      if Seq2(rest, '&', '}')
      then (b.(out := b.out + [Patchar(POPENAND + b.nestAnd + 1)], nestAnd := b.nestAnd + 1), 1)
      else (lit, 1)
    case '}' =>
      if b.nestAnd > 0
      then (b.(out := b.out + [Patchar(PDONEAND + b.nestAnd)], nestAnd := b.nestAnd - 1), 1)
      else (lit, 1)
    case '|' =>
      if b.nestOr > 0 then (b.(out := b.out + [Patchar(POR + b.nestOr)]), 1) else (lit, 1)
    case '&' =>
      if b.nestAnd > 0 then (b.(out := b.out + [Patchar(PAND + b.nestAnd)]), 1) else (lit, 1)
    case '#' =>
      if |rest| > 0 && rest[0] == '?' then (b.(out := b.out + [WANY]), 2) else (lit, 1)
    case '?' => (b.(out := b.out + [WCHAR]), 1)
    case '~' => (b.(out := b.out + [WNOT]), 1)
    case '*' => (b.(out := b.out + [WANY]), 1)
    case _ => (lit, 1)
  }

  /** MakePattern's loop from the rest `s` of the string on. */
  function Run(s: string, b: Builder): Builder
    decreases |s|
  {
    if |s| == 0 then b
    else
      var st := Step(s, b);
      Run(s[st.1..], st.0)
  }

  /** MakePattern(s): the codes, or the error it reports, checked in this
      order once the whole string is read. */
  function Compile(s: string): Result<seq<int>, string>
  {
    var b := Run(s, Start);
    if b.nestOr != 0 then Err("unmatched parens")
    else if b.nestAnd != 0 then Err("unmatched braces")
    else if b.bras != b.kets then Err("unmatched bra/ket")
    else Ok(b.out)
  }

  /** The switch of MakePattern's loop on the character at i: the code it
      writes, the updated counters and the index of the next character. */
  method PatternCode(s: string, i0: nat, nestOr0: int, nestAnd0: int, bras0: int, kets0: int, ghost out: seq<int>)
    returns (code: int, i: nat, nestOr: int, nestAnd: int, bras: int, kets: int)
    requires i0 < |s|
    ensures Step(s[i0..], Builder(out, nestOr0, nestAnd0, bras0, kets0)) ==
      (Builder(out + [code], nestOr, nestAnd, bras, kets), i - i0)
  {
    ghost var b := Builder(out, nestOr0, nestAnd0, bras0, kets0);
    assert s[i0..][1..] == s[i0 + 1..];
    nestOr, nestAnd, bras, kets := nestOr0, nestAnd0, bras0, kets0;
    var c := s[i0];
    i := i0 + 1;
    code := c as int;
    match c {
    case '`' =>
      if i < |s| && IsWildChar(s[i]) {
        code := s[i] as int;
        i := i + 1;
      }
    case '[' =>
      if Seq2(s[i..], '-', ']') || Seq2(s[i..], ',', ']') {
        code := WBRA;
        bras := bras + 1;
      }
    case ']' =>
      if bras > kets {
        code := WKET;
        kets := kets + 1;
      }
    case '(' =>
      if Seq2(s[i..], '|', ')') {
        nestOr := nestOr + 1;
        code := Patchar(POPENOR + nestOr);
      }
    case ')' =>
      if nestOr > 0 {
        code := Patchar(PDONEOR + nestOr);
        nestOr := nestOr - 1;
      }
    case '{' =>
      if Seq2(s[i..], '&', '}') {
        nestAnd := nestAnd + 1;
        code := Patchar(POPENAND + nestAnd);
      }
    case '}' =>
      if nestAnd > 0 {
        code := Patchar(PDONEAND + nestAnd);
        nestAnd := nestAnd - 1;
      }
    case '|' =>
      if nestOr > 0 {
        code := Patchar(POR + nestOr);
      }
    case '&' =>
      if nestAnd > 0 {
        code := Patchar(PAND + nestAnd);
      }
    case '#' =>
      if i < |s| && s[i] == '?' {
        i := i + 1;
        code := WANY;
      }
    case '?' =>
      code := WCHAR;
    case '~' =>
      code := WNOT;
    case '*' =>
      code := WANY;
    case _ =>
    }
  }

  /** MakePattern: scans the string once and writes one code per turn into a
      buffer of 2*strlen+256 codes, terminated by 0. */
  method MakePattern(s: string) returns (r: Result<seq<int>, string>)
    requires IsBytes(s)
    ensures r == Compile(s)
  {
    var ret := new int[|s| * 2 + 256];
    var ri, nestOr, nestAnd, bras, kets := 0, 0, 0, 0, 0;
    var i: nat := 0;
    while i < |s|
      invariant 0 <= ri <= i <= |s|
      invariant Run(s[i..], Builder(ret[..ri], nestOr, nestAnd, bras, kets)) == Run(s, Start)
    {
      ghost var i0 := i;
      var code;
      code, i, nestOr, nestAnd, bras, kets := PatternCode(s, i, nestOr, nestAnd, bras, kets, ret[..ri]);
      ret[ri] := code;
      ri := ri + 1;
      assert ret[..ri] == ret[..ri - 1] + [code];
      assert s[i0..][i - i0..] == s[i..];
    }
    assert s[i..] == [];
    ret[ri] := 0;
    if nestOr != 0 {
      r := Err("unmatched parens");
    } else if nestAnd != 0 {
      r := Err("unmatched braces");
    } else if bras != kets {
      r := Err("unmatched bra/ket");
    } else {
      r := Ok(ret[..ri]);
    }
  }

  /** The codes of a string of ordinary characters: each byte itself. */
  function Codes(t: string): (r: seq<int>)
    ensures |r| == |t| && forall k :: 0 <= k < |t| ==> r[k] == t[k] as int
  {
    seq(|t|, k requires 0 <= k < |t| => t[k] as int)
  }

  /** `t` with a backquote put before each of its wild characters. */
  function Escape(t: string): string
  {
    if |t| == 0 then ""
    else (if IsWildChar(t[0]) then ['`', t[0]] else [t[0]]) + Escape(t[1..])
  }

  /** An ordinary character is written as itself. */
  lemma StepPlain(s: string, b: Builder)
    requires |s| > 0 && !IsWildChar(s[0])
    ensures Step(s, b) == (b.(out := b.out + [s[0] as int]), 1)
  {
  }

  /** A backquote before a wild character writes that character. */
  lemma StepEscaped(s: string, b: Builder)
    requires |s| > 1 && s[0] == '`' && IsWildChar(s[1])
    ensures Step(s, b) == (b.(out := b.out + [s[1] as int]), 2)
  {
  }

  lemma {:induction false} EscapeRun(t: string, b: Builder)
    ensures Run(Escape(t), b) == b.(out := b.out + Codes(t))
  {
    if |t| > 0 {
      var e := Escape(t);
      var b' := b.(out := b.out + [t[0] as int]);
      if IsWildChar(t[0]) {
        assert e == ['`', t[0]] + Escape(t[1..]);
        StepEscaped(e, b);
        assert e[2..] == Escape(t[1..]);
        assert Run(e, b) == Run(Escape(t[1..]), b');
      } else {
        assert e == [t[0]] + Escape(t[1..]);
        StepPlain(e, b);
        assert e[1..] == Escape(t[1..]);
        assert Run(e, b) == Run(Escape(t[1..]), b');
      }
      EscapeRun(t[1..], b');
      assert b'.out + Codes(t[1..]) == b.out + Codes(t);
    }
  }

  /** Backquoting every wild character makes any string a literal pattern:
      it compiles to its own bytes. */
  lemma EscapedIsLiteral(t: string)
    ensures Compile(Escape(t)) == Ok(Codes(t))
  {
    EscapeRun(t, Start);
    assert Start.out + Codes(t) == Codes(t);
  }

  lemma {:induction false} EscapeOfPlain(t: string)
    requires forall k :: 0 <= k < |t| ==> !IsWildChar(t[k])
    ensures Escape(t) == t
  {
    if |t| > 0 {
      EscapeOfPlain(t[1..]);
    }
  }

  /** A string without wild characters compiles to its own bytes. */
  lemma PlainIsLiteral(t: string)
    requires forall k :: 0 <= k < |t| ==> !IsWildChar(t[k])
    ensures Compile(t) == Ok(Codes(t))
  {
    EscapeOfPlain(t);
    EscapedIsLiteral(t);
  }

  lemma {:induction false} RunLength(s: string, b: Builder)
    ensures |Run(s, b).out| <= |b.out| + |s|
  {
    if |s| > 0 {
      var st := Step(s, b);
      RunLength(s[st.1..], st.0);
    }
  }

  /** A compiled pattern has at most one code per character, so it fits
      MakePattern's buffer of 2*strlen+256 codes with its terminator. */
  lemma CompiledFits(s: string)
    requires Compile(s).Ok?
    ensures |Compile(s).value| <= |s| < 2 * |s| + 256
  {
    RunLength(s, Start);
  }

  /** '*' and "#?" compile to WANY, '?' to WCHAR and '~' to WNOT; a '#'
      not followed by '?' stays a literal. */
  lemma WildCodes(s: string, b: Builder)
    requires |s| > 0
    ensures s[0] == '*' ==> Step(s, b).0.out == b.out + [WANY] && Step(s, b).1 == 1
    ensures s[0] == '?' ==> Step(s, b).0.out == b.out + [WCHAR] && Step(s, b).1 == 1
    ensures s[0] == '~' ==> Step(s, b).0.out == b.out + [WNOT] && Step(s, b).1 == 1
    ensures s[0] == '#' && |s| > 1 && s[1] == '?' ==> Step(s, b).0.out == b.out + [WANY] && Step(s, b).1 == 2
    ensures s[0] == '#' && (|s| == 1 || s[1] != '?') ==> Step(s, b).0.out == b.out + ['#' as int] && Step(s, b).1 == 1
    ensures !IsWildChar(s[0]) ==> Step(s, b).0.out == b.out + [s[0] as int] && Step(s, b).1 == 1
  {
  }

  /** '[', '(' and '{' are wild only when a '-' or ',', a '|' or a '&' is
      followed later by the matching closer; otherwise they are literal. */
  lemma OpenersWild(s: string, b: Builder)
    requires |s| > 0
    ensures s[0] == '[' ==>
      Step(s, b).0.out == b.out + [if Follows(s[1..], '-', ']') || Follows(s[1..], ',', ']') then WBRA else '[' as int]
    ensures s[0] == '(' ==>
      Step(s, b).0.out == b.out + [if Follows(s[1..], '|', ')') then Patchar(POPENOR + b.nestOr + 1) else '(' as int]
    ensures s[0] == '{' ==>
      Step(s, b).0.out == b.out + [if Follows(s[1..], '&', '}') then Patchar(POPENAND + b.nestAnd + 1) else '{' as int]
  {
    Seq2Follows(s[1..], '-', ']');
    Seq2Follows(s[1..], ',', ']');
    Seq2Follows(s[1..], '|', ')');
    Seq2Follows(s[1..], '&', '}');
  }

  /** The bracket counters count the WBRA and WKET codes written. */
  ghost predicate CountsBrackets(b: Builder)
  {
    multiset(b.out)[WBRA] == b.bras && multiset(b.out)[WKET] == b.kets
  }

  lemma {:induction false} RunCountsBrackets(s: string, b: Builder)
    requires IsBytes(s) && CountsBrackets(b)
    requires 0 <= b.nestOr && b.nestOr + |s| < 0xA000 && 0 <= b.nestAnd && b.nestAnd + |s| < 0xA000
    ensures CountsBrackets(Run(s, b))
  {
    if |s| > 0 {
      var st := Step(s, b);
      var code := st.0.out[|b.out|];
      assert st.0.out == b.out + [code];
      assert code == WBRA <==> st.0.bras == b.bras + 1;
      assert code == WKET <==> st.0.kets == b.kets + 1;
      assert st.0.bras <= b.bras + 1 && st.0.kets <= b.kets + 1;
      assert b.nestOr - 1 <= st.0.nestOr <= b.nestOr + 1 && b.nestAnd - 1 <= st.0.nestAnd <= b.nestAnd + 1;
      assert IsBytes(s[st.1..]);
      RunCountsBrackets(s[st.1..], st.0);
    }
  }

  /** Unless the nesting is deep enough for the 16-bit codes to wrap, a
      pattern that compiles has as many WKET codes as WBRA codes. */
  lemma BracketsBalanced(s: string)
    requires IsBytes(s) && |s| < 0xA000 && Compile(s).Ok?
    ensures multiset(Compile(s).value)[WBRA] == multiset(Compile(s).value)[WKET]
  {
    RunCountsBrackets(s, Start);
  }

  /** PatternLen: the index of the terminator. */
  method PatternLen(pat: array<int>) returns (len: nat)
    requires exists k :: 0 <= k < pat.Length && pat[k] == 0
    ensures len < pat.Length && pat[len] == 0
    ensures forall k :: 0 <= k < len ==> pat[k] != 0
  {
    len := 0;
    while pat[len] != 0
      invariant len < pat.Length
      invariant forall k :: 0 <= k < len ==> pat[k] != 0
      invariant exists k :: len <= k < pat.Length && pat[k] == 0
      decreases pat.Length - len
    {
      len := len + 1;
    }
  }

  /** IsWild: the string compiles and some code is a wild one. */
  method IsWild(s: string) returns (isWild: bool)
    requires IsBytes(s)
    ensures isWild <==> Compile(s).Ok? && exists k :: 0 <= k < |Compile(s).value| && Compile(s).value[k] >= 256
  {
    var pat := MakePattern(s);
    if pat.Err? {
      return false;
    }
    isWild := false;
    var i := 0;
    while i < |pat.value|
      invariant i <= |pat.value|
      invariant forall k :: 0 <= k < i ==> pat.value[k] < 256
    {
      if pat.value[i] >= 256 {
        isWild := true;
        break;
      }
      i := i + 1;
    }
  }

  /** LIT: toupper in the C locale when DoUpr is set; other codes unchanged. */
  function Lit(c: int, upr: bool): (r: int)
    ensures (r == 0) == (c == 0) && (0 <= c ==> 0 <= r)
    ensures c >= 256 ==> r == c
    ensures r == ',' as int ==> c == ',' as int
  {
    if upr && 'a' as int <= c <= 'z' as int then c - 32 else c
  }

  /** *PatStr at index j: the terminator at |p|. */
  function PAt(p: seq<int>, j: nat): int
  {
    if j < |p| then p[j] else 0
  }

  /** *VsStr at index i: the terminator at |vs|. */
  function VAt(vs: string, i: nat): int
  {
    if i < |vs| then vs[i] as int else 0
  }

  /** `while (*PatStr != code) PatStr++;` from index j: the index reached, or
      None when the scan passes the terminator. */
  function SkipTo(p: seq<int>, j: nat, code: int): (r: Option<nat>)
    decreases |p| - j
    ensures r.Some? ==> j <= r.value < |p| && p[r.value] == code
  {
    if j >= |p| then None
    else if p[j] == code then Some(j)
    else SkipTo(p, j + 1, code)
  }

  /** The same scan stopping at either of two codes. */
  function SkipTo2(p: seq<int>, j: nat, c1: int, c2: int): (r: Option<nat>)
    decreases |p| - j
    ensures r.Some? ==> j <= r.value < |p| && (p[r.value] == c1 || p[r.value] == c2)
  {
    if j >= |p| then None
    else if p[j] == c1 || p[j] == c2 then Some(j)
    else SkipTo2(p, j + 1, c1, c2)
  }

  /** The outcome of the list scan of a `[a,b,c]` set. */
  datatype Scan = Fault | NoMatch | Found(at: nat)

  /** The list scan as written: compare the item at j; on a mismatch step on,
      fail at WKET, and hop over a comma.  After the hop it does not look for
      WKET again, so a set ending in a comma steps over its own WKET. */
  function ListScanAsWritten(p: seq<int>, j: nat, c: int, upr: bool): (r: Scan)
    requires j <= |p|
    decreases |p| - j
    ensures r.Found? ==> j <= r.at <= |p| && Lit(PAt(p, r.at), upr) == Lit(c, upr)
  {
    if Lit(PAt(p, j), upr) == Lit(c, upr) then Found(j)
    else if j == |p| then Fault
    else if PAt(p, j + 1) == WKET then NoMatch
    else if Lit(PAt(p, j + 1), upr) == ',' as int then ListScanAsWritten(p, j + 2, c, upr)
    else ListScanAsWritten(p, j + 1, c, upr)
  }

  /** The list scan as intended: WKET also ends the set right after a comma. */
  function ListScan(p: seq<int>, j: nat, c: int, upr: bool): (r: Scan)
    requires j <= |p|
    decreases |p| - j
    ensures r.Found? ==> j <= r.at <= |p| && Lit(PAt(p, r.at), upr) == Lit(c, upr)
  {
    if Lit(PAt(p, j), upr) == Lit(c, upr) then Found(j)
    else if j == |p| then Fault
    else if PAt(p, j + 1) == WKET then NoMatch
    else if Lit(PAt(p, j + 1), upr) == ',' as int then
      (if PAt(p, j + 2) == WKET then NoMatch else ListScan(p, j + 2, c, upr))
    else ListScan(p, j + 1, c, upr)
  }

  /** The set `[a,]` compiles to WBRA 'a' ',' WKET; scanning it for 'z', the
      scan as written hops the comma onto WKET, steps past it and reads past
      the terminator, while the intended scan stops at WKET. */
  lemma TrailingCommaOverRead()
    ensures Compile("[a,]") == Ok([WBRA, 'a' as int, ',' as int, WKET])
    ensures ListScanAsWritten([WBRA, 'a' as int, ',' as int, WKET], 1, 'z' as int, false) == Fault
    ensures ListScan([WBRA, 'a' as int, ',' as int, WKET], 1, 'z' as int, false) == NoMatch
  {
    var s := "[a,]";
    assert s[0] == '[' && s[1..] == "a,]" && s[2..] == ",]" && s[3..] == "]" && s[4..] == [];
    assert Seq2(",]", ',', ']');
    assert Seq2("a,]", ',', ']');
    var b1 := Builder([WBRA], 0, 0, 1, 0);
    assert Step(s, Start).1 == 1 && Step(s, Start).0.out == b1.out;
    assert Step(s, Start).0 == b1;
    var b2 := Builder([WBRA, 'a' as int], 0, 0, 1, 0);
    assert Step("a,]", b1).1 == 1 && Step("a,]", b1).0.out == b2.out;
    assert Step("a,]", b1).0 == b2;
    var b3 := Builder([WBRA, 'a' as int, ',' as int], 0, 0, 1, 0);
    assert Step(",]", b2).1 == 1 && Step(",]", b2).0.out == b3.out;
    assert Step(",]", b2).0 == b3;
    var b4 := Builder([WBRA, 'a' as int, ',' as int, WKET], 0, 0, 1, 1);
    assert Step("]", b3).1 == 1 && Step("]", b3).0.out == b4.out;
    assert Step("]", b3).0 == b4;
    assert Run("]", b3) == b4;
    assert Run(",]", b2) == b4;
    assert Run("a,]", b1) == b4;
    assert Run(s, Start) == b4;
    var p := [WBRA, 'a' as int, ',' as int, WKET];
    assert ListScanAsWritten(p, 4, 'z' as int, false) == Fault;
    assert ListScanAsWritten(p, 3, 'z' as int, false) == Fault;
  }

  /** The set `[a,]` followed by more pattern: matching "x" against
      "[a,]x[c-d]", the scan as written hops the comma onto WKET, steps past
      it and takes the literal `x` after the set as a list item, so the match
      succeeds; the intended scan stops at WKET and the set fails. */
  lemma TrailingCommaSkipsSet()
    ensures var p := [WBRA, 'a' as int, ',' as int, WKET, 'x' as int, WBRA, 'c' as int, '-' as int, 'd' as int, WKET];
      ListScanAsWritten(p, 1, 'x' as int, false) == Found(4) &&
      ListScan(p, 1, 'x' as int, false) == NoMatch &&
      Match("x", p, 0, 0, false) == Some(true)
  {
    var p := [WBRA, 'a' as int, ',' as int, WKET, 'x' as int, WBRA, 'c' as int, '-' as int, 'd' as int, WKET];
    assert ListScanAsWritten(p, 4, 'x' as int, false) == Found(4);
    assert ListScanAsWritten(p, 3, 'x' as int, false) == Found(4);
    assert SkipTo(p, 9, WKET) == Some(9);
    assert SkipTo(p, 8, WKET) == Some(9);
    assert SkipTo(p, 7, WKET) == Some(9);
    assert SkipTo(p, 6, WKET) == Some(9);
    assert SkipTo(p, 5, WKET) == Some(9);
    assert SkipTo(p, 4, WKET) == Some(9);
    assert Match("x", p, 1, 10, false) == Some(true);
  }

  /** The pattern of TrailingCommaSkipsSet is what MakePattern builds from
      "[a,]x[c-d]". */
  lemma TrailingCommaPattern(s: string)
    requires s == "[a,]x[c-d]"
    ensures Compile(s) == Ok([WBRA, 'a' as int, ',' as int, WKET, 'x' as int, WBRA, 'c' as int, '-' as int, 'd' as int, WKET])
  {
    assert TrailingCommaText(s);
    TrailingCommaRun(s, Start);
  }

  /** The characters of "[a,]x[c-d]", one by one. */
  predicate TrailingCommaText(s: string)
  {
    |s| == 10 && s[0] == '[' && s[1] == 'a' && s[2] == ',' && s[3] == ']' && s[4] == 'x' && s[5] == '[' && s[6] == 'c' && s[7] == '-' && s[8] == 'd' && s[9] == ']'
  }

  lemma TrailingCommaRun(s: string, b0: Builder)
    requires TrailingCommaText(s) && b0 == Start
    ensures Run(s, b0) == Builder([WBRA, 'a' as int, ',' as int, WKET, 'x' as int, WBRA, 'c' as int, '-' as int, 'd' as int, WKET], 0, 0, 2, 2)
  {
    assert s[1..][1..] == s[2..];
    var b1 := Builder([WBRA], 0, 0, 1, 0);
    TrailingCommaRunMid(s, b1);
    assert s[2..][0] == ',' && ']' in s[2..];
    assert Seq2(s[2..], ',', ']');
    assert Seq2(s[1..], ',', ']');
    StepBra(s, b0);
    assert b0.(out := b0.out + [WBRA], bras := b0.bras + 1) == b1;
  }

  lemma TrailingCommaRunMid(s: string, b1: Builder)
    requires TrailingCommaText(s) && b1 == Builder([WBRA], 0, 0, 1, 0)
    ensures Run(s[1..], b1) == Builder([WBRA, 'a' as int, ',' as int, WKET, 'x' as int, WBRA, 'c' as int, '-' as int, 'd' as int, WKET], 0, 0, 2, 2)
  {
    forall k | 1 <= k < 3 ensures s[k..][1..] == s[k + 1..] {}
    var o2: seq<int> := [WBRA, 'a' as int];
    var o3: seq<int> := [WBRA, 'a' as int, ',' as int];
    var b2 := Builder(o2, 0, 0, 1, 0);
    var b3 := Builder(o3, 0, 0, 1, 0);
    assert b1.out + ['a' as int] == o2;
    assert o2 + [',' as int] == o3;
    var b10 := Builder([WBRA, 'a' as int, ',' as int, WKET, 'x' as int, WBRA, 'c' as int, '-' as int, 'd' as int, WKET], 0, 0, 2, 2);
    TrailingCommaRunKet(s, b3);
    RunPlain(s[2..], b2);
    assert Run(s[2..], b2) == b10;
    RunPlain(s[1..], b1);
  }

  lemma TrailingCommaRunKet(s: string, b3: Builder)
    requires TrailingCommaText(s) && b3 == Builder([WBRA, 'a' as int, ',' as int], 0, 0, 1, 0)
    ensures Run(s[3..], b3) == Builder([WBRA, 'a' as int, ',' as int, WKET, 'x' as int, WBRA, 'c' as int, '-' as int, 'd' as int, WKET], 0, 0, 2, 2)
  {
    forall k | 3 <= k < 5 ensures s[k..][1..] == s[k + 1..] {}
    var o3: seq<int> := [WBRA, 'a' as int, ',' as int];
    var o4: seq<int> := [WBRA, 'a' as int, ',' as int, WKET];
    var o5: seq<int> := [WBRA, 'a' as int, ',' as int, WKET, 'x' as int];
    var b4 := Builder(o4, 0, 0, 1, 1);
    var b5 := Builder(o5, 0, 0, 1, 1);
    assert o3 + [WKET] == o4;
    assert o4 + ['x' as int] == o5;
    var b10 := Builder([WBRA, 'a' as int, ',' as int, WKET, 'x' as int, WBRA, 'c' as int, '-' as int, 'd' as int, WKET], 0, 0, 2, 2);
    TrailingCommaRunTail(s, b5);
    assert Run(s[5..], b5) == b10;
    RunPlain(s[4..], b4);
    assert Run(s[4..], b4) == b10;
    RunKet(s[3..], b3);
  }

  lemma TrailingCommaRunTail(s: string, b5: Builder)
    requires TrailingCommaText(s) && b5 == Builder([WBRA, 'a' as int, ',' as int, WKET, 'x' as int], 0, 0, 1, 1)
    ensures Run(s[5..], b5) == Builder([WBRA, 'a' as int, ',' as int, WKET, 'x' as int, WBRA, 'c' as int, '-' as int, 'd' as int, WKET], 0, 0, 2, 2)
  {
    forall k | 5 <= k < 10 ensures s[k..][1..] == s[k + 1..] {}
    var o6: seq<int> := [WBRA, 'a' as int, ',' as int, WKET, 'x' as int, WBRA];
    var o7: seq<int> := [WBRA, 'a' as int, ',' as int, WKET, 'x' as int, WBRA, 'c' as int];
    var o8: seq<int> := [WBRA, 'a' as int, ',' as int, WKET, 'x' as int, WBRA, 'c' as int, '-' as int];
    var o9: seq<int> := [WBRA, 'a' as int, ',' as int, WKET, 'x' as int, WBRA, 'c' as int, '-' as int, 'd' as int];
    var o10: seq<int> := [WBRA, 'a' as int, ',' as int, WKET, 'x' as int, WBRA, 'c' as int, '-' as int, 'd' as int, WKET];
    var b6 := Builder(o6, 0, 0, 2, 1);
    var b7 := Builder(o7, 0, 0, 2, 1);
    var b8 := Builder(o8, 0, 0, 2, 1);
    var b9 := Builder(o9, 0, 0, 2, 1);
    var b10 := Builder(o10, 0, 0, 2, 2);
    assert b5.out + [WBRA] == o6;
    assert o6 + ['c' as int] == o7;
    assert o7 + ['-' as int] == o8;
    assert o8 + ['d' as int] == o9;
    assert o9 + [WKET] == o10;
    assert Run(s[10..], b10) == b10;
    RunKet(s[9..], b9);
    assert Run(s[9..], b9) == b10;
    RunPlain(s[8..], b8);
    assert Run(s[8..], b8) == b10;
    RunPlain(s[7..], b7);
    assert Run(s[7..], b7) == b10;
    RunPlain(s[6..], b6);
    assert Run(s[6..], b6) == b10;
    assert s[7..][0] == '-' && ']' in s[7..];
    assert Seq2(s[7..], '-', ']');
    assert Seq2(s[6..], '-', ']');
    RunBra(s[5..], b5);
  }

  /** Run over a character with no wild meaning writes it as a literal. */
  lemma RunPlain(s: string, b: Builder)
    requires |s| > 0 && !IsWildChar(s[0])
    ensures Run(s, b) == Run(s[1..], b.(out := b.out + [s[0] as int]))
  {
    StepPlain(s, b);
  }

  /** Run over a `[` that opens a set writes WBRA. */
  lemma RunBra(s: string, b: Builder)
    requires |s| > 0 && s[0] == '[' && (Seq2(s[1..], '-', ']') || Seq2(s[1..], ',', ']'))
    ensures Run(s, b) == Run(s[1..], b.(out := b.out + [WBRA], bras := b.bras + 1))
  {
    StepBra(s, b);
  }

  /** Run over a `]` that closes an open set writes WKET. */
  lemma RunKet(s: string, b: Builder)
    requires |s| > 0 && s[0] == ']' && b.bras > b.kets
    ensures Run(s, b) == Run(s[1..], b.(out := b.out + [WKET], kets := b.kets + 1))
  {
    assert Step(s, b) == (b.(out := b.out + [WKET], kets := b.kets + 1), 1);
  }

  lemma StepBra(s: string, b: Builder)
    requires |s| > 0 && s[0] == '[' && (Seq2(s[1..], '-', ']') || Seq2(s[1..], ',', ']'))
    ensures Step(s, b) == (b.(out := b.out + [WBRA], bras := b.bras + 1), 1)
  {
  }

  /** The intended scan stays inside its set: when the first WKET after the
      item it starts at is at m, it stops before m or at the WKET. */
  lemma {:induction false} ListScanStaysInSet(p: seq<int>, j: nat, m: nat, c: int, upr: bool)
    requires j < m < |p| && p[m] == WKET && 0 <= c < 256
    requires forall k :: j < k < m ==> p[k] != WKET
    ensures ListScan(p, j, c, upr) != Fault
    ensures ListScan(p, j, c, upr).Found? ==> ListScan(p, j, c, upr).at < m
    decreases |p| - j
  {
    if Lit(PAt(p, j), upr) == Lit(c, upr) || PAt(p, j + 1) == WKET {
    } else if Lit(PAt(p, j + 1), upr) == ',' as int {
      if PAt(p, j + 2) != WKET {
        ListScanStaysInSet(p, j + 2, m, c, upr);
      }
    } else {
      ListScanStaysInSet(p, j + 1, m, c, upr);
    }
  }

  /** MatchPatternSub(VsStr + i, PatStr + j, DoUpr): Some(the answer), or
      None when the scan reads past the end of the pattern or the string. */
  function Match(vs: string, p: seq<int>, i: nat, j: nat, upr: bool): Option<bool>
    requires IsBytes(vs) && IsPattern(p) && i <= |vs| && j <= |p|
    decreases |p| - j, 1, 0
  {
    var code := PAt(p, j);
    var c := VAt(vs, i);
    if code == WCHAR then
      if i == |vs| then Some(false) else Match(vs, p, i + 1, j + 1, upr)
    else if code == WBRA then
      var q := j + 1;
      if q == |p| then None
      else if PAt(p, q + 1) == '-' as int then
        if Lit(c, upr) < Lit(p[q], upr) || Lit(c, upr) > Lit(PAt(p, q + 2), upr) then Some(false)
        else
          match SkipTo(p, q + 3, WKET)
          case None => None
          case Some(k) => Match(vs, p, i + 1, k + 1, upr)
      else
        match ListScanAsWritten(p, q, c, upr)
        case Fault => None
        case NoMatch => Some(false)
        case Found(f) =>
          match SkipTo(p, f, WKET)
          case None => None
          case Some(k) => Match(vs, p, i + 1, k + 1, upr)
    else if code == WNOT then
      match Match(vs, p, i, j + 1, upr)
      case None => None
      case Some(b) => Some(!b)
    else if code == WANY then
      if PAt(p, j + 1) == 0 then Some(true) else AnyFrom(vs, p, i, j + 1, upr)
    else if code >= PBASE then
      var nest := code % 0x1000;
      var kind := code - nest;
      if kind == POPENOR then OrAlt(vs, p, i, j + 1, nest, upr)
      else if kind == POPENAND then AndAlt(vs, p, i, j + 1, nest, upr)
      else if kind == PDONEOR || kind == POR then
        match SkipTo(p, j, PDONEOR + nest)
        case None => None
        case Some(k) => Match(vs, p, i, k + 1, upr)
      else if kind == PDONEAND || kind == PAND then
        match SkipTo(p, j, PDONEAND + nest)
        case None => None
        case Some(k) => Match(vs, p, i, k + 1, upr)
      else Some(false)
    else if Lit(c, upr) != Lit(code, upr) then Some(false)
    else if c == 0 && code == 0 then Some(true)
    else Match(vs, p, i + 1, j + 1, upr)
  }

  /** The loop of an inner WANY: try the rest of the pattern at every suffix
      from i on, the empty one last. */
  function AnyFrom(vs: string, p: seq<int>, i: nat, j: nat, upr: bool): Option<bool>
    requires IsBytes(vs) && IsPattern(p) && i <= |vs| && j <= |p|
    decreases |p| - j, 2, |vs| - i
  {
    if i == |vs| then Match(vs, p, i, j, upr)
    else
      match Match(vs, p, i, j, upr)
      case None => None
      case Some(b) => if b then Some(true) else AnyFrom(vs, p, i + 1, j, upr)
  }

  /** The alternatives of an or-group from j on: true as soon as one matches,
      false at the group's PDONEOR. */
  function OrAlt(vs: string, p: seq<int>, i: nat, j: nat, nest: int, upr: bool): Option<bool>
    requires IsBytes(vs) && IsPattern(p) && i <= |vs| && j <= |p|
    decreases |p| - j, 2, 0
  {
    match Match(vs, p, i, j, upr)
    case None => None
    case Some(b) =>
      if b then Some(true)
      else
        match SkipTo2(p, j, POR + nest, PDONEOR + nest)
        case None => None
        case Some(k) => if p[k] == PDONEOR + nest then Some(false) else OrAlt(vs, p, i, k + 1, nest, upr)
  }

  /** The branches of an and-group from j on: false as soon as one fails,
      true at the group's PDONEAND. */
  function AndAlt(vs: string, p: seq<int>, i: nat, j: nat, nest: int, upr: bool): Option<bool>
    requires IsBytes(vs) && IsPattern(p) && i <= |vs| && j <= |p|
    decreases |p| - j, 2, 0
  {
    match Match(vs, p, i, j, upr)
    case None => None
    case Some(b) =>
      if !b then Some(false)
      else
        match SkipTo2(p, j, PAND + nest, PDONEAND + nest)
        case None => None
        case Some(k) => if p[k] == PDONEAND + nest then Some(true) else AndAlt(vs, p, i, k + 1, nest, upr)
  }

  /** `while (*PatStr != code) PatStr++;` */
  method SkipForward(p: seq<int>, j0: nat, code: int) returns (j: nat)
    requires SkipTo(p, j0, code).Some?
    ensures SkipTo(p, j0, code) == Some(j)
  {
    j := j0;
    while PAt(p, j) != code
      invariant SkipTo(p, j, code) == SkipTo(p, j0, code)
      decreases |p| - j
    {
      j := j + 1;
    }
  }

  /** `while (*PatStr != c1 && *PatStr != c2) PatStr++;` */
  method SkipForward2(p: seq<int>, j0: nat, c1: int, c2: int) returns (j: nat)
    requires SkipTo2(p, j0, c1, c2).Some?
    ensures SkipTo2(p, j0, c1, c2) == Some(j)
  {
    j := j0;
    while PAt(p, j) != c1 && PAt(p, j) != c2
      invariant SkipTo2(p, j, c1, c2) == SkipTo2(p, j0, c1, c2)
      decreases |p| - j
    {
      j := j + 1;
    }
  }

  /** The list loop of a `[a,b]` set: step on, stop at WKET, hop a comma. */
  method ScanList(p: seq<int>, j0: nat, c: int, upr: bool) returns (s: Scan)
    requires j0 <= |p| && ListScanAsWritten(p, j0, c, upr) != Fault
    ensures s == ListScanAsWritten(p, j0, c, upr)
  {
    var j := j0;
    while Lit(PAt(p, j), upr) != Lit(c, upr)
      invariant j <= |p| && ListScanAsWritten(p, j, c, upr) == ListScanAsWritten(p, j0, c, upr)
      decreases |p| - j
    {
      j := j + 1;
      if PAt(p, j) == WKET {
        return NoMatch;
      }
      if Lit(PAt(p, j), upr) == ',' as int {
        j := j + 1;
      }
    }
    return Found(j);
  }

  /** The `[` case: a range `[a-z]` or a list `[a,b]` tested against the
      current character; on success both sides step past the set. */
  method MatchSet(vs: string, p: seq<int>, i: nat, j0: nat, upr: bool) returns (ok: bool, j: nat)
    requires IsBytes(vs) && IsPattern(p) && i <= |vs| && j0 < |p| && p[j0] == WBRA
    requires Match(vs, p, i, j0, upr).Some?
    ensures !ok ==> Match(vs, p, i, j0, upr) == Some(false)
    ensures ok ==> i < |vs| && j0 < j <= |p| && Match(vs, p, i, j0, upr) == Match(vs, p, i + 1, j, upr)
  {
    var c := VAt(vs, i);
    j := j0 + 1;
    if PAt(p, j + 1) == '-' as int {
      if Lit(c, upr) < Lit(p[j], upr) || Lit(c, upr) > Lit(PAt(p, j + 2), upr) {
        return false, j;
      }
      j := j + 3;
    } else {
      var s := ScanList(p, j, c, upr);
      if s.NoMatch? {
        return false, j;
      }
      j := s.at;
    }
    j := SkipForward(p, j, WKET);
    j := j + 1;
    ok := true;
  }

  /** The codes from PBASE up: an or-group or and-group is matched whole; a
      separator or closer left over from a matched alternative skips to the
      group's closer; any other marker fails. */
  method MatchGroupCode(vs: string, p: seq<int>, i: nat, j0: nat, upr: bool) returns (done: bool, r: bool, j: nat)
    requires IsBytes(vs) && IsPattern(p) && i <= |vs| && j0 < |p| && p[j0] >= PBASE
    requires Match(vs, p, i, j0, upr).Some?
    ensures done ==> Match(vs, p, i, j0, upr) == Some(r)
    ensures !done ==> j0 < j <= |p| && Match(vs, p, i, j0, upr) == Match(vs, p, i, j, upr)
    decreases |p| - j0, 0
  {
    var code := p[j0];
    var nest := code % 0x1000;
    var kind := code - nest;
    j := j0;
    if kind == POPENOR {
      r := MatchOrGroup(vs, p, i, j0 + 1, nest, upr);
      done := true;
    } else if kind == POPENAND {
      r := MatchAndGroup(vs, p, i, j0 + 1, nest, upr);
      done := true;
    } else if kind == PDONEOR || kind == POR {
      j := SkipForward(p, j0, PDONEOR + nest);
      j, done, r := j + 1, false, false;
    } else if kind == PDONEAND || kind == PAND {
      j := SkipForward(p, j0, PDONEAND + nest);
      j, done, r := j + 1, false, false;
    } else {
      done, r := true, false;
    }
  }

  /** MatchPatternSub: walks string and pattern together, recursing for `~`,
      `*` and the alternatives of a group.  The caller guarantees that the
      pattern is not over-read. */
  method MatchPatternSub(vs: string, p: seq<int>, i0: nat, j0: nat, upr: bool) returns (r: bool)
    requires IsBytes(vs) && IsPattern(p) && i0 <= |vs| && j0 <= |p|
    requires Match(vs, p, i0, j0, upr).Some?
    ensures Match(vs, p, i0, j0, upr) == Some(r)
    decreases |p| - j0, 1
  {
    var i: nat, j: nat := i0, j0;
    while true
      invariant i <= |vs| && j0 <= j <= |p|
      invariant Match(vs, p, i, j, upr) == Match(vs, p, i0, j0, upr)
      decreases |p| - j
    {
      var code := PAt(p, j);
      var c := VAt(vs, i);
      if code == WCHAR {
        if i == |vs| {
          return false;
        }
        i, j := i + 1, j + 1;
      } else if code == WBRA {
        var ok;
        ok, j := MatchSet(vs, p, i, j, upr);
        if !ok {
          return false;
        }
        i := i + 1;
      } else if code == WNOT {
        r := MatchPatternSub(vs, p, i, j + 1, upr);
        return !r;
      } else if code == WANY {
        if PAt(p, j + 1) == 0 {
          return true;
        }
        r := MatchAnyFrom(vs, p, i, j + 1, upr);
        return;
      } else if code >= PBASE {
        var done;
        done, r, j := MatchGroupCode(vs, p, i, j, upr);
        if done {
          return;
        }
      } else {
        if Lit(c, upr) != Lit(code, upr) {
          return false;
        }
        if c == 0 && code == 0 {
          return true;
        }
        i, j := i + 1, j + 1;
      }
    }
  }

  /** The loop of an inner `*`: each suffix in turn, the empty one last. */
  method MatchAnyFrom(vs: string, p: seq<int>, i0: nat, j: nat, upr: bool) returns (r: bool)
    requires IsBytes(vs) && IsPattern(p) && i0 <= |vs| && j <= |p|
    requires AnyFrom(vs, p, i0, j, upr).Some?
    ensures AnyFrom(vs, p, i0, j, upr) == Some(r)
    decreases |p| - j, 2
  {
    var i := i0;
    while i < |vs|
      invariant i0 <= i <= |vs| && AnyFrom(vs, p, i, j, upr) == AnyFrom(vs, p, i0, j, upr)
      decreases |vs| - i
    {
      r := MatchPatternSub(vs, p, i, j, upr);
      if r {
        return;
      }
      i := i + 1;
    }
    r := MatchPatternSub(vs, p, i, j, upr);
  }

  /** The do-while loop of an or-group: the alternatives from j0 in turn. */
  method MatchOrGroup(vs: string, p: seq<int>, i: nat, j0: nat, nest: int, upr: bool) returns (r: bool)
    requires IsBytes(vs) && IsPattern(p) && i <= |vs| && j0 <= |p|
    requires OrAlt(vs, p, i, j0, nest, upr).Some?
    ensures OrAlt(vs, p, i, j0, nest, upr) == Some(r)
    decreases |p| - j0, 2
  {
    var j := j0;
    while true
      invariant j0 <= j <= |p| && OrAlt(vs, p, i, j, nest, upr) == OrAlt(vs, p, i, j0, nest, upr)
      decreases |p| - j
    {
      r := MatchPatternSub(vs, p, i, j, upr);
      if r {
        return;
      }
      j := SkipForward2(p, j, POR + nest, PDONEOR + nest);
      if PAt(p, j) == PDONEOR + nest {
        return false;
      }
      j := j + 1;
    }
  }

  /** The do-while loop of an and-group: the branches from j0 in turn. */
  method MatchAndGroup(vs: string, p: seq<int>, i: nat, j0: nat, nest: int, upr: bool) returns (r: bool)
    requires IsBytes(vs) && IsPattern(p) && i <= |vs| && j0 <= |p|
    requires AndAlt(vs, p, i, j0, nest, upr).Some?
    ensures AndAlt(vs, p, i, j0, nest, upr) == Some(r)
    decreases |p| - j0, 2
  {
    var j := j0;
    while true
      invariant j0 <= j <= |p| && AndAlt(vs, p, i, j, nest, upr) == AndAlt(vs, p, i, j0, nest, upr)
      decreases |p| - j
    {
      r := MatchPatternSub(vs, p, i, j, upr);
      if !r {
        return;
      }
      j := SkipForward2(p, j, PAND + nest, PDONEAND + nest);
      if PAt(p, j) == PDONEAND + nest {
        return true;
      }
      j := j + 1;
    }
  }

  /** MatchPatternNoCase: case folded with toupper. */
  method MatchPatternNoCase(s: string, pat: seq<int>) returns (r: bool)
    requires IsBytes(s) && IsPattern(pat) && Match(s, pat, 0, 0, true).Some?
    ensures Match(s, pat, 0, 0, true) == Some(r)
  {
    r := MatchPatternSub(s, pat, 0, 0, true);
  }

  /** MatchPatternWithCase: bytes compared as they are. */
  method MatchPatternWithCase(s: string, pat: seq<int>) returns (r: bool)
    requires IsBytes(s) && IsPattern(pat) && Match(s, pat, 0, 0, false).Some?
    ensures Match(s, pat, 0, 0, false) == Some(r)
  {
    r := MatchPatternSub(s, pat, 0, 0, false);
  }

  /** Equal after LIT, character by character. */
  predicate LitEq(a: string, b: seq<int>, upr: bool)
  {
    |a| == |b| && forall k :: 0 <= k < |a| ==> Lit(a[k] as int, upr) == Lit(b[k], upr)
  }

  lemma LitEqCons(a: string, b: seq<int>, upr: bool)
    requires |a| > 0 && |b| > 0
    ensures LitEq(a, b, upr) <==> Lit(a[0] as int, upr) == Lit(b[0], upr) && LitEq(a[1..], b[1..], upr)
  {
    if Lit(a[0] as int, upr) == Lit(b[0], upr) && LitEq(a[1..], b[1..], upr) {
      forall k | 0 <= k < |a|
        ensures Lit(a[k] as int, upr) == Lit(b[k], upr)
      {
        if k > 0 {
          assert a[1..][k - 1] == a[k] && b[1..][k - 1] == b[k];
        }
      }
    }
  }

  /** A pattern of ordinary bytes matches exactly the strings equal to it
      after LIT, ending together with it. */
  lemma {:induction false} MatchPlain(vs: string, p: seq<int>, i: nat, j: nat, upr: bool)
    requires IsBytes(vs) && IsPattern(p) && i <= |vs| && j <= |p|
    requires forall k :: j <= k < |p| ==> p[k] < 256
    ensures Match(vs, p, i, j, upr) == Some(LitEq(vs[i..], p[j..], upr))
    decreases |p| - j
  {
    if i < |vs| && j < |p| {
      LitEqCons(vs[i..], p[j..], upr);
      assert vs[i..][1..] == vs[i + 1..] && p[j..][1..] == p[j + 1..];
      if Lit(vs[i] as int, upr) == Lit(p[j], upr) {
        MatchPlain(vs, p, i + 1, j + 1, upr);
      }
    }
  }

  /** With case folding off, a plain pattern matches exactly its own bytes. */
  lemma MatchPlainWithCase(vs: string, p: seq<int>)
    requires IsBytes(vs) && IsPattern(p) && forall k :: 0 <= k < |p| ==> p[k] < 256
    ensures Match(vs, p, 0, 0, false) == Some(Codes(vs) == p)
  {
    MatchPlain(vs, p, 0, 0, false);
    assert vs[0..] == vs && p[0..] == p;
    if LitEq(vs, p, false) {
      assert Codes(vs) == p;
    }
  }

  /** A run of n `?` matches exactly the strings of n characters. */
  lemma {:induction false} MatchAnyChars(vs: string, p: seq<int>, i: nat, j: nat, upr: bool)
    requires IsBytes(vs) && IsPattern(p) && i <= |vs| && j <= |p|
    requires forall k :: j <= k < |p| ==> p[k] == WCHAR
    ensures Match(vs, p, i, j, upr) == Some(|vs| - i == |p| - j)
    decreases |p| - j
  {
    if j < |p| && i < |vs| {
      MatchAnyChars(vs, p, i + 1, j + 1, upr);
    }
  }

  /** `t*`: plain bytes then a final `*` match exactly the strings that start
      with t after LIT. */
  lemma {:induction false} MatchPrefix(vs: string, p: seq<int>, i: nat, j: nat, upr: bool)
    requires IsBytes(vs) && IsPattern(p) && i <= |vs| && j < |p| && p[|p| - 1] == WANY
    requires forall k :: j <= k < |p| - 1 ==> p[k] < 256
    ensures Match(vs, p, i, j, upr) ==
      Some(|p| - 1 - j <= |vs| - i && LitEq(vs[i..i + (|p| - 1 - j)], p[j..|p| - 1], upr))
    decreases |p| - j
  {
    var n := |p| - 1 - j;
    if n > 0 && i < |vs| && Lit(vs[i] as int, upr) == Lit(p[j], upr) {
      MatchPrefix(vs, p, i + 1, j + 1, upr);
      if n <= |vs| - i {
        var a := vs[i..i + n];
        LitEqCons(a, p[j..|p| - 1], upr);
        assert a[1..] == vs[i + 1..i + 1 + (n - 1)];
        assert p[j..|p| - 1][1..] == p[j + 1..|p| - 1];
      }
    } else if n > 0 && i < |vs| && n <= |vs| - i {
      assert vs[i..i + n][0] == vs[i] && p[j..|p| - 1][0] == p[j];
    }
  }

  /** An inner `*` tries every suffix: when no attempt over-reads, it matches
      iff the rest of the pattern matches from some position i..|vs|, the
      end of the string included. */
  lemma {:induction false} AnyFromSomeSuffix(vs: string, p: seq<int>, i: nat, j: nat, upr: bool)
    requires IsBytes(vs) && IsPattern(p) && i <= |vs| && j <= |p|
    requires forall k :: i <= k <= |vs| ==> Match(vs, p, k, j, upr).Some?
    ensures AnyFrom(vs, p, i, j, upr) == Some(exists k :: i <= k <= |vs| && Match(vs, p, k, j, upr) == Some(true))
    decreases |vs| - i
  {
    var m := Match(vs, p, i, j, upr);
    assert m.Some?;
    if m.value {
      assert AnyFrom(vs, p, i, j, upr) == Some(true);
      assert i <= i <= |vs| && Match(vs, p, i, j, upr) == Some(true);
      assert exists k :: i <= k <= |vs| && Match(vs, p, k, j, upr) == Some(true);
    } else if i == |vs| {
      assert AnyFrom(vs, p, i, j, upr) == Some(false);
      forall k | i <= k <= |vs|
        ensures Match(vs, p, k, j, upr) != Some(true)
      {
        assert k == i;
      }
    } else {
      AnyFromSomeSuffix(vs, p, i + 1, j, upr);
      assert AnyFrom(vs, p, i, j, upr) == AnyFrom(vs, p, i + 1, j, upr);
      if exists k :: i <= k <= |vs| && Match(vs, p, k, j, upr) == Some(true) {
        var k :| i <= k <= |vs| && Match(vs, p, k, j, upr) == Some(true);
        assert i + 1 <= k <= |vs|;
      }
    }
  }

  /** `*t`: a leading `*` before plain bytes matches exactly the strings that
      end with t after LIT. */
  lemma MatchSuffix(vs: string, p: seq<int>, upr: bool)
    requires IsBytes(vs) && IsPattern(p) && |p| > 1 && p[0] == WANY
    requires forall k :: 1 <= k < |p| ==> p[k] < 256
    ensures Match(vs, p, 0, 0, upr) == Some(|p| - 1 <= |vs| && LitEq(vs[|vs| - (|p| - 1)..], p[1..], upr))
  {
    forall k | 0 <= k <= |vs|
      ensures Match(vs, p, k, 1, upr) == Some(LitEq(vs[k..], p[1..], upr))
    {
      MatchPlain(vs, p, k, 1, upr);
    }
    AnyFromSomeSuffix(vs, p, 0, 1, upr);
    assert Match(vs, p, 0, 0, upr) == AnyFrom(vs, p, 0, 1, upr);
    if |p| - 1 <= |vs| && LitEq(vs[|vs| - (|p| - 1)..], p[1..], upr) {
      var k := |vs| - (|p| - 1);
      assert 0 <= k <= |vs| && Match(vs, p, k, 1, upr) == Some(true);
      assert exists k :: 0 <= k <= |vs| && Match(vs, p, k, 1, upr) == Some(true);
    } else {
      forall k | 0 <= k <= |vs|
        ensures Match(vs, p, k, 1, upr) != Some(true)
      {
      }
    }
  }

  /** `~t`: a leading `~` before plain bytes matches exactly the strings that
      do not equal t after LIT. */
  lemma MatchNotPlain(vs: string, p: seq<int>, upr: bool)
    requires IsBytes(vs) && IsPattern(p) && |p| > 0 && p[0] == WNOT
    requires forall k :: 1 <= k < |p| ==> p[k] < 256
    ensures Match(vs, p, 0, 0, upr) == Some(!LitEq(vs, p[1..], upr))
  {
    MatchPlain(vs, p, 0, 1, upr);
    assert vs[0..] == vs;
  }

  /** The codes left by RenameByPatSimplify: ordinary bytes, `*`, and any
      other code below PBASE that is none of `?`, `~` and `[`. */
  predicate SimpleCode(x: int)
  {
    0 < x < PBASE && x != WCHAR && x != WNOT && x != WBRA
  }

  /** RenameByPatSimplify from index j: every wild part becomes one `*`.  A
      set is skipped to its WKET, `~` ends the pattern, and a group marker
      skips to the next closer of its depth; None when a skip runs past the
      terminator. */
  function Simplified(p: seq<int>, j: nat): (r: Option<seq<int>>)
    requires IsPattern(p) && j <= |p|
    decreases |p| - j
    ensures r.Some? ==> |r.value| <= |p| - j
  {
    var code := PAt(p, j);
    if code == 0 then Some([])
    else if code == WBRA then
      match SkipTo(p, j, WKET)
      case None => None
      case Some(k) =>
        match Simplified(p, k + 1)
        case None => None
        case Some(rest) => Some([WANY] + rest)
    else if code == WCHAR then
      match Simplified(p, j + 1)
      case None => None
      case Some(rest) => Some([WANY] + rest)
    else if code == WNOT then Some([WANY])
    else if code >= PBASE then
      var nest := code % 0x1000;
      match SkipTo2(p, j, PDONEAND + nest, PDONEOR + nest)
      case None => None
      case Some(k) =>
        match Simplified(p, k + 1)
        case None => None
        case Some(rest) => Some([WANY] + rest)
    else
      match Simplified(p, j + 1)
      case None => None
      case Some(rest) => Some([code] + rest)
  }

  /** Only simple codes are left: no `?`, `~`, `[` and no group marker. */
  lemma {:induction false} SimplifiedIsSimple(p: seq<int>, j: nat)
    requires IsPattern(p) && j <= |p| && Simplified(p, j).Some?
    ensures forall k :: 0 <= k < |Simplified(p, j).value| ==> SimpleCode(Simplified(p, j).value[k])
    decreases |p| - j
  {
    var code := PAt(p, j);
    if code == 0 || code == WNOT {
    } else if code == WBRA {
      SimplifiedIsSimple(p, SkipTo(p, j, WKET).value + 1);
    } else if code == WCHAR || code < PBASE {
      SimplifiedIsSimple(p, j + 1);
    } else {
      var nest := code % 0x1000;
      SimplifiedIsSimple(p, SkipTo2(p, j, PDONEAND + nest, PDONEOR + nest).value + 1);
    }
  }

  /** A pattern without wild codes is left as it is. */
  lemma {:induction false} SimplifiedPlain(p: seq<int>, j: nat)
    requires IsPattern(p) && j <= |p| && forall k :: j <= k < |p| ==> p[k] < 256
    ensures Simplified(p, j) == Some(p[j..])
    decreases |p| - j
  {
    if j < |p| {
      SimplifiedPlain(p, j + 1);
      assert p[j..] == [p[j]] + p[j + 1..];
    } else {
      assert p[j..] == [];
    }
  }

  /** One turn of RenameByPatSimplify past a code that neither ends the
      pattern nor is `~`: the code it writes and where it goes on. */
  method SimplifyCode(fm: seq<int>, f: nat) returns (put: int, next: nat)
    requires IsPattern(fm) && f < |fm| && fm[f] != WNOT && Simplified(fm, f).Some?
    ensures f < next <= |fm| && Simplified(fm, next).Some?
    ensures Simplified(fm, f).value == [put] + Simplified(fm, next).value
  {
    var code := fm[f];
    put, next := code, f;
    if code == WBRA {
      put := WANY;
      next := SkipForward(fm, f, WKET);
    } else if code == WCHAR {
      put := WANY;
    } else if code >= PBASE {
      var nest := code % 0x1000;
      put := WANY;
      next := SkipForward2(fm, f, PDONEAND + nest, PDONEOR + nest);
    }
    next := next + 1;
  }

  /** The last turn of RenameByPatSimplify: the terminator, or `~` read as
      a final `*`. */
  method FinishSimplified(fm: seq<int>, to: array<int>, f: nat, t: nat, ghost whole: seq<int>)
    requires IsPattern(fm) && f <= |fm| && t <= f && to.Length > |fm|
    requires PAt(fm, f) == 0 || PAt(fm, f) == WNOT
    requires Simplified(fm, f).Some? && to[..t] + Simplified(fm, f).value == whole
    modifies to
    ensures to[..|whole|] == whole && to[|whole|] == 0
  {
    if PAt(fm, f) == 0 {
      assert Simplified(fm, f).value == [];
      to[t] := 0;
    } else {
      assert Simplified(fm, f).value == [WANY];
      to[t] := WANY;
      to[t + 1] := 0;
      assert to[..t + 1] == to[..t] + [WANY];
    }
  }

  /** A turn of RenameByPatSimplify that writes one simple code. */
  method PutSimplified(fm: seq<int>, to: array<int>, f: nat, t: nat, ghost whole: seq<int>) returns (next: nat)
    requires IsPattern(fm) && f <= |fm| && t <= f && to.Length > |fm|
    requires PAt(fm, f) != 0 && PAt(fm, f) != WNOT
    requires Simplified(fm, f).Some? && to[..t] + Simplified(fm, f).value == whole
    modifies to
    ensures f < next <= |fm| && Simplified(fm, next).Some?
    ensures to[..t + 1] + Simplified(fm, next).value == whole
  {
    var put;
    put, next := SimplifyCode(fm, f);
    to[t] := put;
    assert to[..t + 1] == to[..t] + [put];
  }

  /** RenameByPatSimplify(Fm, To): writes the simplified pattern and its
      terminator into To. */
  method RenameByPatSimplify(fm: seq<int>, to: array<int>)
    requires IsPattern(fm) && Simplified(fm, 0).Some? && to.Length > |fm|
    modifies to
    ensures to[..|Simplified(fm, 0).value|] == Simplified(fm, 0).value
    ensures to[|Simplified(fm, 0).value|] == 0
  {
    ghost var whole := Simplified(fm, 0).value;
    var f: nat, t: nat := 0, 0;
    while true
      invariant f <= |fm| && Simplified(fm, f).Some? && t <= f
      invariant to[..t] + Simplified(fm, f).value == whole
      decreases |fm| - f
    {
      var code := PAt(fm, f);
      if code == 0 || code == WNOT {
        FinishSimplified(fm, to, f, t, whole);
        return;
      }
      f := PutSimplified(fm, to, f, t, whole);
      t := t + 1;
    }
  }

  /** Upper-case letters of s, counted from the end. */
  function NumUpper(s: string): nat
  {
    if |s| == 0 then 0 else NumUpper(s[..|s| - 1]) + (if IsUpper(s[|s| - 1]) then 1 else 0)
  }

  /** Lower-case letters of s: the letters that are not upper-case. */
  function NumLower(s: string): nat
  {
    if |s| == 0 then 0 else NumLower(s[..|s| - 1]) + (if IsLower(s[|s| - 1]) then 1 else 0)
  }

  /** The case of a source text, as strcpyKeepCase classifies it. */
  datatype CaseKind = NoLetters | AllUpper | AllLower | Capitalised | Mixed

  function CaseOf(src: string): CaseKind
  {
    var u, l := NumUpper(src), NumLower(src);
    if u + l == 0 then NoLetters
    else if l == 0 then AllUpper
    else if u == 0 then AllLower
    else if u == 1 && |src| > 0 && IsUpper(src[0]) then Capitalised
    else Mixed
  }

  function Upper(s: string): (r: string)
  {
    seq(|s|, k requires 0 <= k < |s| => ToUpper(s[k]))
  }

  function Lower(s: string): (r: string)
  {
    seq(|s|, k requires 0 <= k < |s| => ToLower(s[k]))
  }

  /** What strcpyKeepCase writes: `put` in the case of `src`.  It always
      spells the same letters as `put`, ignoring case. */
  function KeepCase(put: string, src: string): (r: string)
    ensures |r| == |put|
    ensures forall k :: 0 <= k < |r| ==> ToUpper(r[k]) == ToUpper(put[k])
  {
    match CaseOf(src)
    case AllUpper => Upper(put)
    case AllLower => Lower(put)
    case Capitalised => if |put| == 0 then put else [ToUpper(put[0])] + Lower(put[1..])
    case _ => put
  }

  lemma {:induction false} CountsAppend(a: string, b: string)
    ensures NumUpper(a + b) == NumUpper(a) + NumUpper(b)
    ensures NumLower(a + b) == NumLower(a) + NumLower(b)
    decreases |b|
  {
    if |b| > 0 {
      assert (a + b)[..|a + b| - 1] == a + b[..|b| - 1];
      CountsAppend(a, b[..|b| - 1]);
    } else {
      assert a + b == a;
    }
  }

  /** Upper-casing turns every letter into an upper-case one. */
  lemma {:induction false} CountsUpper(s: string)
    ensures NumUpper(Upper(s)) == NumUpper(s) + NumLower(s) && NumLower(Upper(s)) == 0
    decreases |s|
  {
    if |s| > 0 {
      assert Upper(s)[..|s| - 1] == Upper(s[..|s| - 1]);
      CountsUpper(s[..|s| - 1]);
    }
  }

  /** Lower-casing turns every letter into a lower-case one. */
  lemma {:induction false} CountsLower(s: string)
    ensures NumLower(Lower(s)) == NumUpper(s) + NumLower(s) && NumUpper(Lower(s)) == 0
    decreases |s|
  {
    if |s| > 0 {
      assert Lower(s)[..|s| - 1] == Lower(s[..|s| - 1]);
      CountsLower(s[..|s| - 1]);
    }
  }

  /** The copy takes on the case of the source: an all-upper or all-lower
      source gives an all-upper or all-lower copy of any text with a letter,
      and a capitalised source a capitalised copy of a text that starts with
      a letter and has another one. */
  lemma KeepCaseFollowsSource(put: string, src: string)
    ensures CaseOf(src) == AllUpper && NumUpper(put) + NumLower(put) > 0 ==> CaseOf(KeepCase(put, src)) == AllUpper
    ensures CaseOf(src) == AllLower && NumUpper(put) + NumLower(put) > 0 ==> CaseOf(KeepCase(put, src)) == AllLower
    ensures CaseOf(src) == Capitalised && |put| > 0 && IsAlpha(put[0]) && NumUpper(put[1..]) + NumLower(put[1..]) > 0 ==>
      CaseOf(KeepCase(put, src)) == Capitalised
  {
    match CaseOf(src)
    case AllUpper => CountsUpper(put);
    case AllLower => CountsLower(put);
    case Capitalised =>
      if |put| > 0 {
        var r := KeepCase(put, src);
        assert r == [ToUpper(put[0])] + Lower(put[1..]);
        CountsLower(put[1..]);
        CountsAppend([ToUpper(put[0])], Lower(put[1..]));
        assert [ToUpper(put[0])][..0] == [];
        assert NumUpper([ToUpper(put[0])]) == (if IsUpper(ToUpper(put[0])) then 1 else 0);
        assert NumLower([ToUpper(put[0])]) == 0;
      }
    case _ =>
  }

  /** Copying a copy again with the same source changes nothing. */
  lemma KeepCaseIdempotent(put: string, src: string)
    ensures KeepCase(KeepCase(put, src), src) == KeepCase(put, src)
  {
    var r := KeepCase(put, src);
    match CaseOf(src)
    case AllUpper => assert Upper(r) == r;
    case AllLower => assert Lower(r) == r;
    case Capitalised =>
      if |put| > 0 {
        assert r[1..] == Lower(put[1..]);
        assert Lower(r[1..]) == r[1..];
      }
    case _ =>
  }

  /** Writes f of each character of put from `start` on, then the terminator. */
  method WriteMapped(into: array<char>, put: string, start: nat, f: char -> char)
    requires start <= |put| < into.Length
    modifies into
    ensures forall k :: 0 <= k < start ==> into[k] == old(into[k])
    ensures forall k :: start <= k < |put| ==> into[k] == f(put[k])
    ensures into[|put|] == Nul
  {
    var k := start;
    while k < |put|
      invariant start <= k <= |put|
      invariant forall m :: 0 <= m < start ==> into[m] == old(into[m])
      invariant forall m :: start <= m < k ==> into[m] == f(put[m])
    {
      into[k] := f(put[k]);
      k := k + 1;
    }
    into[k] := Nul;
  }

  /** The counting loop of strcpyKeepCase. */
  method CountCase(src: string, srcLen: nat) returns (numUpper: nat, numLower: nat)
    requires srcLen <= |src|
    ensures numUpper == NumUpper(src[..srcLen]) && numLower == NumLower(src[..srcLen])
  {
    numUpper, numLower := 0, 0;
    for i := 0 to srcLen
      invariant numUpper == NumUpper(src[..i]) && numLower == NumLower(src[..i])
    {
      if IsAlpha(src[i]) {
        if IsUpper(src[i]) {
          numUpper := numUpper + 1;
        } else {
          numLower := numLower + 1;
        }
      }
      assert src[..i + 1][..i] == src[..i];
    }
  }

  /** strcpyKeepCase(into, putString, src, srcLen): counts the letters of
      src[..srcLen] and writes putString in the matching case. */
  method StrcpyKeepCase(into: array<char>, put: string, src: string, srcLen: nat)
    requires srcLen <= |src| && NulFree(src[..srcLen]) && NulFree(put) && |put| < into.Length
    modifies into
    ensures into[..|put|] == KeepCase(put, src[..srcLen]) && into[|put|] == Nul
  {
    var numUpper, numLower := CountCase(src, srcLen);
    ghost var r := KeepCase(put, src[..srcLen]);
    if numLower + numUpper == 0 {
      WriteMapped(into, put, 0, c => c);
      assert forall k :: 0 <= k < |put| ==> into[k] == r[k];
    } else if numLower == 0 {
      WriteMapped(into, put, 0, ToUpper);
      assert forall k :: 0 <= k < |put| ==> into[k] == r[k];
    } else if numUpper == 0 {
      WriteMapped(into, put, 0, ToLower);
      assert forall k :: 0 <= k < |put| ==> into[k] == r[k];
    } else if numUpper == 1 && IsAlpha(src[0]) && IsUpper(src[0]) {
      if |put| > 0 {
        into[0] := ToUpper(put[0]);
        WriteMapped(into, put, 1, ToLower);
      } else {
        WriteMapped(into, put, 0, ToLower);
      }
      assert forall k :: 0 <= k < |put| ==> into[k] == r[k];
    } else {
      WriteMapped(into, put, 0, c => c);
      assert forall k :: 0 <= k < |put| ==> into[k] == r[k];
    }
  }


  /** A pattern of simple codes only, as RenameByPatSimplify leaves it. */
  predicate IsSimple(p: seq<int>)
  {
    forall k :: 0 <= k < |p| ==> SimpleCode(p[k])
  }

  /** Codes of ordinary, non-zero bytes. */
  predicate PlainCodes(a: seq<int>)
  {
    forall k :: 0 <= k < |a| ==> 0 < a[k] < 256
  }

  /** A simple pattern never makes the matcher over-read. */
  lemma {:induction false} MatchSimpleSome(vs: string, p: seq<int>, i: nat, j: nat, upr: bool)
    requires IsBytes(vs) && IsSimple(p) && i <= |vs| && j <= |p|
    ensures Match(vs, p, i, j, upr).Some?
    decreases |p| - j, 1, 0
  {
    var code := PAt(p, j);
    if code == WANY {
      if PAt(p, j + 1) != 0 {
        AnyFromSimpleSome(vs, p, i, j + 1, upr);
      }
    } else if i < |vs| && j < |p| && Lit(VAt(vs, i), upr) == Lit(code, upr) {
      MatchSimpleSome(vs, p, i + 1, j + 1, upr);
    }
  }

  lemma {:induction false} AnyFromSimpleSome(vs: string, p: seq<int>, i: nat, j: nat, upr: bool)
    requires IsBytes(vs) && IsSimple(p) && i <= |vs| && j <= |p|
    ensures AnyFrom(vs, p, i, j, upr).Some?
    decreases |p| - j, 2, |vs| - i
  {
    MatchSimpleSome(vs, p, i, j, upr);
    if i < |vs| {
      AnyFromSimpleSome(vs, p, i + 1, j, upr);
    }
  }

  /** `String += patchar`: the code truncated to a byte. */
  function ByteOf(x: int): char
  {
    (x % 256) as char
  }

  function Chars(p: seq<int>): (r: string)
  {
    seq(|p|, k requires 0 <= k < |p| => ByteOf(p[k]))
  }

  /** `while (*Pat != WANY && *Pat != 0) Pat++;` from j: the first `*` or
      the end. */
  function LitRun(p: seq<int>, j: nat): (r: nat)
    requires j <= |p|
    decreases |p| - j
    ensures j <= r <= |p| && (r < |p| ==> p[r] == WANY)
    ensures forall k :: j <= k < r ==> p[k] != WANY
  {
    if j == |p| || p[j] == WANY then j else LitRun(p, j + 1)
  }

  lemma LitRunIs(p: seq<int>, j: nat, m: nat)
    requires j <= m <= |p| && (m < |p| ==> p[m] == WANY)
    requires forall k :: j <= k < m ==> p[k] != WANY
    ensures LitRun(p, j) == m
  {
  }

  /** The first position from i at which the pattern from j matches, case
      folded, or the end of the string. */
  function SearchFrom(vs: string, p: seq<int>, i: nat, j: nat): (r: nat)
    requires IsBytes(vs) && IsPattern(p) && i <= |vs| && j <= |p|
    decreases |vs| - i
    ensures i <= r <= |vs|
    ensures r < |vs| ==> Match(vs, p, r, j, true) == Some(true)
    ensures forall k :: i <= k < r ==> Match(vs, p, k, j, true) != Some(true)
  {
    if i == |vs| || Match(vs, p, i, j, true) == Some(true) then i else SearchFrom(vs, p, i + 1, j)
  }

  /** The literals left in the target pattern once the source string is
      used up: None at a `*`, which makes RenameByPat fail. */
  function TailLits(p: seq<int>, j: nat): (r: Option<string>)
    requires j <= |p|
    decreases |p| - j
    ensures r.Some? <==> forall k :: j <= k < |p| ==> p[k] != WANY
    ensures r.Some? ==> r.value == Chars(p[j..])
  {
    if j == |p| then Some([])
    else if p[j] == WANY then None
    else
      match TailLits(p, j + 1)
      case None => None
      case Some(t) =>
        assert Chars(p[j..]) == [ByteOf(p[j])] + Chars(p[j + 1..]);
        Some([ByteOf(p[j])] + t)
  }

  /** How RenameByPat ends: over-reading a string, returning 0, or returning
      1 with the new name. */
  datatype Outcome = OverRead | Failed | Named(name: string)

  /** What one flush appends: the target literals, in the case of the source
      text they stand for when keepCase is set. */
  function Flush(toBuf: string, fmBuf: string, keep: bool): (r: string)
    ensures |r| == |toBuf|
  {
    if keep then KeepCase(toBuf, fmBuf) else toBuf
  }

  /** After one turn of RenameByPat's loop: its outcome, or where the next
      turn starts. */
  datatype Turned = Done(outcome: Outcome) | Next(fs: nat, fp: nat, tp: nat, out: string)

  /** One turn of RenameByPat's loop, with the source string at fs, the
      simplified patterns at fp and tp, and `out` written: the literals up to
      the next `*` of each pattern, then the flush.  The source literals may
      run onto the string's terminator, which is read into the buffer like
      any other character; only a literal beyond it is an over-read.  A
      string pointer left past the terminator over-reads at the stars. */
  function Turn(vs: string, fm: seq<int>, to: seq<int>, fs: nat, fp: nat, tp: nat, out: string, keep: bool): (r: Turned)
    requires IsBytes(vs) && IsSimple(fm) && IsSimple(to)
    requires fs <= |vs| && fp <= |fm| && tp <= |to|
    ensures r.Next? ==> r.fs <= |vs| && r.fp <= |fm| && tp < r.tp <= |to|
  {
    var te := LitRun(to, tp);
    var fe := LitRun(fm, fp);
    var fs1 := fs + (fe - fp);
    if fs1 > |vs| + 1 then Done(OverRead)
    else
      var fmBuf := if fs1 <= |vs| then vs[fs..fs1] else vs[fs..] + [Nul];
      var out1 := out + Flush(Chars(to[tp..te]), fmBuf, keep);
      if te == |to| then Done(Named(out1))
      else if fe == |fm| then Done(Failed)
      else if fs1 > |vs| then Done(OverRead)
      else AfterStars(vs, fm, to, fs1, fe + 1, te + 1, out1)
  }

  /** Source literals one longer than the rest of the string read its
      terminator and no further: the turn still flushes, and the rename ends
      with the new name when the target pattern ends there ("a" renamed by
      "ab" to "x" is "x"). */
  lemma TurnReadsTerminator(vs: string, fm: seq<int>, to: seq<int>, keep: bool)
    requires IsBytes(vs) && IsSimple(fm) && IsSimple(to)
    requires |fm| == |vs| + 1 && forall k :: 0 <= k < |fm| ==> fm[k] != WANY
    requires forall k :: 0 <= k < |to| ==> to[k] != WANY
    ensures Turn(vs, fm, to, 0, 0, 0, [], keep) == Done(Named(Flush(Chars(to), vs + [Nul], keep)))
    ensures Rename(vs, fm, to, 0, 0, 0, [], keep) == Named(Flush(Chars(to), vs + [Nul], keep))
  {
    assert LitRun(fm, 0) == |fm| && LitRun(to, 0) == |to|;
    assert to[0..|to|] == to && vs[0..] == vs;
    var f := Flush(Chars(to), vs + [Nul], keep);
    assert [] + f == f;
  }

  /** The name "a" renamed from "ab" to "x" reads the terminator for the "b"
      and becomes "x". */
  lemma RenameTerminatorExample()
    ensures Rename("a", ['a' as int, 'b' as int], ['x' as int], 0, 0, 0, [], false) == Named("x")
  {
    TurnReadsTerminator("a", ['a' as int, 'b' as int], ['x' as int], false);
    assert Chars(['x' as int]) == "x";
  }

  /** The rest of a turn, both patterns just past a `*`: the string's rest
      when both end, else the source text up to where the source pattern
      matches again (dropped after `*$`), then the target's trailing
      literals once the string is used up. */
  function AfterStars(vs: string, fm: seq<int>, to: seq<int>, fs: nat, fp: nat, tp: nat, out: string): (r: Turned)
    requires IsBytes(vs) && IsSimple(fm) && IsSimple(to)
    requires fs <= |vs| && 0 < fp <= |fm| && 0 < tp <= |to|
    ensures r.Next? ==> r.fs <= |vs| && r.fp == fp && tp <= r.tp <= |to|
  {
    if tp == |to| && fp == |fm| then Done(Named(out + vs[fs..]))
    else
      var dollar := tp < |to| && to[tp] == '$' as int;
      var tp1 := if dollar then tp + 1 else tp;
      var k := SearchFrom(vs, fm, fs, fp);
      var out1 := if dollar then out else out + vs[fs..k];
      if k == |vs| then
        match TailLits(to, tp1)
        case None => Done(Failed)
        case Some(t) => Done(Named(out1 + t))
      else if tp1 == |to| then Done(Named(out1))
      else Next(k, fp, tp1, out1)
  }

  /** RenameByPat's loop from a turn on, to its outcome. */
  function Rename(vs: string, fm: seq<int>, to: seq<int>, fs: nat, fp: nat, tp: nat, out: string, keep: bool): Outcome
    requires IsBytes(vs) && IsSimple(fm) && IsSimple(to)
    requires fs <= |vs| && fp <= |fm| && tp <= |to|
    decreases |to| - tp
  {
    match Turn(vs, fm, to, fs, fp, tp, out, keep)
    case Done(o) => o
    case Next(fs1, fp1, tp1, out1) => Rename(vs, fm, to, fs1, fp1, tp1, out1, keep)
  }

  /** A turn that goes on hands the loop its new state. */
  lemma RenameNext(vs: string, fm: seq<int>, to: seq<int>, fs: nat, fp: nat, tp: nat, out: string, keep: bool,
                   fs1: nat, fp1: nat, tp1: nat, out1: string)
    requires IsBytes(vs) && IsSimple(fm) && IsSimple(to)
    requires fs <= |vs| && fp <= |fm| && tp <= |to|
    requires Turn(vs, fm, to, fs, fp, tp, out, keep) == Next(fs1, fp1, tp1, out1)
    ensures fs1 <= |vs| && fp1 <= |fm| && tp1 <= |to|
    ensures Rename(vs, fm, to, fs, fp, tp, out, keep) == Rename(vs, fm, to, fs1, fp1, tp1, out1, keep)
  {
  }

  /** A turn that ends the loop gives its outcome. */
  lemma RenameDone(vs: string, fm: seq<int>, to: seq<int>, fs: nat, fp: nat, tp: nat, out: string, keep: bool, o: Outcome)
    requires IsBytes(vs) && IsSimple(fm) && IsSimple(to)
    requires fs <= |vs| && fp <= |fm| && tp <= |to|
    requires Turn(vs, fm, to, fs, fp, tp, out, keep) == Done(o)
    ensures Rename(vs, fm, to, fs, fp, tp, out, keep) == o
  {
  }

  /** RenameByPat(FmPat, FmStr, ToPat, ToStr, keepCase) on the patterns as
      compiled: both are simplified first. */
  function RenameSpec(vs: string, fmPat: seq<int>, toPat: seq<int>, keep: bool): Outcome
    requires IsBytes(vs) && IsPattern(fmPat) && IsPattern(toPat)
  {
    var f, t := Simplified(fmPat, 0), Simplified(toPat, 0);
    if f.None? || t.None? then OverRead
    else
      SimplifiedIsSimple(fmPat, 0);
      SimplifiedIsSimple(toPat, 0);
      Rename(vs, f.value, t.value, 0, 0, 0, [], keep)
  }

  /** Gathers the target literals up to the next `*`. */
  method ToLiterals(to: seq<int>, tp: nat) returns (buf: string, te: nat)
    requires tp <= |to|
    ensures te == LitRun(to, tp) && buf == Chars(to[tp..te])
  {
    buf, te := [], tp;
    while te < |to| && to[te] != WANY
      invariant tp <= te <= |to| && LitRun(to, te) == LitRun(to, tp)
      invariant buf == Chars(to[tp..te])
      decreases |to| - te
    {
      buf := buf + [ByteOf(to[te])];
      te := te + 1;
    }
  }

  /** Steps the source string along the source literals up to the next `*`,
      reading the terminator like any other character; over-reads when a
      literal is left once the terminator has been read. */
  method FmLiterals(vs: string, fm: seq<int>, fs: nat, fp: nat) returns (over: bool, buf: string, fs1: nat, fe: nat)
    requires fs <= |vs| && fp <= |fm|
    ensures fe == LitRun(fm, fp) && over == (fs + (fe - fp) > |vs| + 1)
    ensures !over ==> fs1 == fs + (fe - fp) && buf == (if fs1 <= |vs| then vs[fs..fs1] else vs[fs..] + [Nul])
  {
    var mem := vs + [Nul];
    buf, fs1, fe := [], fs, fp;
    while fe < |fm| && fm[fe] != WANY
      invariant fp <= fe <= |fm| && LitRun(fm, fe) == LitRun(fm, fp)
      invariant fs1 == fs + (fe - fp) <= |mem| && buf == mem[fs..fs1]
      decreases |fm| - fe
    {
      if fs1 == |mem| {
        over := true;
        fe := LitRun(fm, fp);
        return;
      }
      buf := buf + [mem[fs1]];
      fs1, fe := fs1 + 1, fe + 1;
    }
    over := false;
    if fs1 <= |vs| {
      assert mem[fs..fs1] == vs[fs..fs1];
    } else {
      assert mem[fs..fs1] == vs[fs..] + [Nul];
    }
  }

  /** `while (*FmStr && !MatchPatternNoCase(FmStr, FmPat)) FmStr++;` */
  method SearchMatch(vs: string, fm: seq<int>, i: nat, j: nat) returns (k: nat)
    requires IsBytes(vs) && IsSimple(fm) && i <= |vs| && j <= |fm|
    ensures k == SearchFrom(vs, fm, i, j)
  {
    k := i;
    while k < |vs|
      invariant i <= k <= |vs| && SearchFrom(vs, fm, k, j) == SearchFrom(vs, fm, i, j)
      decreases |vs| - k
    {
      MatchSimpleSome(vs, fm, k, j, true);
      var m := MatchPatternSub(vs, fm, k, j, true);
      if m {
        return;
      }
      k := k + 1;
    }
  }

  /** Appends the target literals left once the string is used up. */
  method TailLiterals(to: seq<int>, tp: nat) returns (r: Option<string>)
    requires tp <= |to|
    ensures r == TailLits(to, tp)
  {
    var buf: string, j := [], tp;
    while j < |to|
      invariant tp <= j <= |to| && buf == Chars(to[tp..j])
      invariant forall k :: tp <= k < j ==> to[k] != WANY
      decreases |to| - j
    {
      if to[j] == WANY {
        return None;
      }
      buf := buf + [ByteOf(to[j])];
      j := j + 1;
    }
    assert to[tp..j] == to[tp..];
    r := Some(buf);
  }

  /** One turn of RenameByPat's loop. */
  method RenameTurn(vs: string, fm: seq<int>, to: seq<int>, fs: nat, fp: nat, tp: nat, out0: string, keep: bool)
    returns (r: Turned)
    requires IsBytes(vs) && IsSimple(fm) && IsSimple(to)
    requires fs <= |vs| && fp <= |fm| && tp <= |to|
    ensures r == Turn(vs, fm, to, fs, fp, tp, out0, keep)
  {
    var toBuf, te := ToLiterals(to, tp);
    var over, fmBuf, fs1, fe := FmLiterals(vs, fm, fs, fp);
    if over {
      return Done(OverRead);
    }
    var out := out0 + Flush(toBuf, fmBuf, keep);
    if te == |to| {
      return Done(Named(out));
    }
    if fe == |fm| {
      return Done(Failed);
    }
    if fs1 > |vs| {
      return Done(OverRead);
    }
    TurnPastStars(vs, fm, to, fs, fp, tp, out0, keep, te, fe, fs1, out);
    r := RenameAfterStars(vs, fm, to, fs1, fe + 1, te + 1, out);
  }

  /** A turn whose literal runs both stop at a `*` goes on past the stars. */
  lemma TurnPastStars(vs: string, fm: seq<int>, to: seq<int>, fs: nat, fp: nat, tp: nat, out0: string, keep: bool,
                      te: nat, fe: nat, fs1: nat, out: string)
    requires IsBytes(vs) && IsSimple(fm) && IsSimple(to)
    requires fs <= |vs| && fp <= |fm| && tp <= |to|
    requires te == LitRun(to, tp) < |to| && fe == LitRun(fm, fp) < |fm|
    requires fs1 == fs + (fe - fp) <= |vs|
    requires out == out0 + Flush(Chars(to[tp..te]), vs[fs..fs1], keep)
    ensures Turn(vs, fm, to, fs, fp, tp, out0, keep) == AfterStars(vs, fm, to, fs1, fe + 1, te + 1, out)
  {
    assert !(fs + (LitRun(fm, fp) - fp) > |vs|) && LitRun(to, tp) != |to| && LitRun(fm, fp) != |fm|;
    assert Turn(vs, fm, to, fs, fp, tp, out0, keep)
      == AfterStars(vs, fm, to, fs + (LitRun(fm, fp) - fp), LitRun(fm, fp) + 1, LitRun(to, tp) + 1,
                    out0 + Flush(Chars(to[tp..LitRun(to, tp)]), vs[fs..fs + (LitRun(fm, fp) - fp)], keep));
    assert fs1 == fs + (LitRun(fm, fp) - fp) && fe + 1 == LitRun(fm, fp) + 1 && te + 1 == LitRun(to, tp) + 1;
    assert out == out0 + Flush(Chars(to[tp..LitRun(to, tp)]), vs[fs..fs + (LitRun(fm, fp) - fp)], keep);
  }

  /** The rest of a turn, past the two `*`. */
  method RenameAfterStars(vs: string, fm: seq<int>, to: seq<int>, fs: nat, fp: nat, tp0: nat, out0: string)
    returns (r: Turned)
    requires IsBytes(vs) && IsSimple(fm) && IsSimple(to)
    requires fs <= |vs| && 0 < fp <= |fm| && 0 < tp0 <= |to|
    ensures r == AfterStars(vs, fm, to, fs, fp, tp0, out0)
  {
    if tp0 == |to| && fp == |fm| {
      return Done(Named(out0 + vs[fs..]));
    }
    var tp, out := tp0, out0;
    var dollar := tp < |to| && to[tp] == '$' as int;
    if dollar {
      tp := tp + 1;
    }
    var k := SearchMatch(vs, fm, fs, fp);
    if !dollar {
      out := out + vs[fs..k];
    }
    if k == |vs| {
      var t := TailLiterals(to, tp);
      if t.None? {
        return Done(Failed);
      }
      return Done(Named(out + t.value));
    }
    if tp == |to| {
      return Done(Named(out));
    }
    r := Next(k, fp, tp, out);
  }

  /** The loop of RenameByPat over the simplified patterns. */
  method RenameLoop(vs: string, fm: seq<int>, to: seq<int>, keep: bool) returns (r: Outcome)
    requires IsBytes(vs) && IsSimple(fm) && IsSimple(to)
    ensures r == Rename(vs, fm, to, 0, 0, 0, [], keep)
  {
    var fs: nat, fp: nat, tp: nat, out: string := 0, 0, 0, [];
    while true
      invariant fs <= |vs| && fp <= |fm| && tp <= |to|
      invariant Rename(vs, fm, to, fs, fp, tp, out, keep) == Rename(vs, fm, to, 0, 0, 0, [], keep)
      decreases |to| - tp
    {
      var s := RenameTurn(vs, fm, to, fs, fp, tp, out, keep);
      if s.Done? {
        return s.outcome;
      }
      fs, fp, tp, out := s.fs, s.fp, s.tp, s.out;
    }
  }

  /** RenameByPat: simplifies both patterns into arrays with room to spare,
      then renames. */
  method RenameByPat(fmStr: string, fmPat: seq<int>, toPat: seq<int>, keep: bool) returns (r: Outcome)
    requires IsBytes(fmStr) && IsPattern(fmPat) && IsPattern(toPat)
    ensures r == RenameSpec(fmStr, fmPat, toPat, keep)
  {
    var f, t := Simplified(fmPat, 0), Simplified(toPat, 0);
    if f.None? || t.None? {
      return OverRead;
    }
    SimplifiedIsSimple(fmPat, 0);
    SimplifiedIsSimple(toPat, 0);
    var fmT := new int[|fmPat| + 16];
    var toT := new int[|toPat| + 16];
    RenameByPatSimplify(fmPat, fmT);
    RenameByPatSimplify(toPat, toT);
    assert fmT[|f.value|] == 0;
    var fl := PatternLen(fmT);
    assert toT[|t.value|] == 0;
    var tl := PatternLen(toT);
    assert forall k :: 0 <= k < |f.value| ==> fmT[k] == f.value[k] != 0;
    assert forall k :: 0 <= k < |t.value| ==> toT[k] == t.value[k] != 0;
    assert fl == |f.value| && tl == |t.value|;
    r := RenameLoop(fmStr, fmT[..fl], toT[..tl], keep);
  }

  /** Renaming `*` to `*` keeps the name. */
  lemma RenameIdentity(vs: string, keep: bool)
    requires IsBytes(vs)
    ensures RenameSpec(vs, [WANY], [WANY], keep) == Named(vs)
  {
    assert Simplified([WANY], 1) == Some([]);
    assert [WANY][0] == WANY && [WANY] + [] == [WANY];
    assert Simplified([WANY], 0) == Some([WANY]);
    assert [WANY][0..0] == [] && vs[0..0] == [] && vs[0..] == vs;
  }

  /** A target without `*` is the new name as it stands, once the source
      string covers the source pattern's leading literals. */
  lemma RenameLiteralTarget(vs: string, fm: seq<int>, to: seq<int>, keep: bool)
    requires IsBytes(vs) && IsSimple(fm) && IsSimple(to)
    requires forall k :: 0 <= k < |to| ==> to[k] != WANY
    requires LitRun(fm, 0) <= |vs|
    ensures Rename(vs, fm, to, 0, 0, 0, [], keep) == Named(Flush(Chars(to), vs[..LitRun(fm, 0)], keep))
  {
    assert LitRun(to, 0) == |to|;
    assert to[0..|to|] == to && vs[0..LitRun(fm, 0)] == vs[..LitRun(fm, 0)];
  }

  /** A target with a `*` needs one in the source pattern: when the source
      pattern ends first, RenameByPat fails. */
  lemma RenameUnderflow(vs: string, fm: seq<int>, to: seq<int>, keep: bool)
    requires IsBytes(vs) && IsSimple(fm) && IsSimple(to)
    requires forall k :: 0 <= k < |fm| ==> fm[k] != WANY
    requires WANY in to && |fm| <= |vs|
    ensures Rename(vs, fm, to, 0, 0, 0, [], keep) == Failed
  {
    assert LitRun(fm, 0) == |fm|;
    var k :| 0 <= k < |to| && to[k] == WANY;
    assert LitRun(to, 0) <= k;
  }

  /** `a*` to `b*`: a name starting with the literals a gets b in their
      place and keeps the rest. */
  lemma RenamePrefix(vs: string, a: seq<int>, b: seq<int>, keep: bool)
    requires IsBytes(vs) && PlainCodes(a) && PlainCodes(b) && |a| <= |vs|
    ensures IsSimple(a + [WANY]) && IsSimple(b + [WANY])
    ensures Rename(vs, a + [WANY], b + [WANY], 0, 0, 0, [], keep) ==
      Named(Flush(Chars(b), vs[..|a|], keep) + vs[|a|..])
  {
    var fm, to := a + [WANY], b + [WANY];
    assert forall k :: 0 <= k < |a| ==> fm[k] == a[k];
    assert forall k :: 0 <= k < |b| ==> to[k] == b[k];
    LitRunIs(fm, 0, |a|);
    LitRunIs(to, 0, |b|);
    assert to[0..|b|] == b && vs[0..|a|] == vs[..|a|];
    var out := Flush(Chars(b), vs[..|a|], keep);
    assert [] + out == out;
    assert Turn(vs, fm, to, 0, 0, 0, [], keep) == AfterStars(vs, fm, to, |a|, |a| + 1, |b| + 1, out);
  }

  /** The first turn of `*a` to `*b` copies the name up to the last |a|
      characters, where the source pattern's literals match. */
  lemma SuffixFirstTurn(vs: string, a: seq<int>, b: seq<int>, keep: bool, m: nat)
    requires IsBytes(vs) && PlainCodes(a) && PlainCodes(b) && |a| > 0 && |b| > 0 && b[0] != '$' as int
    requires |a| <= |vs| && m == |vs| - |a| && LitEq(vs[m..], a, true)
    ensures IsSimple([WANY] + a) && IsSimple([WANY] + b)
    ensures Turn(vs, [WANY] + a, [WANY] + b, 0, 0, 0, [], keep) == Next(m, 1, 1, vs[..m])
  {
    var fm, to := [WANY] + a, [WANY] + b;
    assert fm[1..] == a;
    forall k | 0 <= k <= |vs|
      ensures Match(vs, fm, k, 1, true) == Some(LitEq(vs[k..], a, true))
    {
      MatchPlain(vs, fm, k, 1, true);
    }
    assert SearchFrom(vs, fm, 0, 1) == m;
    LitRunIs(fm, 0, 0);
    LitRunIs(to, 0, 0);
    assert to[0..0] == [] && vs[0..0] == [] && vs[0..m] == vs[..m];
    assert Flush([], [], keep) == [];
    assert to[1] == b[0];
    assert AfterStars(vs, fm, to, 0, 1, 1, []) == Next(m, 1, 1, vs[..m]);
  }

  /** `*a` to `*b`: a name ending with the literals a, case folded, gets b
      in their place and keeps the rest. */
  lemma RenameSuffix(vs: string, a: seq<int>, b: seq<int>, keep: bool)
    requires IsBytes(vs) && PlainCodes(a) && PlainCodes(b) && |a| > 0 && |b| > 0 && b[0] != '$' as int
    requires |a| <= |vs| && LitEq(vs[|vs| - |a|..], a, true)
    ensures IsSimple([WANY] + a) && IsSimple([WANY] + b)
    ensures Rename(vs, [WANY] + a, [WANY] + b, 0, 0, 0, [], keep) ==
      Named(vs[..|vs| - |a|] + Flush(Chars(b), vs[|vs| - |a|..], keep))
  {
    var fm, to, m := [WANY] + a, [WANY] + b, |vs| - |a|;
    var head := vs[..m];
    SuffixFirstTurn(vs, a, b, keep, m);
    RenameNext(vs, fm, to, 0, 0, 0, [], keep, m, 1, 1, head);
    SuffixLastTurn(vs, a, b, keep, m);
    RenameDone(vs, fm, to, m, 1, 1, head, keep, Named(head + Flush(Chars(b), vs[m..], keep)));
  }

  /** The second turn of `*a` to `*b`: both literal runs are copied, and the
      name ends. */
  lemma SuffixLastTurn(vs: string, a: seq<int>, b: seq<int>, keep: bool, m: nat)
    requires IsBytes(vs) && PlainCodes(a) && PlainCodes(b) && |a| > 0 && |b| > 0 && b[0] != '$' as int
    requires |a| <= |vs| && m == |vs| - |a| && LitEq(vs[m..], a, true)
    ensures IsSimple([WANY] + a) && IsSimple([WANY] + b)
    ensures Turn(vs, [WANY] + a, [WANY] + b, m, 1, 1, vs[..m], keep) == Done(Named(vs[..m] + Flush(Chars(b), vs[m..], keep)))
  {
    StarThenLiterals(a);
    StarThenLiterals(b);
    var fm, to := [WANY] + a, [WANY] + b;
    assert LitRun(to, 1) == |to| && LitRun(fm, 1) == |fm|;
    assert m + (|fm| - 1) == |vs|;
    assert to[1..|to|] == b && vs[m..|vs|] == vs[m..];
  }

  /** `*` followed by literals only: simple, and its literal run from 1 is
      all of them. */
  lemma StarThenLiterals(a: seq<int>)
    requires PlainCodes(a)
    ensures IsSimple([WANY] + a)
    ensures LitRun([WANY] + a, 1) == |a| + 1 && ([WANY] + a)[1..|a| + 1] == a
  {
    var p := [WANY] + a;
    assert forall k :: 1 <= k < |p| ==> p[k] == a[k - 1];
    LitRunIs(p, 1, |p|);
    assert p[1..|p|] == a;
  }
}
