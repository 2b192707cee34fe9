/**
  The parts of the C runtime that cblib leans on, as value-level definitions:
  NUL-terminated strings, the "C"-locale character classes of <ctype.h>,
  fixed-width integer arithmetic, and decimal printing ("%d") and parsing
  (atoi).  A C `char` is modelled by a Dafny `char` whose code is the byte
  value; MSVC's `char` is signed, which `SChar` makes explicit.
*/
module CLib {
  import opened Wrappers

  const Nul: char := '\0'

  /** The content of a C string never holds its terminator. */
  predicate NulFree(s: seq<char>)
  {
    forall i :: 0 <= i < |s| ==> s[i] != Nul
  }

  /** `p[i]` on a C string whose content is `s`: the terminator sits at `|s|`. */
  function At(s: seq<char>, i: nat): char
  {
    if i < |s| then s[i] else Nul
  }

  /** strlen on a terminated buffer: the position of its first NUL. */
  function Strlen(b: seq<char>): (n: nat)
    requires Nul in b
    ensures n < |b| && b[n] == Nul && NulFree(b[..n])
  {
    if b[0] == Nul then 0
    else
      assert Nul in b[1..] by {
        var k :| 0 <= k < |b| && b[k] == Nul;
        assert b[1..][k - 1] == Nul;
      }
      var m := Strlen(b[1..]);
      assert b[..1 + m] == [b[0]] + b[1..][..m];
      1 + m
  }

  /** The string a terminated buffer holds. */
  function CStr(b: seq<char>): (s: seq<char>)
    requires Nul in b
    ensures NulFree(s) && |s| < |b| && s == b[..|s|] && b[|s|] == Nul
  {
    b[..Strlen(b)]
  }

  lemma CStrOfTerminated(s: seq<char>, rest: seq<char>)
    requires NulFree(s)
    ensures Nul in s + [Nul] + rest && CStr(s + [Nul] + rest) == s
  {
    var b := s + [Nul] + rest;
    assert b[|s|] == Nul;
    assert b[..|s|] == s;
  }

  // ---- <ctype.h> in the "C" locale ----

  /** isspace: blank, tab, newline, vertical tab, form feed, carriage return. */
  predicate IsSpace(c: char)
  {
    c == ' ' || c == '\t' || c == '\n' || c == '\r' || c as int == 11 || c as int == 12
  }

  predicate IsDigit(c: char) { '0' <= c <= '9' }
  predicate IsUpper(c: char) { 'A' <= c <= 'Z' }
  predicate IsLower(c: char) { 'a' <= c <= 'z' }
  predicate IsAlpha(c: char) { IsUpper(c) || IsLower(c) }

  function ToUpper(c: char): (u: char)
    ensures IsLower(c) ==> IsUpper(u) && u as int == c as int - 32
    ensures !IsLower(c) ==> u == c
  {
    if IsLower(c) then (c as int - 32) as char else c
  }

  function ToLower(c: char): (l: char)
    ensures IsUpper(c) ==> IsLower(l) && l as int == c as int + 32
    ensures !IsUpper(c) ==> l == c
  {
    if IsUpper(c) then (c as int + 32) as char else c
  }

  /** The value of a (signed, 8-bit) C `char` holding this byte: bytes 128..255
      read as -128..-1.  (Codes above 255 never reach it; they keep their value.) */
  function SChar(c: char): (v: int)
    ensures 128 <= c as int < 256 ==> v == c as int - 256
    ensures !(128 <= c as int < 256) ==> v == c as int
  {
    if 128 <= c as int < 256 then c as int - 256 else c as int
  }

  lemma SCharInjective(x: char, y: char)
    ensures SChar(x) == SChar(y) ==> x == y
  {
  }

  /** `(char) v`: truncation of an int to a byte. */
  function ByteChar(v: int): (c: char)
    ensures c as int == v % 256
  {
    (v % 256) as char
  }

  // ---- fixed-width integers ----

  const TwoTo32: int := 0x1_0000_0000
  const TwoTo64: int := 0x1_0000_0000_0000_0000
  const Int32Min: int := -0x8000_0000
  const Int32Max: int := 0x7FFF_FFFF
  const Int64Min: int := -0x8000_0000_0000_0000
  const Int64Max: int := 0x7FFF_FFFF_FFFF_FFFF

  predicate IsInt32(x: int) { Int32Min <= x <= Int32Max }
  predicate IsInt64(x: int) { Int64Min <= x <= Int64Max }

  /** Two's-complement wrap-around of an int64 result. */
  function Wrap64(x: int): (r: int)
    ensures IsInt64(r) && (r - x) % TwoTo64 == 0
    ensures IsInt64(x) ==> r == x
  {
    var m := x % TwoTo64;
    if m > Int64Max then m - TwoTo64 else m
  }

  /** A signed count converted to the 64-bit unsigned size_t: a negative
      one wraps to 2^64 less its magnitude. */
  function SizeT(x: int): (r: nat)
    ensures r < TwoTo64
    ensures 0 <= x < TwoTo64 ==> r == x
    ensures -TwoTo64 <= x < 0 ==> r == x + TwoTo64
  {
    x % TwoTo64
  }

  /** Two's-complement wrap-around of an int32 result. */
  function Wrap32(x: int): (r: int)
    ensures IsInt32(r) && (r - x) % TwoTo32 == 0
    ensures IsInt32(x) ==> r == x
  {
    var m := x % TwoTo32;
    if m > Int32Max then m - TwoTo32 else m
  }

  // ---- integer arithmetic ----

  lemma MulGrows(k: int, d: int)
    requires k >= 1 && d > 0
    ensures k * d >= d
  {
  }

  lemma MulMonotone(a: int, b: int, c: int)
    requires a >= b >= 0 && c >= 0
    ensures a * c >= b * c
  {
  }

  /** Quotient and remainder are the only such pair. */
  lemma DivModUnique(n: int, d: int, q: int, r: int)
    requires d > 0 && 0 <= r < d && n == q * d + r
    ensures n / d == q && n % d == r
  {
    var k := n / d - q;
    assert k * d == r - n % d;
    if k >= 1 {
      MulGrows(k, d);
    } else if k <= -1 {
      MulGrows(-k, d);
    }
  }

  /** C division of ints truncates toward zero. */
  function CDiv(a: int, b: int): int
    requires b != 0
  {
    if a >= 0 && b > 0 then a / b
    else if a < 0 && b > 0 then -((-a) / b)
    else if a >= 0 then -(a / -b)
    else (-a) / (-b)
  }

  // ---- decimal text ----

  function DigitChar(d: nat): (c: char)
    requires d < 10
    ensures IsDigit(c) && c as int - '0' as int == d
  {
    ('0' as int + d) as char
  }

  function DigitValue(c: char): (d: nat)
    requires IsDigit(c)
    ensures d < 10 && DigitChar(d) == c
  {
    c as int - '0' as int
  }

  predicate AllDigits(s: seq<char>)
  {
    forall i :: 0 <= i < |s| ==> IsDigit(s[i])
  }

  /** The decimal digits of `n`, without leading zeros ("%u"). */
  function Digits(n: nat): (s: seq<char>)
    ensures 1 <= |s| && AllDigits(s)
    ensures n < 10 <==> |s| == 1
    ensures s[0] == '0' ==> n == 0
  {
    if n < 10 then [DigitChar(n)] else Digits(n / 10) + [DigitChar(n % 10)]
  }

  /** The number a string of decimal digits denotes. */
  function DigitsValue(s: seq<char>): nat
    requires AllDigits(s)
  {
    if s == [] then 0 else DigitsValue(s[..|s| - 1]) * 10 + DigitValue(s[|s| - 1])
  }

  lemma {:induction false} DigitsValueOfDigits(n: nat)
    ensures DigitsValue(Digits(n)) == n
  {
    if n >= 10 {
      var s := Digits(n);
      assert s[..|s| - 1] == Digits(n / 10);
      DigitsValueOfDigits(n / 10);
    }
  }

  /** printf "%d". */
  function Decimal(n: int): (s: seq<char>)
    ensures 1 <= |s| && NulFree(s)
    ensures n < 0 <==> s[0] == '-'
  {
    if n < 0 then ['-'] + Digits(-n) else Digits(n)
  }

  /** printf "%03d" for a value in [0,999]. */
  function ZeroPad3(n: nat): (s: seq<char>)
    requires n < 1000
    ensures |s| == 3 && AllDigits(s) && DigitsValue(s) == n
  {
    var hi, mid, lo := n / 100, n / 10 % 10, n % 10;
    ThreeDigits(hi, mid, lo);
    assert n == hi * 100 + mid * 10 + lo;
    [DigitChar(hi), DigitChar(mid), DigitChar(lo)]
  }

  /** The value of three decimal digits. */
  lemma ThreeDigits(hi: nat, mid: nat, lo: nat)
    requires hi < 10 && mid < 10 && lo < 10
    ensures AllDigits([DigitChar(hi), DigitChar(mid), DigitChar(lo)])
    ensures DigitsValue([DigitChar(hi), DigitChar(mid), DigitChar(lo)]) == hi * 100 + mid * 10 + lo
  {
    var s := [DigitChar(hi), DigitChar(mid), DigitChar(lo)];
    var one, two := [DigitChar(hi)], [DigitChar(hi), DigitChar(mid)];
    assert one[..0] == [];
    assert DigitsValue(one) == hi;
    assert two[..1] == one;
    assert DigitsValue(two) == hi * 10 + mid;
    assert s[..2] == two;
  }

  // ---- atoi ----

  /** The number of leading characters of `s` satisfying isspace. */
  function SpanSpace(s: seq<char>, i: nat): (j: nat)
    requires i <= |s|
    ensures i <= j <= |s| && (j < |s| ==> !IsSpace(s[j]))
    ensures forall k :: i <= k < j ==> IsSpace(s[k])
    decreases |s| - i
  {
    if i < |s| && IsSpace(s[i]) then SpanSpace(s, i + 1) else i
  }

  /** The end of the run of digits starting at `i`. */
  function SpanDigits(s: seq<char>, i: nat): (j: nat)
    requires i <= |s|
    ensures i <= j <= |s| && (j < |s| ==> !IsDigit(s[j]))
    ensures forall k :: i <= k < j ==> IsDigit(s[k])
    ensures AllDigits(s[i..j])
    decreases |s| - i
  {
    if i < |s| && IsDigit(s[i]) then
      var j := SpanDigits(s, i + 1);
      assert s[i..j] == [s[i]] + s[i + 1..j];
      j
    else i
  }

  /** atoi: leading white space, an optional sign, then as many digits as follow.
      (Overflow of the int result is undefined in C and not modelled.) */
  function Atoi(s: seq<char>): int
  {
    var i := SpanSpace(s, 0);
    var neg := i < |s| && s[i] == '-';
    var j := if i < |s| && (s[i] == '-' || s[i] == '+') then i + 1 else i;
    var k := SpanDigits(s, j);
    var v: int := DigitsValue(s[j..k]);
    if neg then -v else v
  }

  lemma SpanDigitsOfDigits(s: seq<char>, i: nat)
    requires i <= |s| && AllDigits(s[i..])
    ensures SpanDigits(s, i) == |s|
    decreases |s| - i
  {
    if i < |s| {
      assert s[i..][0] == s[i];
      assert s[i + 1..] == s[i..][1..];
      SpanDigitsOfDigits(s, i + 1);
    }
  }

  /** atoi reads back what "%d" prints. */
  lemma AtoiDecimal(n: int)
    ensures Atoi(Decimal(n)) == n
  {
    var s := Decimal(n);
    var m: nat := if n < 0 then -n else n;
    var j := if n < 0 then 1 else 0;
    assert !IsSpace(s[0]);
    assert SpanSpace(s, 0) == 0;
    assert s[j..] == Digits(m);
    assert n >= 0 ==> s[0] != '-' && s[0] != '+';
    SpanDigitsOfDigits(s, j);
    assert s[j..|s|] == Digits(m);
    DigitsValueOfDigits(m);
  }

  // ---- strcmp and friends ----

  /** The comparison loop shared by strcmp, _stricmp and cblib's strtcmp: the
      characters of both strings are passed through `f` (the terminator is not),
      and the first position where they differ decides, as a difference of the
      chars read signed or unsigned. */
  function CompareFrom(a: seq<char>, b: seq<char>, f: char -> char, signed: bool, i: nat): int
    requires i <= |a|
    decreases |a| - i
  {
    var x := if i < |a| then f(a[i]) else Nul;
    var y := if i < |b| then f(b[i]) else Nul;
    if x != y then
      (if signed then SChar(x) - SChar(y) else x as int - y as int)
    else if i == |a| then 0
    else CompareFrom(a, b, f, signed, i + 1)
  }

  function Compare(a: seq<char>, b: seq<char>, f: char -> char, signed: bool): int
  {
    CompareFrom(a, b, f, signed, 0)
  }

  /** `f` never produces the terminator from a proper character. */
  predicate KeepsNonNul(f: char -> char)
  {
    forall c :: c != Nul ==> f(c) != Nul
  }

  lemma {:induction false} CompareFromZero(a: seq<char>, b: seq<char>, f: char -> char, signed: bool, i: nat)
    requires i <= |a| && i <= |b| && NulFree(a) && NulFree(b) && KeepsNonNul(f)
    ensures CompareFrom(a, b, f, signed, i) == 0 <==>
              |a| == |b| && forall k :: i <= k < |a| ==> f(a[k]) == f(b[k])
    decreases |a| - i
  {
    var x := if i < |a| then f(a[i]) else Nul;
    var y := if i < |b| then f(b[i]) else Nul;
    if x != y {
      if signed { SCharInjective(x, y); }
      if |a| == |b| && i < |a| { assert f(a[i]) != f(b[i]); }
    } else if i < |a| {
      assert i < |b| by { assert f(a[i]) != Nul; }
      CompareFromZero(a, b, f, signed, i + 1);
    }
  }

  /** A comparison is zero exactly when the mapped strings are equal. */
  lemma CompareZero(a: seq<char>, b: seq<char>, f: char -> char, signed: bool)
    requires NulFree(a) && NulFree(b) && KeepsNonNul(f)
    ensures Compare(a, b, f, signed) == 0 <==>
              |a| == |b| && forall k :: 0 <= k < |a| ==> f(a[k]) == f(b[k])
  {
    CompareFromZero(a, b, f, signed, 0);
  }

  // ---- strstr / strchr / strrchr ----

  predicate MatchAt(s: seq<char>, pat: seq<char>, p: nat)
  {
    p + |pat| <= |s| && s[p..p + |pat|] == pat
  }

  /** strstr: the first position where `pat` occurs (0 for an empty `pat`). */
  function StrStrFrom(s: seq<char>, pat: seq<char>, p: nat): (r: Option<nat>)
    requires p <= |s|
    ensures r.Some? ==> p <= r.value <= |s| && MatchAt(s, pat, r.value)
                        && forall q :: p <= q < r.value ==> !MatchAt(s, pat, q)
    ensures r.None? ==> forall q :: p <= q <= |s| ==> !MatchAt(s, pat, q)
    decreases |s| - p
  {
    if MatchAt(s, pat, p) then Some(p)
    else if p == |s| then None
    else StrStrFrom(s, pat, p + 1)
  }

  function StrStr(s: seq<char>, pat: seq<char>): (r: Option<nat>)
  {
    StrStrFrom(s, pat, 0)
  }

  /** strchr: the first position holding `c`; searching for NUL finds the terminator. */
  function StrChr(s: seq<char>, c: char): (r: Option<nat>)
    requires NulFree(s)
    ensures r.Some? ==> r.value <= |s| && At(s, r.value) == c
                        && forall q :: 0 <= q < r.value ==> s[q] != c
    ensures r.None? ==> c != Nul && c !in s
  {
    if c == Nul then Some(|s|)
    else if c in s then
      var k := FirstIndex(s, c, 0);
      Some(k)
    else None
  }

  function FirstIndex(s: seq<char>, c: char, i: nat): (k: nat)
    requires i <= |s| && c in s[i..]
    ensures i <= k < |s| && s[k] == c && forall q :: i <= q < k ==> s[q] != c
    decreases |s| - i
  {
    if s[i] == c then i
    else
      assert c in s[i + 1..] by {
        var j :| 0 <= j < |s[i..]| && s[i..][j] == c;
        assert s[i + 1..][j - 1] == c;
      }
      FirstIndex(s, c, i + 1)
  }

  /** strrchr: the last position holding `c`; searching for NUL finds the terminator. */
  function StrRChr(s: seq<char>, c: char): (r: Option<nat>)
    requires NulFree(s)
    ensures r.Some? ==> r.value <= |s| && At(s, r.value) == c
                        && forall q :: r.value < q < |s| ==> s[q] != c
    ensures r.None? ==> c != Nul && c !in s
  {
    if c == Nul then Some(|s|)
    else if c in s then Some(LastIndex(s, c, |s|))
    else None
  }

  function LastIndex(s: seq<char>, c: char, j: nat): (k: nat)
    requires j <= |s| && c in s[..j]
    ensures k < j && s[k] == c && forall q :: k < q < j ==> s[q] != c
    decreases j
  {
    if s[j - 1] == c then j - 1
    else
      assert c in s[..j - 1] by {
        var m :| 0 <= m < j && s[..j][m] == c;
        assert s[..j - 1][m] == c;
      }
      LastIndex(s, c, j - 1)
  }

  // ---- strrev ----

  /** The characters of `s` in the opposite order. */
  function Reverse(s: seq<char>): (r: seq<char>)
    ensures |r| == |s| && forall i :: 0 <= i < |s| ==> r[i] == s[|s| - 1 - i]
  {
    seq(|s|, i requires 0 <= i < |s| => s[|s| - 1 - i])
  }

  lemma ReverseAppend(a: seq<char>, b: seq<char>)
    ensures Reverse(a + b) == Reverse(b) + Reverse(a)
  {
    assert forall i :: 0 <= i < |a + b| ==> Reverse(a + b)[i] == (Reverse(b) + Reverse(a))[i];
  }

  lemma ReverseReverse(s: seq<char>)
    ensures Reverse(Reverse(s)) == s
  {
    assert forall i :: 0 <= i < |s| ==> Reverse(Reverse(s))[i] == s[i];
  }

  /** strrev: reverses the string in place, leaving its terminator and
      everything after it alone. */
  method Strrev(b: array<char>)
    requires Nul in b[..]
    modifies b
    ensures Nul in b[..] && Strlen(b[..]) == old(Strlen(b[..]))
    ensures CStr(b[..]) == Reverse(old(CStr(b[..])))
    ensures b[Strlen(b[..])..] == old(b[Strlen(b[..])..])
  {
    ghost var b0 := b[..];
    ghost var c := CStr(b0);
    var n := Strlen(b[..]);
    ReverseRange(b, n);
    assert b[..] == Reverse(c) + b0[n..] by {
      assert forall k :: 0 <= k < n ==> b[k] == c[n - 1 - k];
    }
    assert b0[n..] == [Nul] + b0[n + 1..];
    CStrOfTerminated(Reverse(c), b0[n + 1..]);
    assert b[..] == Reverse(c) + [Nul] + b0[n + 1..];
  }

  /** The swap loop of strrev: reverses b[..n] and nothing else. */
  method ReverseRange(b: array<char>, n: nat)
    requires n <= b.Length
    modifies b
    ensures forall k :: 0 <= k < n ==> b[k] == old(b[n - 1 - k])
    ensures forall k :: n <= k < b.Length ==> b[k] == old(b[k])
  {
    var i := 0;
    while i < n / 2
      invariant i <= n / 2
      invariant forall k :: 0 <= k < i ==> b[k] == old(b[n - 1 - k]) && b[n - 1 - k] == old(b[k])
      invariant forall k :: i <= k < n - i ==> b[k] == old(b[k])
      invariant forall k :: n <= k < b.Length ==> b[k] == old(b[k])
    {
      b[i], b[n - 1 - i] := b[n - 1 - i], b[i];
      i := i + 1;
    }
  }
}
