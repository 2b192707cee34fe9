/**
  safeprintf.cpp: the printf format scanner that checks each argument's type
  against the conversion it meets.  A format is a C string; a position in it
  is an index, and the pointer the scanner hands back is an `Option<nat>`,
  None for NULL.  The build is the 64-bit one, where `size_t` is 64 bits.
*/
module SafePrintf {
  import opened Wrappers
  import opened CLib

  /** ESafePrintfType, in the order of its enumerators. */
  datatype PrintfType =
    | NoType | Unknown | CharPtr | WCharPtr | Float | PtrInt | PtrVoid
    | Int32 | Int64 | UInt32 | UInt64

  /** The enumerator's value. */
  function Ordinal(t: PrintfType): (n: nat)
    ensures n < 11
  {
    match t
    case NoType => 0
    case Unknown => 1
    case CharPtr => 2
    case WCharPtr => 3
    case Float => 4
    case PtrInt => 5
    case PtrVoid => 6
    case Int32 => 7
    case Int64 => 8
    case UInt32 => 9
    case UInt64 => 10
  }

  /** c_safeprintftypenames, indexed by the enumerator's value. */
  const TypeNames: seq<string> :=
    ["none", "unknown", "charptr", "wcharptr", "float", "ptrint", "ptrvoid", "int32", "int64", "uint32", "uint64"]

  /** Each type has its own value and its own name in the table. */
  lemma TypeNamesDistinct(t: PrintfType, u: PrintfType)
    ensures |TypeNames| == 11
    ensures t != u ==> Ordinal(t) != Ordinal(u) && TypeNames[Ordinal(t)] != TypeNames[Ordinal(u)]
  {
    if t != u {
      assert TypeNames[0] == "none" && TypeNames[1] == "unknown" && TypeNames[2] == "charptr";
      assert TypeNames[3] == "wcharptr" && TypeNames[4] == "float" && TypeNames[5] == "ptrint";
      assert TypeNames[6] == "ptrvoid" && TypeNames[7] == "int32" && TypeNames[8] == "int64";
      assert TypeNames[9] == "uint32" && TypeNames[10] == "uint64";
    }
  }

  /** isIntFmt: the enumerators from int32 on. */
  predicate IsIntFmt(t: PrintfType)
  {
    Ordinal(t) >= Ordinal(Int32)
  }

  /** getIntFmtWidth: 0 for the 32-bit kinds, 1 otherwise. */
  function IntWidth(t: PrintfType): nat
  {
    if t == Int32 || t == UInt32 then 0 else 1
  }

  /** getIntFmtSign: 0 for the signed kinds, 1 otherwise. */
  function IntSign(t: PrintfType): nat
  {
    if t == Int32 || t == Int64 then 0 else 1
  }

  /** The integer kinds are exactly the four int types; width splits them
      into {int32, uint32} and the 64-bit ones, sign into {int32, int64} and
      the unsigned ones, and the two together tell them apart. */
  lemma IntKinds(t: PrintfType, u: PrintfType)
    ensures IsIntFmt(t) <==> t in {Int32, Int64, UInt32, UInt64}
    ensures IsIntFmt(t) ==> (IntWidth(t) == 0 <==> t in {Int32, UInt32})
    ensures IsIntFmt(t) ==> (IntSign(t) == 0 <==> t in {Int32, Int64})
    ensures IsIntFmt(t) && IsIntFmt(u) && IntWidth(t) == IntWidth(u) && IntSign(t) == IntSign(u) ==> t == u
  {
  }

  /** sizeof(size_t) == sizeof(int64) in the 64-bit build. */
  const SizeTIs64: bool := true

  /** safeprintf_fmttype(fmt, wide): the argument type a conversion letter
      wants, case folded except that 's' and 'S' differ. */
  function FmtType(fmt: char, wide: bool): (r: PrintfType)
    ensures r != NoType
  {
    match fmt
    case 'c' | 'C' | 'd' | 'D' | 'i' | 'I' | 'o' | 'O' => if wide then Int64 else Int32
    case 'u' | 'U' | 'x' | 'X' => if wide then UInt64 else UInt32
    case 'z' | 'Z' => if SizeTIs64 then UInt64 else UInt32
    case 'e' | 'E' | 'f' | 'F' | 'g' | 'G' => Float
    case 'n' | 'N' => PtrInt
    case 'p' | 'P' => PtrVoid
    case 's' => CharPtr
    case 'S' => WCharPtr
    case _ => Unknown
  }

  /** The letters by class: c, d, i, o, u, x and z are integers, u, x and z
      the unsigned ones, wide unless z follows size_t; e, f, g are float;
      n, p, s, S the pointers; every other character is unknown. */
  lemma FmtTypeClasses(fmt: char, wide: bool)
    ensures var r, l := FmtType(fmt, wide), ToLower(fmt);
      && (IsIntFmt(r) <==> l in "cdiouxz")
      && (IsIntFmt(r) ==> (IntSign(r) == 1 <==> l in "uxz"))
      && (IsIntFmt(r) ==> (IntWidth(r) == 1 <==> if l == 'z' then SizeTIs64 else wide))
      && (r == Float <==> l in "efg")
      && (r == PtrInt <==> l == 'n') && (r == PtrVoid <==> l == 'p')
      && (r == CharPtr <==> fmt == 's') && (r == WCharPtr <==> fmt == 'S')
      && (r == Unknown <==> l !in "cdiouxzefgnps")
  {
    var l := ToLower(fmt);
    assert l == 's' <==> fmt == 's' || fmt == 'S';
  }

  /** safeprintf_fmtskipwidth(ptr + i): steps over a size modifier and says
      whether it made the conversion 64-bit. */
  function SkipWidth(s: string, i: nat): (r: (nat, bool))
    ensures i <= r.0 <= i + 3
    ensures r.0 == i <==> At(s, i) !in "hlwI"
    ensures r.1 ==> At(s, i) == 'I'
  {
    var c := At(s, i);
    if c == 'h' || c == 'l' || c == 'w' then (i + 1, false)
    else if c == 'I' then
      if At(s, i + 1) == '3' && At(s, i + 2) == '2' then (i + 3, false)
      else if At(s, i + 1) == '6' && At(s, i + 2) == '4' then (i + 3, true)
      else (i + 1, SizeTIs64)
    else (i, false)
  }

  /** The modifiers as text: h, l and w are one character and not wide,
      I32 and I64 three characters, only I64 wide, and a bare I one character,
      wide with a 64-bit size_t. */
  lemma WidthModifiers(p: string, q: string, m: char)
    ensures m in "hlw" ==> SkipWidth(p + [m] + q, |p|) == (|p| + 1, false)
    ensures SkipWidth(p + "I32" + q, |p|) == (|p| + 3, false)
    ensures SkipWidth(p + "I64" + q, |p|) == (|p| + 3, true)
    ensures !(|q| >= 2 && q[..2] in {"32", "64"}) ==> SkipWidth(p + "I" + q, |p|) == (|p| + 1, SizeTIs64)
    ensures m !in "hlwI" ==> SkipWidth(p + [m] + q, |p|) == (|p|, false)
  {
    var s := p + "I" + q;
    assert At(s, |p|) == 'I';
    if |q| >= 2 {
      assert At(s, |p| + 1) == q[0] && At(s, |p| + 2) == q[1];
      assert q[..2] == [q[0], q[1]];
    } else if |q| == 1 {
      assert At(s, |p| + 1) == q[0] && At(s, |p| + 2) == Nul;
    } else {
      assert At(s, |p| + 1) == Nul;
    }
    var s32, s64 := p + "I32" + q, p + "I64" + q;
    assert At(s32, |p|) == 'I' && At(s32, |p| + 1) == '3' && At(s32, |p| + 2) == '2';
    assert At(s64, |p|) == 'I' && At(s64, |p| + 1) == '6' && At(s64, |p| + 2) == '4';
    assert At(p + [m] + q, |p|) == m;
  }

  /** The strchr loop of safeprintf_findfmtandadvance from i: the first '%'
      that is not the start of "%%", whose pair it steps over. */
  function NextPercent(s: string, i: nat): (r: Option<nat>)
    requires NulFree(s) && i <= |s|
    decreases |s| - i
    ensures r.Some? ==> i <= r.value < |s| && s[r.value] == '%' && At(s, r.value + 1) != '%'
  {
    if i == |s| then None
    else if s[i] != '%' then NextPercent(s, i + 1)
    else if At(s, i + 1) == '%' then NextPercent(s, i + 2)
    else Some(i)
  }

  /** The loop that steps over flags, width and precision: the first letter
      at or after i, or None at the terminator. */
  function FirstAlpha(s: string, i: nat): (r: Option<nat>)
    requires i <= |s|
    decreases |s| - i
    ensures r.Some? ==> i <= r.value < |s| && IsAlpha(s[r.value])
  {
    if IsAlpha(At(s, i)) then Some(i)
    else if i == |s| then None
    else FirstAlpha(s, i + 1)
  }

  /** safeprintf_findfmtandadvance from index i: the type the next
      conversion wants and where scanning goes on, just past its letter.
      NoType with no pointer when no conversion is left; Unknown with no
      pointer when the string ends before a letter. */
  function FindFmt(s: string, i: nat): (r: (PrintfType, Option<nat>))
    requires NulFree(s) && i <= |s|
    ensures r.0 == NoType <==> NextPercent(s, i).None?
    ensures r.0 == NoType ==> r.1.None?
    ensures r.1.Some? ==> i < r.1.value <= |s| + 1
    ensures r.1.Some? && r.0 != Unknown ==> r.1.value <= |s|
  {
    match NextPercent(s, i)
    case None => (NoType, None)
    case Some(k) =>
      match FirstAlpha(s, k + 1)
      case None => (Unknown, None)
      case Some(a) => Conversion(s, a)
  }

  /** The conversion whose size modifier or letter starts at a: its type,
      and the index just past its letter. */
  function Conversion(s: string, a: nat): (r: (PrintfType, Option<nat>))
    ensures r.0 != NoType && r.1.Some? && a < r.1.value <= a + 4
    ensures r.1.value > |s| ==> r.0 == Unknown
  {
    var w := SkipWidth(s, a);
    (FmtType(At(s, w.0), w.1), Some(w.0 + 1))
  }

  /** safeprintf_findfmtandadvance(&ptr) with ptr at index i. */
  method FindFmtAndAdvance(s: string, i0: nat) returns (t: PrintfType, next: Option<nat>)
    requires NulFree(s) && i0 <= |s|
    ensures (t, next) == FindFmt(s, i0)
  {
    var i := i0;
    while true
      invariant i <= |s| && NextPercent(s, i) == NextPercent(s, i0)
      decreases |s| - i
    {
      if i == |s| {
        return NoType, None;
      }
      if s[i] == '%' {
        if At(s, i + 1) == '%' {
          i := i + 2;
        } else {
          break;
        }
      } else {
        i := i + 1;
      }
    }
    var p := i + 1;
    while !IsAlpha(At(s, p))
      invariant i < p <= |s| && FirstAlpha(s, p) == FirstAlpha(s, i + 1)
      decreases |s| - p
    {
      if p == |s| {
        return Unknown, None;
      }
      p := p + 1;
    }
    var w := SkipWidth(s, p);
    t := FmtType(At(s, w.0), w.1);
    next := Some(w.0 + 1);
  }

  /** A text without '%' holds no conversion. */
  lemma {:induction false} NoPercentNoType(s: string, i: nat)
    requires NulFree(s) && i <= |s| && '%' !in s[i..]
    ensures FindFmt(s, i) == (NoType, None)
    ensures NextPercent(s, i) == None
    decreases |s| - i
  {
    if i < |s| {
      assert s[i] == s[i..][0];
      assert s[i + 1..] == s[i..][1..];
      NoPercentNoType(s, i + 1);
    }
  }

  /** The scan steps over text without '%' to the next one. */
  lemma {:induction false} PercentAfter(s: string, i: nat, k: nat)
    requires NulFree(s) && i <= k < |s| && '%' !in s[i..k]
    ensures NextPercent(s, i) == NextPercent(s, k)
    decreases k - i
  {
    if i < k {
      assert s[i] == s[i..k][0];
      assert s[i + 1..k] == s[i..k][1..];
      PercentAfter(s, i + 1, k);
    }
  }

  /** "%%" is a literal percent: the scan goes on after it. */
  lemma DoublePercentSkipped(s: string, i: nat)
    requires NulFree(s) && i + 2 <= |s| && s[i] == '%' && s[i + 1] == '%'
    ensures FindFmt(s, i) == FindFmt(s, i + 2)
  {
    assert NextPercent(s, i) == NextPercent(s, i + 2);
  }

  /** A conversion "%" + flags + letter after text without '%': the type its
      letter wants, and scanning goes on just past the letter. */
  lemma FindConversion(x: string, f: string, c: char, y: string)
    requires NulFree(x + "%" + f + [c] + y) && '%' !in x && IsAlpha(c) && c !in "hlwI"
    requires forall q :: 0 <= q < |f| ==> !IsAlpha(f[q])
    requires |f| > 0 ==> f[0] != '%'
    ensures FindFmt(x + "%" + f + [c] + y, 0) == (FmtType(c, false), Some((|x| + |f| + 2) as nat))
  {
    var s := x + "%" + f + [c] + y;
    var k := |x|;
    assert s[..k] == x && s[k] == '%';
    if k > 0 {
      PercentAfter(s, 0, k);
    }
    assert At(s, k + 1) == (if |f| > 0 then f[0] else c);
    assert NextPercent(s, k) == Some(k);
    var a := k + 1 + |f|;
    assert s[a] == c;
    FirstAlphaAt(s, k + 1, a);
    assert At(s, a) == c;
  }

  /** A '%' whose flags run to the end of the string: Unknown, and no
      pointer to go on from. */
  lemma FindUnterminated(x: string, f: string)
    requires NulFree(x + "%" + f) && '%' !in x
    requires forall q :: 0 <= q < |f| ==> !IsAlpha(f[q])
    requires |f| > 0 ==> f[0] != '%'
    ensures FindFmt(x + "%" + f, 0) == (Unknown, None)
  {
    var s := x + "%" + f;
    var k := |x|;
    assert s[..k] == x && s[k] == '%';
    if k > 0 {
      PercentAfter(s, 0, k);
    }
    assert At(s, k + 1) == (if |f| > 0 then f[0] else Nul);
    assert NextPercent(s, k) == Some(k);
    NoAlphaToEnd(s, k + 1);
  }

  lemma {:induction false} FirstAlphaAt(s: string, i: nat, a: nat)
    requires i <= a < |s| && IsAlpha(s[a]) && forall q :: i <= q < a ==> !IsAlpha(s[q])
    ensures FirstAlpha(s, i) == Some(a)
    decreases a - i
  {
    if i < a {
      FirstAlphaAt(s, i + 1, a);
    }
  }

  lemma {:induction false} NoAlphaToEnd(s: string, i: nat)
    requires i <= |s| && forall q :: i <= q < |s| ==> !IsAlpha(s[q])
    ensures FirstAlpha(s, i) == None
    decreases |s| - i
  {
    if i < |s| {
      NoAlphaToEnd(s, i + 1);
    }
  }

  /** Two scan positions with the same text from there on. */
  predicate SameFrom(s: string, i: nat, s2: string, j: nat)
  {
    i <= |s| && j <= |s2| && s[i..] == s2[j..]
  }

  /** Where a scan goes on, measured from where it started. */
  predicate SameOffset(a: Option<nat>, i: nat, b: Option<nat>, j: nat)
  {
    (a.None? && b.None?) || (a.Some? && b.Some? && a.value - i == b.value - j)
  }

  lemma AtSame(s: string, i: nat, s2: string, j: nat, d: nat)
    requires SameFrom(s, i, s2, j)
    ensures At(s, i + d) == At(s2, j + d)
  {
    if i + d < |s| {
      assert s[i + d] == s[i..][d];
    }
  }

  lemma {:induction false} NextPercentSame(s: string, i: nat, s2: string, j: nat)
    requires NulFree(s) && NulFree(s2) && SameFrom(s, i, s2, j)
    ensures SameOffset(NextPercent(s, i), i, NextPercent(s2, j), j)
    decreases |s| - i
  {
    if i < |s| {
      AtSame(s, i, s2, j, 0);
      AtSame(s, i, s2, j, 1);
      if s[i] != '%' {
        assert s[i + 1..] == s[i..][1..] && s2[j + 1..] == s2[j..][1..];
        NextPercentSame(s, i + 1, s2, j + 1);
      } else if At(s, i + 1) == '%' {
        assert s[i + 2..] == s[i..][2..] && s2[j + 2..] == s2[j..][2..];
        NextPercentSame(s, i + 2, s2, j + 2);
      }
    }
  }

  lemma {:induction false} FirstAlphaSame(s: string, i: nat, s2: string, j: nat)
    requires SameFrom(s, i, s2, j)
    ensures SameOffset(FirstAlpha(s, i), i, FirstAlpha(s2, j), j)
    decreases |s| - i
  {
    AtSame(s, i, s2, j, 0);
    if !IsAlpha(At(s, i)) && i < |s| {
      assert s[i + 1..] == s[i..][1..] && s2[j + 1..] == s2[j..][1..];
      FirstAlphaSame(s, i + 1, s2, j + 1);
    }
  }

  /** The scan reads nothing before its start: the same text from there on
      gives the same type and the same advance. */
  lemma FindFmtSame(s: string, i: nat, s2: string, j: nat)
    requires NulFree(s) && NulFree(s2) && SameFrom(s, i, s2, j)
    ensures FindFmt(s, i).0 == FindFmt(s2, j).0
    ensures SameOffset(FindFmt(s, i).1, i, FindFmt(s2, j).1, j)
  {
    NextPercentSame(s, i, s2, j);
    match NextPercent(s, i)
    case None =>
      assert FindFmt(s, i) == (NoType, None) == FindFmt(s2, j);
    case Some(k) =>
      var k2 := NextPercent(s2, j).value;
      SameFromShift(s, i, s2, j, k + 1 - i);
      FindFmtSameAfter(s, i, k, s2, j, k2);
  }

  lemma FindFmtSameAfter(s: string, i: nat, k: nat, s2: string, j: nat, k2: nat)
    requires NulFree(s) && NulFree(s2) && i <= |s| && j <= |s2|
    requires NextPercent(s, i) == Some(k) && NextPercent(s2, j) == Some(k2) && k - i == k2 - j
    requires SameFrom(s, k + 1, s2, k2 + 1)
    ensures FindFmt(s, i).0 == FindFmt(s2, j).0
    ensures SameOffset(FindFmt(s, i).1, i, FindFmt(s2, j).1, j)
  {
    FirstAlphaSame(s, k + 1, s2, k2 + 1);
    match FirstAlpha(s, k + 1)
    case None =>
      FindFmtNoLetter(s, i, k);
      FindFmtNoLetter(s2, j, k2);
    case Some(a) =>
      var a2 := FirstAlpha(s2, k2 + 1).value;
      SameFromShift(s, k + 1, s2, k2 + 1, a - k - 1);
      ConversionSame(s, a, s2, a2);
      FindFmtAt(s, i, k, a);
      FindFmtAt(s2, j, k2, a2);
  }

  lemma SameFromShift(s: string, i: nat, s2: string, j: nat, d: nat)
    requires SameFrom(s, i, s2, j) && i + d <= |s|
    ensures SameFrom(s, i + d, s2, j + d)
  {
    assert s[i + d..] == s[i..][d..];
    assert s2[j + d..] == s2[j..][d..];
  }

  /** FindFmt once the '%' is found and no letter follows. */
  lemma FindFmtNoLetter(s: string, i: nat, k: nat)
    requires NulFree(s) && i <= |s| && NextPercent(s, i) == Some(k) && FirstAlpha(s, k + 1) == None
    ensures FindFmt(s, i) == (Unknown, None)
  {
  }

  /** FindFmt once the '%' and the letter after it are found. */
  lemma FindFmtAt(s: string, i: nat, k: nat, a: nat)
    requires NulFree(s) && i <= |s| && NextPercent(s, i) == Some(k) && FirstAlpha(s, k + 1) == Some(a)
    ensures FindFmt(s, i) == Conversion(s, a)
  {
  }

  lemma ConversionSame(s: string, a: nat, s2: string, a2: nat)
    requires SameFrom(s, a, s2, a2)
    ensures Conversion(s, a).0 == Conversion(s2, a2).0
    ensures Conversion(s, a).1.value - a == Conversion(s2, a2).1.value - a2
  {
    SkipWidthSame(s, a, s2, a2);
  }

  lemma SkipWidthSame(s: string, a: nat, s2: string, a2: nat)
    requires SameFrom(s, a, s2, a2)
    ensures SkipWidth(s, a).0 - a == SkipWidth(s2, a2).0 - a2
    ensures SkipWidth(s, a).1 == SkipWidth(s2, a2).1
    ensures At(s, SkipWidth(s, a).0) == At(s2, SkipWidth(s2, a2).0)
  {
    AtSame(s, a, s2, a2, 0);
    AtSame(s, a, s2, a2, 1);
    AtSame(s, a, s2, a2, 2);
    AtSame(s, a, s2, a2, 3);
  }

  /** safeprintf_checkintunsigned, _checkintasfloat, _checkintsize and
      _noisy. */
  datatype Options = Options(noisy: bool, checkIntSize: bool, checkIntAsFloat: bool, checkIntUnsigned: bool)

  /** The options as the globals start out. */
  const DefaultOptions := Options(true, true, false, false)

  /** The configuration globals. */
  class Config {
    var options: Options

    constructor ()
      ensures options == DefaultOptions
      ensures options.noisy && options.checkIntSize && !options.checkIntAsFloat && !options.checkIntUnsigned
    {
      options := DefaultOptions;
    }

    /** safeprintf_setoptions. */
    method SetOptions(noisy: bool, checkIntSize: bool, checkIntAsFloat: bool, checkIntUnsigned: bool)
      modifies this
      ensures options == Options(noisy, checkIntSize, checkIntAsFloat, checkIntUnsigned)
    {
      options := Options(noisy, checkIntSize, checkIntAsFloat, checkIntUnsigned);
    }
  }

  /** safeprintf_throwerror returns instead of throwing: an int for an int
      conversion whose width agrees (when sizes are checked) and whose sign
      agrees (when signs are checked), or an int for a float conversion when
      that is not checked. */
  predicate Tolerated(o: Options, fmtType: PrintfType, argType: PrintfType)
  {
    (IsIntFmt(fmtType) && IsIntFmt(argType) &&
     (!o.checkIntSize || IntWidth(fmtType) == IntWidth(argType)) &&
     (!o.checkIntUnsigned || IntSign(fmtType) == IntSign(argType)))
    ||
    (fmtType == Float && argType in {Int32, Int64, UInt32, UInt64} && !o.checkIntAsFloat)
  }

  /** Only an int argument is ever let through, for an int or a float
      conversion; a pointer, string or float argument never is. */
  lemma ToleratesOnlyInts(o: Options, fmtType: PrintfType, argType: PrintfType)
    requires Tolerated(o, fmtType, argType)
    ensures IsIntFmt(argType) && (IsIntFmt(fmtType) || fmtType == Float)
  {
  }

  /** Turning checks on only ever lets fewer mismatches through. */
  lemma StricterToleratesLess(o1: Options, o2: Options, fmtType: PrintfType, argType: PrintfType)
    requires o1.checkIntSize ==> o2.checkIntSize
    requires o1.checkIntAsFloat ==> o2.checkIntAsFloat
    requires o1.checkIntUnsigned ==> o2.checkIntUnsigned
    ensures Tolerated(o2, fmtType, argType) ==> Tolerated(o1, fmtType, argType)
  {
  }

  /** With every check on, no mismatch is let through. */
  lemma AllChecksTolerateNothing(o: Options, fmtType: PrintfType, argType: PrintfType)
    requires o.checkIntSize && o.checkIntAsFloat && o.checkIntUnsigned
    ensures Tolerated(o, fmtType, argType) ==> fmtType == argType
  {
    IntKinds(fmtType, argType);
  }

  /** With the default options a width mismatch throws and a sign mismatch
      or an int for a float does not. */
  lemma DefaultTolerance()
    ensures Tolerated(DefaultOptions, Int32, UInt32) && Tolerated(DefaultOptions, UInt64, Int64)
    ensures !Tolerated(DefaultOptions, Int32, Int64) && !Tolerated(DefaultOptions, UInt32, UInt64)
    ensures Tolerated(DefaultOptions, Float, Int64)
    ensures !Tolerated(DefaultOptions, CharPtr, Int32) && !Tolerated(DefaultOptions, Int32, Float)
  {
  }

  /** What a check throws. */
  datatype PrintfError = SyntaxError | TypeError(wanted: PrintfType, found: PrintfType)

  /** checkarg(fmt_base, fmt, arg) with fmt at index i (None for NULL): the
      pointer for the next argument, or the error thrown. */
  function CheckArg(s: string, i: Option<nat>, argType: PrintfType, o: Options): (r: Result<Option<nat>, PrintfError>)
    requires NulFree(s) && (i.Some? ==> i.value <= |s|)
    ensures r.Ok? && r.value.Some? ==> r.value.value <= |s|
    ensures i.None? ==> r == Ok(None)
    ensures i.Some? ==>
      var t := FindFmt(s, i.value).0;
      (r.Err? <==> t != NoType && (t == Unknown || (t != argType && !Tolerated(o, t, argType))))
    ensures i.Some? && r == Err(SyntaxError) ==> FindFmt(s, i.value).0 == Unknown
  {
    if i.None? then Ok(None)
    else
      var f := FindFmt(s, i.value);
      if f.0 == NoType then Ok(None)
      else if f.0 == Unknown then Err(SyntaxError)
      else if f.0 != argType && !Tolerated(o, f.0, argType) then Err(TypeError(f.0, argType))
      else Ok(f.1)
  }
}
