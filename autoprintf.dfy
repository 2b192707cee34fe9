/**
  autoprintf.cpp: autoToString takes its arguments with their types, treats
  each next argument as a format, fills every "%a" in it with the
  conversion for the type of the argument it stands for, checks every
  other conversion against its argument, and prints it with the arguments
  the format used.  The build is the MSVC one, whose 64-bit length
  modifier is "I64".
*/
module AutoPrintf {
  import opened Wrappers
  import opened CLib
  import opened SafePrintf

  /** APF_MAX_ARGS: the size of the argument type table. */
  const MaxArgs: nat := 20

  /** FMT_I64 under MSVC. */
  const FmtI64: string := "I64"

  /** safeprintf_fmtForType: the conversion that "%a" becomes for an
      argument of type t.  There is none for a pointer to int, or for no
      type or an unknown one: safeprintf_throwerror(t, t) then throws,
      since an equal pair of such types is never tolerated. */
  function FmtForType(t: PrintfType): (r: Result<string, PrintfError>)
    ensures r.Ok? <==> t !in {NoType, Unknown, PtrInt}
    ensures r.Ok? ==> 1 <= |r.value| <= 4 && NulFree(r.value) && '%' !in r.value
    ensures r.Err? ==> r.error == TypeError(t, t)
  {
    match t
    case Int32 => Ok("d")
    case Int64 => Ok(FmtI64 + "d")
    case UInt32 => Ok("u")
    case UInt64 => Ok(FmtI64 + "u")
    case Float => Ok("f")
    case PtrVoid => Ok("p")
    case WCharPtr => Ok("S")
    case CharPtr => Ok("s")
    case _ => Err(TypeError(t, t))
  }

  /** The conversion FmtForType writes is read back by the scanner as
      exactly the type it was written for, and the scan stops right after
      it, whatever text surrounds it. */
  lemma FmtForTypeRoundTrip(x: string, t: PrintfType, y: string)
    requires FmtForType(t).Ok? && NulFree(x) && NulFree(y) && '%' !in x
    ensures var code := FmtForType(t).value;
      FindFmt(x + "%" + code + y, 0) == (t, Some((|x| + 1 + |code|) as nat))
  {
    var code := FmtForType(t).value;
    if |code| == 1 {
      assert code == [code[0]];
      ReadsBackLetter(x, code[0], y);
    } else {
      assert code == "I64" + [code[3]];
      ReadsBackI64(x, code[3], y);
    }
  }

  /** "%" and a letter that is not a size modifier: the letter's type. */
  lemma ReadsBackLetter(x: string, c: char, y: string)
    requires NulFree(x) && NulFree(y) && '%' !in x && IsAlpha(c) && c !in "hlwI"
    ensures FindFmt(x + "%" + [c] + y, 0) == (FmtType(c, false), Some((|x| + 2) as nat))
  {
    FindConversion(x, "", c, y);
    assert x + "%" + "" + [c] + y == x + "%" + [c] + y;
  }

  /** "%I64" and a letter: the letter's 64-bit type. */
  lemma ReadsBackI64(x: string, c: char, y: string)
    requires NulFree(x) && NulFree(y) && '%' !in x && IsAlpha(c)
    ensures FindFmt(x + "%" + ("I64" + [c]) + y, 0) == (FmtType(c, true), Some((|x| + 5) as nat))
  {
    var s := x + "%" + ("I64" + [c]) + y;
    var k := |x|;
    assert s[..k] == x && s[k] == '%' && s[k + 1] == 'I' && s[k + 4] == c;
    if k > 0 {
      PercentAfter(s, 0, k);
    }
    assert NextPercent(s, k) == Some(k);
    assert FirstAlpha(s, k + 1) == Some(k + 1);
    WidthModifiers(x + "%", [c] + y, 'I');
    assert s == (x + "%") + "I64" + ([c] + y);
    assert At(s, k + 4) == c;
    FindFmtAt(s, 0, k, k + 1);
  }

  /** pArgTypes[k]: the argument table is padded with NoType. */
  function ArgAt(types: seq<PrintfType>, k: nat): PrintfType
  {
    if k < |types| then types[k] else NoType
  }

  /** What one pass of DoAutoType's loop does: finish with the result,
      fill the 'a' at index `at` with `code`, or step past a checked
      conversion to `next`. */
  datatype Action = Finish(result: Result<(string, nat), PrintfError>) | Fill(at: nat, code: string) | Pass(next: nat)

  /** The pass at index i of s with argument k next: no conversion left
      returns the format; a conversion without a pointer after it throws; a
      conversion unknown to the scanner is "%a", filled with the conversion
      for argument k, or a syntax error; any other is checked against
      argument k. */
  function NextAction(s: string, i: nat, types: seq<PrintfType>, k: nat, o: Options): Action
    requires NulFree(s) && i <= |s|
  {
    var f := FindFmt(s, i);
    if f.0 == NoType then Finish(Ok((s, k)))
    else if f.1.None? then Finish(Err(TypeError(f.0, NoType)))
    else
      var n := f.1.value;
      var a := ArgAt(types, k);
      if f.0 == Unknown then
        if At(s, n - 1) in "aA" then
          if a == NoType || a == Unknown then Finish(Err(TypeError(Unknown, a)))
          else
            match FmtForType(a)
            case Err(e) => Finish(Err(e))
            case Ok(code) => Fill(n - 1, code)
        else Finish(Err(SyntaxError))
      else if f.0 != a && !Tolerated(o, f.0, a) then Finish(Err(TypeError(f.0, a)))
      else Pass(n)
  }

  /** A pass that finishes well has found no conversion; one that goes on
      has found a conversion whose end lies in the format and an argument of
      a known type for it; a fill replaces the 'a' or 'A' just before that
      end with the type's conversion code. */
  lemma NextActionShape(s: string, i: nat, types: seq<PrintfType>, k: nat, o: Options)
    requires NulFree(s) && i <= |s|
    ensures var r := NextAction(s, i, types, k, o);
      && (r.Finish? && r.result.Ok? ==> r.result.value == (s, k) && FindFmt(s, i).0 == NoType)
      && (!r.Finish? ==> ArgAt(types, k) !in {NoType, Unknown})
      && (!r.Finish? ==> FindFmt(s, i).0 != NoType && FindFmt(s, i).1.Some? && FindFmt(s, i).1.value <= |s|)
      && (r.Fill? ==> r.at + 1 == FindFmt(s, i).1.value && s[r.at] in "aA")
      && (r.Fill? ==> 1 <= |r.code| <= 4 && NulFree(r.code) && FmtForType(ArgAt(types, k)) == Ok(r.code))
      && (r.Pass? ==> r.next == FindFmt(s, i).1.value)
  {
  }

  /** The working buffer of DoAutoType: the format and its terminator,
      with room for MaxArgs fill codes of up to four characters. */
  method LoadBuffer(fmt: string) returns (buf: array<char>)
    ensures fresh(buf) && buf.Length == |fmt| + MaxArgs * 4 + 1
    ensures buf[..|fmt|] == fmt && buf[|fmt|] == Nul
  {
    buf := new char[|fmt| + MaxArgs * 4 + 1];
    CopyInto(buf, 0, fmt);
    buf[|fmt|] := Nul;
    assert buf[..|fmt|] == fmt;
  }

  /** One pass of DoAutoType's loop: it stops with the result, or goes on
      scanning `fmt` from `at` with one more argument used. */
  datatype Step = Stop(result: Result<(string, nat), PrintfError>) | Go(fmt: string, at: nat)

  /** The pass as a change of format and scan position. */
  function AutoStep(s: string, i: nat, types: seq<PrintfType>, k: nat, o: Options): Step
    requires NulFree(s) && i <= |s|
  {
    match NextAction(s, i, types, k, o)
    case Finish(r) => Stop(r)
    case Fill(at, code) => Go(s[..at] + code + s[at + 1..], at + |code|)
    case Pass(n) => Go(s, n)
  }

  /** A pass that stops with success returns the format as it is; a pass
      that goes on leaves a NUL-free format and less of it to scan. */
  lemma AutoStepShape(s: string, i: nat, types: seq<PrintfType>, k: nat, o: Options)
    requires NulFree(s) && i <= |s|
    ensures var r := AutoStep(s, i, types, k, o);
      && (r.Stop? && r.result.Ok? ==> r.result.value == (s, k) && FindFmt(s, i).0 == NoType)
      && (r.Go? ==> NulFree(r.fmt) && r.at <= |r.fmt| && |r.fmt| - r.at < |s| - i)
  {
    NextActionShape(s, i, types, k, o);
  }

  /** A pass that goes on has used an argument of a known type, has read a
      conversion, and leaves what follows that conversion to scan. */
  lemma AutoStepGoes(s: string, i: nat, types: seq<PrintfType>, k: nat, o: Options)
    requires NulFree(s) && i <= |s| && AutoStep(s, i, types, k, o).Go?
    ensures ArgAt(types, k) !in {NoType, Unknown}
    ensures FindFmt(s, i).0 != NoType && FindFmt(s, i).1.Some? && FindFmt(s, i).1.value <= |s|
    ensures var r := AutoStep(s, i, types, k, o); r.fmt[r.at..] == s[FindFmt(s, i).1.value..]
  {
    NextActionShape(s, i, types, k, o);
    match NextAction(s, i, types, k, o)
    case Fill(at, code) =>
      var s' := s[..at] + code + s[at + 1..];
      assert s'[at + |code|..] == s[at + 1..];
    case Pass(n) =>
  }

  /** DoAutoType(ret, numArgs, types) scanning from index i with k
      arguments used: the format with every "%a" filled in and the number
      of arguments the format uses, or the error thrown. */
  function AutoType(s: string, i: nat, types: seq<PrintfType>, k: nat, o: Options): (r: Result<(string, nat), PrintfError>)
    requires NulFree(s) && i <= |s|
    decreases |s| - i
    ensures r.Ok? ==> NulFree(r.value.0) && k <= r.value.1
  {
    AutoStepShape(s, i, types, k, o);
    match AutoStep(s, i, types, k, o)
    case Stop(r) => r
    case Go(s', i') => AutoType(s', i', types, k + 1, o)
  }

  /** Every argument a successful DoAutoType counts has a known type. */
  lemma {:induction false} AutoTypeArgsReal(s: string, i: nat, types: seq<PrintfType>, k: nat, o: Options)
    requires NulFree(s) && i <= |s|
    ensures var r := AutoType(s, i, types, k, o);
      r.Ok? ==> forall q :: k <= q < r.value.1 ==> ArgAt(types, q) !in {NoType, Unknown}
    decreases |s| - i
  {
    AutoStepShape(s, i, types, k, o);
    match AutoStep(s, i, types, k, o)
    case Stop(_) =>
    case Go(s', i') =>
      AutoStepGoes(s, i, types, k, o);
      AutoTypeArgsReal(s', i', types, k + 1, o);
      var r := AutoType(s', i', types, k + 1, o);
      AutoTypeGo(s, i, types, k, o);
      if r.Ok? {
        forall q | k <= q < r.value.1
          ensures ArgAt(types, q) !in {NoType, Unknown}
        {
          if q > k {
            assert k + 1 <= q;
          }
        }
      }
  }

  /** DoAutoType: the format is copied into a writable buffer with room
      for MaxArgs conversions of four characters; ptr is the scan position in
      it, len the length of the text in it and numArgs the count of
      arguments used.  The table holds fewer than MaxArgs types. */
  method DoAutoType(fmt: string, types: seq<PrintfType>, o: Options) returns (r: Result<(string, nat), PrintfError>)
    requires NulFree(fmt) && |types| < MaxArgs
    ensures r == AutoType(fmt, 0, types, 0, o)
  {
    var buf := LoadBuffer(fmt);
    var len: nat := |fmt|;
    var ptr: nat := 0;
    var numArgs: nat := 0;
    ghost var cur := fmt;
    ghost var target := AutoType(fmt, 0, types, 0, o);
    while true
      invariant Holds(buf, len, cur) && ptr <= len
      invariant numArgs <= |types| && len <= |fmt| + 3 * numArgs
      invariant AutoType(cur, ptr, types, numArgs, o) == target
      decreases len - ptr
    {
      var stop, newLen, next, cur' := AutoPass(buf, len, ptr, types, numArgs, o, cur, target);
      if stop.Some? {
        return stop.value;
      }
      len, ptr, numArgs, cur := newLen, next, numArgs + 1, cur';
    }
  }

  /** One pass of DoAutoType's loop over the buffer: the result when it
      stops; otherwise the buffer holds the format the pass goes on with,
      and next is where it goes on. */
  method AutoPass(buf: array<char>, len: nat, ptr: nat, types: seq<PrintfType>, numArgs: nat, o: Options, ghost cur: string, ghost target: Result<(string, nat), PrintfError>)
    returns (stop: Option<Result<(string, nat), PrintfError>>, newLen: nat, next: nat, ghost cur': string)
    requires len + 3 < buf.Length && Holds(buf, len, cur) && ptr <= len
    requires AutoType(cur, ptr, types, numArgs, o) == target
    modifies buf
    ensures stop.Some? ==> stop.value == target
    ensures stop.None? ==> numArgs < |types| && newLen <= len + 3 && Holds(buf, newLen, cur')
    ensures stop.None? ==> next <= newLen && newLen - next < len - ptr
    ensures stop.None? ==> AutoType(cur', next, types, numArgs + 1, o) == target
  {
    ghost var step := AutoStep(cur, ptr, types, numArgs, o);
    stop, newLen, next := EditPass(buf, len, ptr, types, numArgs, o, cur);
    if step.Stop? {
      AutoTypeStopped(cur, ptr, types, numArgs, o);
      cur' := cur;
    } else {
      PassAdvances(cur, ptr, types, numArgs, o);
      cur' := step.fmt;
    }
  }

  /** The first len characters of buf are the text cur, and a NUL ends it. */
  ghost predicate Holds(buf: array<char>, len: nat, cur: string)
    reads buf
  {
    len < buf.Length && buf[..len] == cur && buf[len] == Nul && NulFree(cur)
  }

  /** The buffer edit of one pass: AutoStep carried out in place. */
  method EditPass(buf: array<char>, len: nat, ptr: nat, types: seq<PrintfType>, numArgs: nat, o: Options, ghost cur: string)
    returns (stop: Option<Result<(string, nat), PrintfError>>, newLen: nat, next: nat)
    requires len + 3 < buf.Length && buf[..len] == cur && NulFree(cur) && buf[len] == Nul && ptr <= len
    modifies buf
    ensures var step := AutoStep(cur, ptr, types, numArgs, o);
      && (step.Stop? ==> stop == Some(step.result))
      && (step.Go? ==> stop.None? && newLen <= len + 3 && buf[..newLen] == step.fmt && buf[newLen] == Nul && next == step.at)
  {
    var action := Decide(buf[..len], ptr, types, numArgs, o);
    match action
    case Finish(r) =>
      return Some(r), len, ptr;
    case Fill(at, code) =>
      newLen := Splice(buf, len, at, code);
      return None, newLen, at + |code|;
    case Pass(n) =>
      return None, len, n;
  }

  /** The scan and the checks of one pass of DoAutoType's loop. */
  method Decide(ret: string, ptr: nat, types: seq<PrintfType>, numArgs: nat, o: Options) returns (action: Action)
    requires NulFree(ret) && ptr <= |ret|
    ensures action == NextAction(ret, ptr, types, numArgs, o)
  {
    var fmtType, p := FindFmtAndAdvance(ret, ptr);
    if fmtType == NoType {
      return Finish(Ok((ret, numArgs)));
    }
    if p.None? {
      return Finish(Err(TypeError(fmtType, NoType)));
    }
    var n := p.value;
    var argType := ArgAt(types, numArgs);
    if fmtType == Unknown {
      if At(ret, n - 1) in "aA" {
        if argType == NoType || argType == Unknown {
          return Finish(Err(TypeError(Unknown, argType)));
        }
        var ins := FmtForType(argType);
        if ins.Err? {
          return Finish(Err(ins.error));
        }
        return Fill(n - 1, ins.value);
      } else {
        return Finish(Err(SyntaxError));
      }
    } else {
      if fmtType != argType && !Tolerated(o, fmtType, argType) {
        return Finish(Err(TypeError(fmtType, argType)));
      }
      return Pass(n);
    }
  }

  /** The 'a' at index at replaced by ins: the tail with its terminator
      moved along by memmove when ins is longer than one character, then
      ins copied in. */
  method Splice(buf: array<char>, len: nat, at: nat, ins: string) returns (newLen: nat)
    requires at < len && 1 <= |ins| && len + |ins| <= buf.Length && buf[len] == Nul
    modifies buf
    ensures newLen == len - 1 + |ins|
    ensures buf[..newLen] == old(buf[..len])[..at] + ins + old(buf[..len])[at + 1..] && buf[newLen] == Nul
  {
    if |ins| > 1 {
      ShiftRight(buf, at + 1, len + 1, |ins| - 1);
    }
    CopyInto(buf, at, ins);
    newLen := len - 1 + |ins|;
    assert buf[..newLen] == old(buf[..len])[..at] + ins + old(buf[..len])[at + 1..] by {
      forall q | 0 <= q < newLen
        ensures buf[q] == (old(buf[..len])[..at] + ins + old(buf[..len])[at + 1..])[q]
      {
        if q >= at + |ins| {
          assert buf[q] == old(buf[q - |ins| + 1]);
        }
      }
    }
  }

  /** memmove of buf[from..to] by shift places towards the end, copying
      from the back. */
  method ShiftRight(buf: array<char>, from: nat, to: nat, shift: nat)
    requires from <= to && to + shift <= buf.Length && shift > 0
    modifies buf
    ensures forall q :: from <= q < to ==> buf[q + shift] == old(buf[q])
    ensures forall q :: 0 <= q < from ==> buf[q] == old(buf[q])
  {
    var q := to;
    while q > from
      invariant from <= q <= to
      invariant forall p :: 0 <= p < q ==> buf[p] == old(buf[p])
      invariant forall p :: q <= p < to ==> buf[p + shift] == old(buf[p])
      decreases q
    {
      q := q - 1;
      buf[q + shift] := buf[q];
    }
  }

  /** memcpy of ins to index at. */
  method CopyInto(buf: array<char>, at: nat, ins: string)
    requires at + |ins| <= buf.Length
    modifies buf
    ensures buf[at..at + |ins|] == ins
    ensures forall q :: 0 <= q < buf.Length && !(at <= q < at + |ins|) ==> buf[q] == old(buf[q])
  {
    for p := 0 to |ins|
      invariant buf[at..at + p] == ins[..p]
      invariant forall q :: 0 <= q < buf.Length && !(at <= q < at + p) ==> buf[q] == old(buf[q])
    {
      buf[at + p] := ins[p];
    }
  }

  /** The number of conversions the scanner finds in a format, counting an
      unterminated one. */
  function Conversions(u: string): nat
    requires NulFree(u)
    decreases |u|
  {
    var f := FindFmt(u, 0);
    if f.0 == NoType then 0
    else if f.1.None? || f.1.value > |u| then 1
    else 1 + Conversions(u[f.1.value..])
  }

  /** A conversion ending at n counts one, and the count goes on from n. */
  lemma ConversionsStep(s: string, i: nat)
    requires NulFree(s) && i <= |s|
    requires FindFmt(s, i).0 != NoType && FindFmt(s, i).1.Some? && FindFmt(s, i).1.value <= |s|
    ensures Conversions(s[i..]) == 1 + Conversions(s[FindFmt(s, i).1.value..])
  {
    FindFmtSame(s, i, s[i..], 0);
    var n := FindFmt(s, i).1.value;
    assert s[i..][n - i..] == s[n..];
  }

  /** The count DoAutoType returns is the number of conversions in the
      format: every conversion uses one argument, "%%" none. */
  lemma {:induction false} AutoTypeCounts(s: string, i: nat, types: seq<PrintfType>, k: nat, o: Options)
    requires NulFree(s) && i <= |s| && AutoType(s, i, types, k, o).Ok?
    ensures AutoType(s, i, types, k, o).value.1 == k + Conversions(s[i..])
    decreases |s| - i
  {
    AutoStepShape(s, i, types, k, o);
    match AutoStep(s, i, types, k, o)
    case Stop(r) =>
      FindFmtSame(s, i, s[i..], 0);
    case Go(s', i') =>
      AutoStepGoes(s, i, types, k, o);
      AutoTypeCounts(s', i', types, k + 1, o);
      ConversionsStep(s, i);
  }

  /** A format without '%' is used as it is, with no arguments. */
  lemma AutoTypeNoPercent(s: string, types: seq<PrintfType>, o: Options)
    requires NulFree(s) && '%' !in s
    ensures AutoType(s, 0, types, 0, o) == Ok((s, 0))
  {
    NoPercentNoType(s, 0);
  }

  /** "%a" or "%A" is filled with the conversion for the first argument's
      type (which FmtForTypeRoundTrip reads back as that type); the rest of
      the format is kept. */
  lemma AutoTypeFillsA(x: string, c: char, y: string, types: seq<PrintfType>, o: Options)
    requires NulFree(x) && NulFree(y) && '%' !in x && '%' !in y && c in "aA"
    requires |types| > 0 && FmtForType(types[0]).Ok?
    ensures AutoType(x + "%" + [c] + y, 0, types, 0, o) == Ok((x + "%" + FmtForType(types[0]).value + y, 1))
  {
    var code := FmtForType(types[0]).value;
    var s' := x + "%" + code + y;
    var n' := |x| + 1 + |code|;
    FillStep(x, c, y, types, o);
    AutoTypeGo(x + "%" + [c] + y, 0, types, 0, o);
    assert s'[n'..] == y;
    NoPercentNoType(s', n');
    AutoTypeEnd(s', n', types, 1, o);
  }

  /** A pass that goes on leaves the rest to the next pass. */
  lemma AutoTypeGo(s: string, i: nat, types: seq<PrintfType>, k: nat, o: Options)
    requires NulFree(s) && i <= |s| && AutoStep(s, i, types, k, o).Go?
    ensures var step := AutoStep(s, i, types, k, o);
      AutoType(s, i, types, k, o) == AutoType(step.fmt, step.at, types, k + 1, o)
  {
  }

  /** A pass that goes on uses one more argument, shortens what is left
      to scan, and leaves the final result unchanged. */
  lemma PassAdvances(s: string, i: nat, types: seq<PrintfType>, k: nat, o: Options)
    requires NulFree(s) && i <= |s| && AutoStep(s, i, types, k, o).Go?
    ensures var step := AutoStep(s, i, types, k, o);
      && k < |types| && NulFree(step.fmt) && step.at <= |step.fmt| && |step.fmt| - step.at < |s| - i
      && AutoType(step.fmt, step.at, types, k + 1, o) == AutoType(s, i, types, k, o)
  {
    AutoStepShape(s, i, types, k, o);
    AutoStepGoes(s, i, types, k, o);
    AutoTypeGo(s, i, types, k, o);
  }

  /** A pass that stops gives the result. */
  lemma AutoTypeStopped(s: string, i: nat, types: seq<PrintfType>, k: nat, o: Options)
    requires NulFree(s) && i <= |s| && AutoStep(s, i, types, k, o).Stop?
    ensures AutoType(s, i, types, k, o) == AutoStep(s, i, types, k, o).result
  {
  }

  /** With no conversion left the format is returned with the count so far. */
  lemma AutoTypeEnd(s: string, i: nat, types: seq<PrintfType>, k: nat, o: Options)
    requires NulFree(s) && i <= |s| && FindFmt(s, i).0 == NoType
    ensures AutoType(s, i, types, k, o) == Ok((s, k))
  {
  }

  /** The pass over "%a" fills it in and goes on after the filled text. */
  lemma FillStep(x: string, c: char, y: string, types: seq<PrintfType>, o: Options)
    requires NulFree(x) && NulFree(y) && '%' !in x && c in "aA"
    requires |types| > 0 && FmtForType(types[0]).Ok?
    ensures var code := FmtForType(types[0]).value;
      AutoStep(x + "%" + [c] + y, 0, types, 0, o) == Go(x + "%" + code + y, |x| + 1 + |code|)
  {
    var code := FmtForType(types[0]).value;
    FillAction(x, c, y, types, o);
    FillSplice(x, c, y, code);
  }

  /** The pass over "%a" decides to fill the 'a' in. */
  lemma FillAction(x: string, c: char, y: string, types: seq<PrintfType>, o: Options)
    requires NulFree(x) && NulFree(y) && '%' !in x && c in "aA"
    requires |types| > 0 && FmtForType(types[0]).Ok?
    ensures NextAction(x + "%" + [c] + y, 0, types, 0, o) == Fill(|x| + 1, FmtForType(types[0]).value)
  {
    var s := x + "%" + [c] + y;
    ReadsBackLetter(x, c, y);
    assert At(s, |x| + 1) == c;
  }

  /** Replacing the letter after the '%' by code. */
  lemma FillSplice(x: string, c: char, y: string, code: string)
    ensures var s := x + "%" + [c] + y;
      s[..|x| + 1] + code + s[|x| + 2..] == x + "%" + code + y
  {
    var s := x + "%" + [c] + y;
    assert s[..|x| + 1] == x + "%" && s[|x| + 2..] == y;
  }

  /** A typed conversion is checked against the first argument: an unknown
      letter is a syntax error, a type that differs and is not tolerated
      throws, and otherwise the format is kept with one argument used. */
  lemma AutoTypeChecks(x: string, c: char, y: string, types: seq<PrintfType>, o: Options)
    requires NulFree(x) && NulFree(y) && '%' !in x && '%' !in y
    requires IsAlpha(c) && c !in "hlwIaA"
    ensures var s, t, a := x + "%" + [c] + y, FmtType(c, false), ArgAt(types, 0);
      AutoType(s, 0, types, 0, o) ==
        if t == Unknown then Err(SyntaxError)
        else if t != a && !Tolerated(o, t, a) then Err(TypeError(t, a))
        else Ok((s, 1))
  {
    var s := x + "%" + [c] + y;
    assert s == x + "%" + "" + [c] + y;
    FindConversion(x, "", c, y);
    var n := |x| + 2;
    assert At(s, n - 1) == c;
    assert s[n..] == y;
    NoPercentNoType(s, n);
  }

  /** One autoToString argument: its type and the text ToString makes of
      its value. */
  datatype Arg = Arg(kind: PrintfType, text: string)

  /** GetVAArgToString: the argument as a string; a pointer to int prints
      nothing, and no type or an unknown one is a syntax error. */
  function ArgText(a: Arg): (r: Result<string, PrintfError>)
    ensures r.Err? <==> a.kind in {NoType, Unknown}
    ensures r.Ok? ==> r.value == if a.kind == PtrInt then "" else a.text
  {
    match a.kind
    case NoType => Err(SyntaxError)
    case Unknown => Err(SyntaxError)
    case PtrInt => Ok("")
    case _ => Ok(a.text)
  }

  function Kinds(args: seq<Arg>): (r: seq<PrintfType>)
    ensures |r| == |args| && forall q :: 0 <= q < |args| ==> r[q] == args[q].kind
  {
    seq(|args|, q requires 0 <= q < |args| => args[q].kind)
  }

  /** The arguments' texts are C strings. */
  predicate TextsNulFree(args: seq<Arg>)
  {
    forall q :: 0 <= q < |args| ==> NulFree(args[q].text)
  }

  /** SkipVAArg over args[from..to]: throws on an argument with no type or
      an unknown one. */
  predicate SkipsCleanly(args: seq<Arg>, from: nat, to: nat)
    requires from <= to <= |args|
  {
    forall q :: from <= q < to ==> args[q].kind !in {NoType, Unknown}
  }

  /** One pass of autoToStringFunc's loop at argument n: the text printed
      with argument n as the format and the index of the next format, or the
      error thrown. */
  function RenderStep(args: seq<Arg>, n: nat, o: Options, printf: (string, seq<Arg>) -> string): (r: Result<(string, nat), PrintfError>)
    requires n < |args| && TextsNulFree(args)
    ensures r.Ok? ==> n < r.value.1 <= |args|
  {
    match ArgText(args[n])
    case Err(e) => Err(e)
    case Ok(str) =>
      assert NulFree(str) by { assert NulFree(args[n].text); }
      PrintFormat(args, n + 1, AutoType(str, 0, Kinds(args[n + 1..]), 0, o), printf)
  }

  /** A format that DoAutoType made of argument n - 1 printed with the
      arguments from n that it uses: the text and the index past them, or
      the error thrown.  printf stands for StringRawPrintfVA. */
  function PrintFormat(args: seq<Arg>, n: nat, typed: Result<(string, nat), PrintfError>, printf: (string, seq<Arg>) -> string): (r: Result<(string, nat), PrintfError>)
    requires n <= |args|
    ensures r.Ok? ==> n <= r.value.1 <= |args|
  {
    match typed
    case Err(e) => Err(e)
    case Ok(used) =>
      var next := n + used.1;
      if next > |args| then Err(SyntaxError)
      else if !SkipsCleanly(args, n, next) then Err(SyntaxError)
      else Ok((printf(used.0, args[n..next]), next))
  }

  /** The loop of autoToStringFunc from argument n: the text it appends, or
      the error thrown. */
  function Render(args: seq<Arg>, n: nat, o: Options, printf: (string, seq<Arg>) -> string): Result<string, PrintfError>
    requires n <= |args| && TextsNulFree(args)
    decreases |args| - n
  {
    if n >= |args| then Ok("")
    else
      match RenderStep(args, n, o, printf)
      case Err(e) => Err(e)
      case Ok(step) => Prefixed(step.0, Render(args, step.1, o, printf))
  }

  /** autoToStringFunc: what it returns, the empty string when anything
      throws. */
  function AutoToString(args: seq<Arg>, o: Options, printf: (string, seq<Arg>) -> string): string
    requires TextsNulFree(args)
  {
    match Render(args, 0, o, printf)
    case Ok(s) => s
    case Err(_) => ""
  }

  /** The test for too many percents and SkipVAArg's check never throw:
      DoAutoType already stops at the first argument it lacks and at any
      argument without a known type, so printing a format fails exactly when
      DoAutoType does. */
  lemma ArgChecksRedundant(args: seq<Arg>, n: nat, str: string, o: Options, printf: (string, seq<Arg>) -> string)
    requires n <= |args| && NulFree(str)
    ensures PrintFormat(args, n, AutoType(str, 0, Kinds(args[n..]), 0, o), printf).Err? <==> AutoType(str, 0, Kinds(args[n..]), 0, o).Err?
  {
    var types := Kinds(args[n..]);
    var r := AutoType(str, 0, types, 0, o);
    AutoTypeArgsReal(str, 0, types, 0, o);
    if r.Ok? {
      var used := r.value.1;
      if used > 0 {
        assert ArgAt(types, used - 1) != NoType;
      }
      forall q | n <= q < n + used
        ensures args[q].kind !in {NoType, Unknown}
      {
        assert ArgAt(types, q - n) == args[q].kind;
      }
    }
  }

  /** Arguments that are all formats without '%' are each printed on their
      own, with no arguments, one after the other. */
  lemma {:induction false} RenderPlain(args: seq<Arg>, n: nat, o: Options, printf: (string, seq<Arg>) -> string)
    requires n <= |args| && TextsNulFree(args)
    requires forall q :: n <= q < |args| ==> args[q].kind == CharPtr && '%' !in args[q].text
    ensures Render(args, n, o, printf) == Ok(PrintAll(args[n..], printf))
    decreases |args| - n
  {
    if n < |args| {
      assert NulFree(args[n].text);
      AutoTypeNoPercent(args[n].text, Kinds(args[n + 1..]), o);
      RenderPlain(args, n + 1, o, printf);
      assert args[n..][1..] == args[n + 1..];
      assert args[n + 1..n + 1] == [];
    }
  }

  /** Each text printed as a format with no arguments, in order. */
  function PrintAll(args: seq<Arg>, printf: (string, seq<Arg>) -> string): string
  {
    if args == [] then "" else printf(args[0].text, []) + PrintAll(args[1..], printf)
  }

  /** autoToStringFunc(nArgs, ...), with the argument types in a table of
      MaxArgs entries. */
  method AutoToStringFunc(args: seq<Arg>, o: Options, printf: (string, seq<Arg>) -> string) returns (ret: string)
    requires |args| < MaxArgs && TextsNulFree(args)
    ensures ret == AutoToString(args, o, printf)
  {
    var acc := "";
    var n := 0;
    PrefixedEmpty(Render(args, 0, o, printf));
    while n < |args|
      invariant n <= |args|
      invariant Render(args, 0, o, printf) == Prefixed(acc, Render(args, n, o, printf))
      decreases |args| - n
    {
      var step := PrintNext(args, n, o, printf);
      if step.Err? {
        return "";
      }
      PrefixedAssoc(acc, step.value.0, Render(args, step.value.1, o, printf));
      acc := acc + step.value.0;
      n := step.value.1;
    }
    ret := acc;
    assert acc + "" == acc;
  }

  /** One pass of autoToStringFunc's loop: GetVAArgToString, then the
      argument as the format. */
  method PrintNext(args: seq<Arg>, n: nat, o: Options, printf: (string, seq<Arg>) -> string) returns (r: Result<(string, nat), PrintfError>)
    requires n < |args| < MaxArgs && TextsNulFree(args)
    ensures r == RenderStep(args, n, o, printf)
  {
    var str := ArgText(args[n]);
    if str.Err? {
      return Err(str.error);
    }
    assert NulFree(args[n].text);
    r := PrintWith(args, n + 1, str.value, o, printf);
  }

  /** DoAutoType, then the format printed. */
  method PrintWith(args: seq<Arg>, n: nat, str: string, o: Options, printf: (string, seq<Arg>) -> string) returns (r: Result<(string, nat), PrintfError>)
    requires n <= |args| < MaxArgs && NulFree(str)
    ensures r == PrintFormat(args, n, AutoType(str, 0, Kinds(args[n..]), 0, o), printf)
  {
    var useFmt := DoAutoType(str, Kinds(args[n..]), o);
    r := Emit(args, n, useFmt, printf);
  }

  /** The argument count check, StringRawPrintfVA and SkipVAArg. */
  method Emit(args: seq<Arg>, n: nat, useFmt: Result<(string, nat), PrintfError>, printf: (string, seq<Arg>) -> string) returns (r: Result<(string, nat), PrintfError>)
    requires n <= |args|
    ensures r == PrintFormat(args, n, useFmt, printf)
  {
    if useFmt.Err? {
      return Err(useFmt.error);
    }
    var numPercents := useFmt.value.1;
    if n + numPercents > |args| {
      return Err(SyntaxError);
    }
    var piece := printf(useFmt.value.0, args[n..n + numPercents]);
    var clean := SkipArgs(args, n, n + numPercents);
    if !clean {
      return Err(SyntaxError);
    }
    return Ok((piece, n + numPercents));
  }

  /** SkipVAArg over args[from..to]: false where it would throw. */
  method SkipArgs(args: seq<Arg>, from: nat, to: nat) returns (clean: bool)
    requires from <= to <= |args|
    ensures clean == SkipsCleanly(args, from, to)
  {
    var i := from;
    while i < to
      invariant from <= i <= to
      invariant forall q :: from <= q < i ==> args[q].kind !in {NoType, Unknown}
    {
      if args[i].kind in {NoType, Unknown} {
        return false;
      }
      i := i + 1;
    }
    return true;
  }

  lemma PrefixedEmpty(r: Result<string, PrintfError>)
    ensures Prefixed("", r) == r
  {
    if r.Ok? {
      assert "" + r.value == r.value;
    }
  }

  lemma PrefixedAssoc(a: string, b: string, r: Result<string, PrintfError>)
    ensures Prefixed(a, Prefixed(b, r)) == Prefixed(a + b, r)
  {
    if r.Ok? {
      assert a + (b + r.value) == (a + b) + r.value;
    }
  }

  /** acc put in front of an outcome. */
  function Prefixed(acc: string, r: Result<string, PrintfError>): Result<string, PrintfError>
  {
    match r
    case Ok(s) => Ok(acc + s)
    case Err(e) => Err(e)
  }
}
