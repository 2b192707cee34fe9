/**
  The Google Chart data encodings and list builders of GoogleChart.cpp.

  The encoders start from the value already scaled and rounded to an int
  (the double scaling in front of them is not modelled).  Each encoding is
  paired with the decoder the chart server applies, and the encoders are
  proved to round-trip through it up to clamping.
*/
module GoogleChart {
  import opened Wrappers
  import opened Util
  import CLib

  /** simpleEncoding: the 62 characters of the "s:" encoding. */
  const SimpleEncoding: string :=
    "ABCDEFGHIJKLM" + "NOPQRSTUVWXYZ" + "abcdefghijklm" + "nopqrstuvwxyz" + "0123456789"

  /** EXTENDED_MAP: the 64 characters of the "e:" encoding. */
  const ExtendedMap: string :=
    "ABCDEFGHIJKLM" + "NOPQRSTUVWXYZ" + "abcdefghijklm" + "nopqrstuvwxyz" + "0123456789" + "-."

  const SimpleEncodingLength: int := 62
  const ExtendedMapLength: int := 64

  /** extendedEncodeMax: the largest value two extended characters carry. */
  const ExtendedEncodeMax: int := ExtendedMapLength * ExtendedMapLength - 1

  /** The i-th character of the alphabet both tables share. */
  function AlphabetChar(i: int): char
    requires 0 <= i < 64
  {
    if i < 26 then ('A' as int + i) as char
    else if i < 52 then ('a' as int + (i - 26)) as char
    else if i < 62 then ('0' as int + (i - 52)) as char
    else if i == 62 then '-'
    else '.'
  }

  /** The position of a character in the alphabet, -1 if it is not in it. */
  function AlphabetIndex(c: char): (r: int)
    ensures -1 <= r < 64
    ensures r >= 0 ==> AlphabetChar(r) == c
  {
    if 'A' <= c <= 'Z' then c as int - 'A' as int
    else if 'a' <= c <= 'z' then c as int - 'a' as int + 26
    else if '0' <= c <= '9' then c as int - '0' as int + 52
    else if c == '-' then 62
    else if c == '.' then 63
    else -1
  }

  lemma AlphabetRoundTrip(i: int)
    requires 0 <= i < 64
    ensures AlphabetIndex(AlphabetChar(i)) == i
  {
  }

  /** The two tables have the lengths the source asserts at compile time
      and hold the alphabet in order. */
  lemma TableChars()
    ensures |SimpleEncoding| == SimpleEncodingLength && |ExtendedMap| == ExtendedMapLength
    ensures forall i :: 0 <= i < 64 ==> ExtendedMap[i] == AlphabetChar(i)
    ensures forall i :: 0 <= i < 62 ==> SimpleEncoding[i] == AlphabetChar(i)
  {
  }

  /** The simple table is the extended one without its last two characters,
      and every character in the tables is distinct. */
  lemma Tables()
    ensures |SimpleEncoding| == SimpleEncodingLength && |ExtendedMap| == ExtendedMapLength
    ensures forall i :: 0 <= i < 64 ==> ExtendedMap[i] == AlphabetChar(i)
    ensures SimpleEncoding == ExtendedMap[..62]
    ensures forall i, j :: 0 <= i < j < 64 ==> ExtendedMap[i] != ExtendedMap[j]
  {
    TableChars();
    forall i, j | 0 <= i < j < 64
      ensures ExtendedMap[i] != ExtendedMap[j]
    {
      AlphabetRoundTrip(i);
      AlphabetRoundTrip(j);
    }
  }

  // ---- simple encoding ----

  /** What the server reads from one "s:" character: its value, if it is one
      of the 62. */
  function SimpleDecode(c: char): Option<int>
  {
    var k := AlphabetIndex(c);
    if 0 <= k < SimpleEncodingLength then Some(k) else None
  }

  /** simpleEncode: the character for the scaled value clamped to [0, 61]. */
  function SimpleEncode(scaled: int): (c: char)
    ensures SimpleDecode(c) == Some(Clamp(scaled, 0, SimpleEncodingLength - 1))
  {
    Tables();
    var i := Clamp(scaled, 0, SimpleEncodingLength - 1);
    AlphabetRoundTrip(i);
    SimpleEncoding[i]
  }

  // ---- extended encoding ----

  /** What the server reads from two "e:" characters: the high digit times
      64 plus the low digit. */
  function ExtendedDecode(s: string): (r: Option<int>)
    ensures r.Some? ==> 0 <= r.value <= ExtendedEncodeMax
  {
    if |s| != 2 then None
    else
      var hi, lo := AlphabetIndex(s[0]), AlphabetIndex(s[1]);
      if hi < 0 || lo < 0 then None else Some(ExtendedMapLength * hi + lo)
  }

  /** extendedEncode: two characters, the scaled value clamped to [0, 4095]
      in base 64, high digit first. */
  function ExtendedEncode(scaled: int): (s: string)
    ensures |s| == 2
    ensures ExtendedDecode(s) == Some(Clamp(scaled, 0, ExtendedEncodeMax))
  {
    Tables();
    var v := Clamp(scaled, 0, ExtendedEncodeMax);
    var top := v / ExtendedMapLength;
    var bottom := v - ExtendedMapLength * top;
    AlphabetRoundTrip(top);
    AlphabetRoundTrip(bottom);
    [ExtendedMap[top], ExtendedMap[bottom]]
  }

  /** Every pair the server accepts is the encoding of exactly the value it
      decodes to: the encoding is onto, and decoding is one-to-one. */
  lemma ExtendedDecodeEncode(s: string)
    requires ExtendedDecode(s).Some?
    ensures ExtendedEncode(ExtendedDecode(s).value) == s
  {
    var hi, lo := AlphabetIndex(s[0]), AlphabetIndex(s[1]);
    var v := ExtendedMapLength * hi + lo;
    CLib.DivModUnique(v, ExtendedMapLength, hi, lo);
    assert v - ExtendedMapLength * (v / ExtendedMapLength) == lo;
    TableChars();
    assert ExtendedEncode(v) == [ExtendedMap[hi], ExtendedMap[lo]];
    assert ExtendedMap[hi] == s[0] && ExtendedMap[lo] == s[1];
  }

  // ---- text encoding ----

  /** What the server reads from two decimal digits. */
  function TextDecode(s: string): (r: Option<int>)
    ensures r.Some? ==> 0 <= r.value <= 99
  {
    if |s| == 2 && '0' <= s[0] <= '9' && '0' <= s[1] <= '9'
    then Some(10 * (s[0] as int - '0' as int) + (s[1] as int - '0' as int))
    else None
  }

  /** textEncode: the two decimal digits of the scaled value clamped to
      [0, 99]. */
  function TextEncode(scaled: int): (s: string)
    ensures TextDecode(s) == Some(Clamp(scaled, 0, 99))
  {
    var v := Clamp(scaled, 0, 99);
    [(v / 10 + '0' as int) as char, (v % 10 + '0' as int) as char]
  }

  // ---- joined lists ----

  /** The entries with `sep` between consecutive ones and none trailing. */
  function Join(parts: seq<string>, sep: char): string
  {
    if |parts| == 0 then ""
    else if |parts| == 1 then parts[0]
    else parts[0] + [sep] + Join(parts[1..], sep)
  }

  /** The position of the first `sep` in s, |s| if there is none. */
  function FirstIndex(s: string, sep: char): (k: nat)
    ensures k <= |s| && sep !in s[..k]
    ensures k < |s| ==> s[k] == sep
  {
    if |s| == 0 then 0
    else if s[0] == sep then 0
    else 1 + FirstIndex(s[1..], sep)
  }

  /** Splitting at every `sep`: what a reader of the joined list recovers. */
  function Split(s: string, sep: char): (parts: seq<string>)
    ensures |parts| >= 1
    decreases |s|
  {
    var k := FirstIndex(s, sep);
    if k == |s| then [s] else [s[..k]] + Split(s[k + 1..], sep)
  }

  lemma FirstIndexOfJoin(p: string, sep: char, t: string)
    requires sep !in p
    ensures FirstIndex(p + [sep] + t, sep) == |p|
    ensures FirstIndex(p, sep) == |p|
  {
    if |p| > 0 {
      assert (p + [sep] + t)[1..] == p[1..] + [sep] + t;
      FirstIndexOfJoin(p[1..], sep, t);
    }
  }

  /** A list joined from entries free of the separator splits back into
      exactly those entries. */
  lemma {:induction false} SplitJoin(parts: seq<string>, sep: char)
    requires |parts| >= 1
    requires forall i :: 0 <= i < |parts| ==> sep !in parts[i]
    ensures Split(Join(parts, sep), sep) == parts
  {
    FirstIndexOfJoin(parts[0], sep, []);
    if |parts| > 1 {
      var rest := Join(parts[1..], sep);
      var s := parts[0] + [sep] + rest;
      FirstIndexOfJoin(parts[0], sep, rest);
      assert s[..|parts[0]|] == parts[0];
      assert s[|parts[0]| + 1..] == rest;
      SplitJoin(parts[1..], sep);
      assert parts == [parts[0]] + parts[1..];
    }
  }

  /** The joined list's length: every entry plus one separator between each
      two. */
  lemma {:induction false} JoinLength(parts: seq<string>, sep: char, total: nat)
    requires |parts| >= 1
    requires total == SumLengths(parts)
    ensures |Join(parts, sep)| == total + |parts| - 1
  {
    if |parts| > 1 {
      JoinLength(parts[1..], sep, SumLengths(parts[1..]));
    }
  }

  function SumLengths(parts: seq<string>): nat
  {
    if |parts| == 0 then 0 else |parts[0]| + SumLengths(parts[1..])
  }

  /** The entries GetChCo joins: the table cycled through `count` times. */
  function Cycled(count: nat, table: seq<string>): (r: seq<string>)
    requires |table| > 0
    ensures |r| == count
    ensures forall i :: 0 <= i < count ==> r[i] == table[i % |table|]
  {
    seq(count, i requires 0 <= i => table[i % |table|])
  }

  lemma {:induction false} JoinSnoc(parts: seq<string>, p: string, sep: char)
    requires |parts| >= 1
    ensures Join(parts + [p], sep) == Join(parts, sep) + [sep] + p
  {
    var q := parts + [p];
    assert q[0] == parts[0];
    if |parts| == 1 {
      assert q[1..] == [p];
    } else {
      var rest := parts[1..];
      assert q[1..] == rest + [p];
      JoinSnoc(rest, p, sep);
      var head, tail := parts[0] + [sep], Join(rest, sep);
      assert Join(q, sep) == head + (tail + [sep] + p);
      assert Join(parts, sep) == head + tail;
    }
  }

  /** One more entry of the cycled table: the next colour, after a
      separator unless it is the first. */
  lemma JoinStep(i: nat, table: seq<string>, sep: char)
    requires |table| > 0
    ensures Join(Cycled(i + 1, table), sep) ==
      (if i == 0 then table[0] else Join(Cycled(i, table), sep) + [sep] + table[i % |table|])
  {
    assert Cycled(i + 1, table) == Cycled(i, table) + [table[i % |table|]];
    if i > 0 {
      JoinSnoc(Cycled(i, table), table[i % |table|], sep);
    } else {
      assert Cycled(1, table) == [table[0]];
    }
  }

  /** GetChCo(count, colors, colors_count, seperator): the colour table
      cycled to `count` entries and joined by the separator; a count of 0 or
      less gives the empty string. */
  method GetChCo(count: int, colors: seq<string>, sep: char) returns (ret: string)
    requires |colors| > 0
    ensures ret == Join(Cycled(if count < 0 then 0 else count, colors), sep)
  {
    ret := "";
    if count <= 0 {
      return;
    }
    var i := 0;
    while i < count
      invariant 0 <= i <= count
      invariant ret == if i == 0 then "" else Join(Cycled(i, colors), sep) + (if i < count then [sep] else [])
    {
      JoinStep(i, colors, sep);
      ret := ret + colors[i % |colors|];
      if i != count - 1 {
        ret := ret + [sep];
      }
      i := i + 1;
    }
  }

  /** s_chls: the line styles. */
  const Chls: seq<string> := ["1,8,0", "1,4,1", "1,2,3", "1,4,2", "1,3,3", "1,2,3", "1,4,1", "1,2,3"]

  /** GetChls(count): the line-style table cycled to `count` entries and
      joined by '|'. */
  method GetChls(count: int) returns (ret: string)
    ensures ret == Join(Cycled(if count < 0 then 0 else count, Chls), '|')
  {
    ret := GetChCo(count, Chls, '|');
  }

  /** s_colors: the default series colours. */
  const Colors: seq<string> := ["008a00", "3072F3", "ff0000", "00aaaa", "aaaa00", "aa00aa", "f6D900", "800000", "f080f0"]

  /** A positive count of entries from a table free of the separator splits
      back into the cycled table. */
  lemma CycledSplit(count: nat, table: seq<string>, sep: char)
    requires count >= 1 && |table| > 0
    requires forall k :: 0 <= k < |table| ==> sep !in table[k]
    ensures Split(Join(Cycled(count, table), sep), sep) == Cycled(count, table)
  {
    var parts := Cycled(count, table);
    forall i | 0 <= i < |parts|
      ensures sep !in parts[i]
    {
      assert parts[i] == table[i % |table|];
    }
    SplitJoin(parts, sep);
  }

  /** The default colours hold no ',' and the line styles no '|', so the
      default "chco" list and the "chls" list split back into their entries. */
  lemma DefaultListsSplit(count: nat)
    requires count >= 1
    ensures Split(Join(Cycled(count, Colors), ','), ',') == Cycled(count, Colors)
    ensures Split(Join(Cycled(count, Chls), '|'), '|') == Cycled(count, Chls)
  {
    CycledSplit(count, Colors, ',');
    CycledSplit(count, Chls, '|');
  }

  /** StringFV_E: the extended encodings of every value, concatenated. */
  method StringFVE(values: seq<int>) returns (ret: string)
    ensures |ret| == 2 * |values|
    ensures forall i :: 0 <= i < |values| ==>
      ExtendedDecode(ret[2 * i..2 * i + 2]) == Some(Clamp(values[i], 0, ExtendedEncodeMax))
  {
    ret := "";
    var i := 0;
    while i < |values|
      invariant 0 <= i <= |values| && |ret| == 2 * i
      invariant forall k :: 0 <= k < i ==> ret[2 * k..2 * k + 2] == ExtendedEncode(values[k])
    {
      var e := ExtendedEncode(values[i]);
      forall k | 0 <= k < i
        ensures (ret + e)[2 * k..2 * k + 2] == ret[2 * k..2 * k + 2]
      {
      }
      assert (ret + e)[2 * i..2 * i + 2] == e;
      ret := ret + e;
      i := i + 1;
    }
  }

  /** StringFV_T: the text encodings of every value, joined by ','. */
  method StringFVT(values: seq<int>) returns (ret: string)
    ensures |values| > 0 ==> |ret| == 3 * |values| - 1
    ensures forall i :: 0 <= i < |values| ==>
      TextDecode(ret[3 * i..3 * i + 2]) == Some(Clamp(values[i], 0, 99))
    ensures forall i :: 0 <= i < |values| - 1 ==> ret[3 * i + 2] == ','
  {
    ret := "";
    var i := 0;
    while i < |values|
      invariant 0 <= i <= |values| && |ret| == (if i == 0 then 0 else 3 * i - 1)
      invariant forall k :: 0 <= k < i ==> ret[3 * k..3 * k + 2] == TextEncode(values[k])
      invariant forall k :: 0 <= k < i - 1 ==> ret[3 * k + 2] == ','
    {
      var e := TextEncode(values[i]);
      var sep := if i > 0 then "," else "";
      forall k | 0 <= k < i
        ensures (ret + sep + e)[3 * k..3 * k + 2] == ret[3 * k..3 * k + 2]
      {
      }
      assert (ret + sep + e)[3 * i..3 * i + 2] == e;
      ret := ret + sep + e;
      i := i + 1;
    }
  }

  // ---- LimitChartSeries ----

  /** FLT_MAX, the starting best distance. */
  const FltMax: real := 340282346638528859811704183484516925440.0

  function MaxR(a: real, b: real): real { if a < b then b else a }
  function MinR(a: real, b: real): real { if a < b then a else b }

  /** Whether interior point i may go: it lies on a flat run, or strictly
      between its neighbours (so it is not an extremum). */
  predicate Removable(x: seq<real>, y: seq<real>, yratio: real, i: int)
    requires |x| == |y| && 1 <= i < |x| - 1
  {
    var pY, cY, nY := y[i - 1] * yratio, y[i] * yratio, y[i + 1] * yratio;
    (cY == pY && cY == nY) || (!(cY >= MaxR(pY, nY)) && !(cY <= MinR(pY, nY)))
  }

  /** The larger squared distance from point i to its two neighbours. */
  function Cost(x: seq<real>, y: seq<real>, yratio: real, i: int): real
    requires |x| == |y| && 1 <= i < |x| - 1
  {
    var pX, cX, nX := x[i - 1], x[i], x[i + 1];
    var pY, cY, nY := y[i - 1] * yratio, y[i] * yratio, y[i + 1] * yratio;
    var pD := (cX - pX) * (cX - pX) + (cY - pY) * (cY - pY);
    var nD := (cX - nX) * (cX - nX) + (cY - nY) * (cY - nY);
    MaxR(pD, nD)
  }

  /** A point the scan would pick: removable and cheaper than FLT_MAX. */
  predicate Candidate(x: seq<real>, y: seq<real>, yratio: real, i: int)
    requires |x| == |y|
  {
    1 <= i < |x| - 1 && Removable(x, y, yratio, i) && Cost(x, y, yratio, i) < FltMax
  }

  /** No point is a candidate: LimitChartSeries gives up. */
  predicate NoCandidate(x: seq<real>, y: seq<real>, yratio: real)
    requires |x| == |y|
  {
    forall j :: 0 <= j < |x| ==> !Candidate(x, y, yratio, j)
  }

  /** The inner scan of LimitChartSeries: the first candidate of least cost,
      or -1 when there is none. */
  method FindBest(x: seq<real>, y: seq<real>, yratio: real) returns (bestI: int)
    requires |x| == |y|
    ensures bestI == -1 <==> NoCandidate(x, y, yratio)
    ensures bestI != -1 ==> 0 < bestI < |x| - 1 && Candidate(x, y, yratio, bestI)
    ensures bestI != -1 ==> forall j :: 0 <= j < |x| && Candidate(x, y, yratio, j) ==>
      Cost(x, y, yratio, bestI) <= Cost(x, y, yratio, j) &&
      (j < bestI ==> Cost(x, y, yratio, bestI) < Cost(x, y, yratio, j))
  {
    bestI := -1;
    var bestDsqr := FltMax;
    var i := 1;
    while i < |x| - 1
      invariant 1 <= i && (|x| >= 2 ==> i <= |x| - 1)
      invariant bestI == -1 ==> bestDsqr == FltMax
      invariant bestI != -1 ==> bestDsqr < FltMax
      invariant bestI == -1 <==> forall j :: 0 <= j < i ==> !Candidate(x, y, yratio, j)
      invariant bestI != -1 ==> 1 <= bestI < i && Candidate(x, y, yratio, bestI) && bestDsqr == Cost(x, y, yratio, bestI)
      invariant bestI != -1 ==> forall j :: 0 <= j < i && Candidate(x, y, yratio, j) ==>
        bestDsqr <= Cost(x, y, yratio, j) && (j < bestI ==> bestDsqr < Cost(x, y, yratio, j))
    {
      assert Candidate(x, y, yratio, i) <==> Removable(x, y, yratio, i) && Cost(x, y, yratio, i) < FltMax;
      if Removable(x, y, yratio, i) {
        var dsqr := Cost(x, y, yratio, i);
        if dsqr < bestDsqr {
          bestDsqr := dsqr;
          bestI := i;
        }
      }
      i := i + 1;
    }
  }

  /** The pairs of `small` are those of `big` at the increasing positions
      `kept`. */
  ghost predicate KeptAt(big: seq<real>, small: seq<real>, kept: seq<nat>)
  {
    |kept| == |small| &&
    (forall k :: 0 <= k < |kept| ==> kept[k] < |big| && small[k] == big[kept[k]]) &&
    (forall k, l :: 0 <= k < l < |kept| ==> kept[k] < kept[l])
  }

  /** Dropping one pair from the survivors drops its position from `kept`. */
  lemma KeptRemove(big: seq<real>, small: seq<real>, kept: seq<nat>, b: nat)
    requires KeptAt(big, small, kept) && b < |small|
    ensures KeptAt(big, small[..b] + small[b + 1..], kept[..b] + kept[b + 1..])
  {
    var s2, k2 := small[..b] + small[b + 1..], kept[..b] + kept[b + 1..];
    forall k | 0 <= k < |k2|
      ensures k2[k] < |big| && s2[k] == big[k2[k]]
    {
      if k < b {
        assert k2[k] == kept[k] && s2[k] == small[k];
      } else {
        assert k2[k] == kept[k + 1] && s2[k] == small[k + 1];
      }
    }
    forall k, l | 0 <= k < l < |k2|
      ensures k2[k] < k2[l]
    {
      var k', l' := if k < b then k else k + 1, if l < b then l else l + 1;
      assert k2[k] == kept[k'] && k2[l] == kept[l'];
    }
  }

  /** PlotSeries: the x and y vectors a chart series holds. */
  class PlotSeries {
    var x: seq<real>
    var y: seq<real>

    constructor (x: seq<real>, y: seq<real>)
      ensures this.x == x && this.y == y
    {
      this.x, this.y := x, y;
    }

    /** The survivors of LimitChartSeries: pairs at increasing original
        positions, the first and last point among them. */
    ghost predicate Survivors(x: seq<real>, y: seq<real>, xs: seq<real>, ys: seq<real>, kept: seq<nat>)
    {
      |xs| == |ys| && KeptAt(x, xs, kept) && KeptAt(y, ys, kept) &&
      (|x| >= 2 ==> |xs| >= 2 && kept[0] == 0 && kept[|kept| - 1] == |x| - 1)
    }

    /** 0, 1, ..., n - 1. */
    function Positions(n: nat): (r: seq<nat>)
      ensures |r| == n && forall k :: 0 <= k < n ==> r[k] == k
    {
      seq(n, k requires 0 <= k => k)
    }

    /** Before any removal every pair survives. */
    lemma AllSurvive(x: seq<real>, y: seq<real>)
      requires |x| == |y|
      ensures Survivors(x, y, x, y, Positions(|x|))
    {
    }

    /** Removing an inner pair keeps the survivors' shape. */
    lemma DropSurvivor(x: seq<real>, y: seq<real>, xs: seq<real>, ys: seq<real>, kept: seq<nat>, b: nat)
      requires Survivors(x, y, xs, ys, kept) && 0 < b < |xs| - 1
      ensures Survivors(x, y, xs[..b] + xs[b + 1..], ys[..b] + ys[b + 1..], kept[..b] + kept[b + 1..])
    {
      KeptRemove(x, xs, kept, b);
      KeptRemove(y, ys, kept, b);
      var k2 := kept[..b] + kept[b + 1..];
      assert k2[|k2| - 1] == kept[|kept| - 1];
    }

    /** LimitChartSeries(pS, numPoints, yratio): removes the cheapest
        candidate point from both vectors until at most numPoints remain or
        no candidate does.  The first and last points are never removed and
        the surviving points keep their order.  The size is compared as a
        size_t, so a negative numPoints becomes a bound near 2^64 and
        nothing is removed. */
    method LimitChartSeries(numPoints: int, yratio: real) returns (ghost kept: seq<nat>)
      requires |x| == |y| && CLib.IsInt32(numPoints)
      modifies this
      ensures Survivors(old(x), old(y), x, y, kept) && |x| <= old(|x|)
      ensures |x| <= CLib.SizeT(numPoints) || NoCandidate(x, y, yratio)
      ensures old(|x|) <= CLib.SizeT(numPoints) ==> x == old(x) && y == old(y)
      ensures numPoints < 0 && old(|x|) <= CLib.Int64Max ==> x == old(x) && y == old(y)
    {
      var limit := CLib.SizeT(numPoints);
      var xs, ys := x, y;
      kept := Positions(|xs|);
      AllSurvive(x, y);
      while |xs| > limit
        invariant x == old(x) && y == old(y)
        invariant Survivors(x, y, xs, ys, kept) && |xs| <= |x|
        invariant |x| <= limit ==> xs == x && ys == y
        decreases |xs|
      {
        var bestI := FindBest(xs, ys, yratio);
        if bestI == -1 {
          break;
        }
        DropSurvivor(x, y, xs, ys, kept, bestI);
        xs := xs[..bestI] + xs[bestI + 1..];
        ys := ys[..bestI] + ys[bestI + 1..];
        kept := kept[..bestI] + kept[bestI + 1..];
      }
      x, y := xs, ys;
    }
  }
}
