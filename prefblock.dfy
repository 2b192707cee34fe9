/**
  The text form of cblib's preference blocks.  Every entry is one line,
  the entry's name, a ':' and the text of its value, then a newline; the
  text of a value comes from the WriteToText specialisation of its type,
  and a compound value (a struct with a PrefIO) is a nested block in
  braces.  The writer appends to one growing String.  The reader is handed
  the table from entry name to payload text that PrefBlock_Reader::Read
  builds (that parser is not part of this model), keyed by the Token of
  the name, and reads a value back with the matching ReadFromText; a name
  that is absent leaves the value as it was.
*/
module PrefBlock {
  import opened Wrappers
  import opened CLib
  import StrUtil
  import opened StrUtilH

  /** The value kinds with a text form.  `bits` is the width of the C type:
      int and long are 32 bits and short 16; ulong, uword and ubyte are 32,
      16 and 8.  A compound value is a struct whose PrefIO names its
      members in order. */
  datatype Value =
    | Char(c: char)
    | Int(i: int, bits: nat)
    | UInt(u: nat, bits: nat)
    | Bool(b: bool)
    | Str(s: seq<char>)
    | Compound(fields: seq<Field>)

  datatype Field = Field(name: seq<char>, value: Value)

  /** A payload the reader hands out is the content of a C string. */
  type Payload = s: seq<char> | NulFree(s)

  /** What PrefBlock_Reader::Read makes of a block's text: the entry's
      name key (see NameKey) to its payload. */
  type Table = map<seq<char>, Payload>

  /** The reader finds an entry by the Token of its name, and two Tokens
      are equal when their hashes are: FNVHashStrInsensitive hashes each
      character through tokenchar.  The key of a name is that folded
      text, so names that differ only in case or slash direction find the
      same entry. */
  function NameKey(name: seq<char>): (k: seq<char>)
    ensures |k| == |name|
  {
    seq(|name|, i requires 0 <= i < |name| => TokenChar(name[i]))
  }

  // ---- integer widths ----

  function Modulus(bits: nat): (m: nat)
    ensures m >= 0x100
  {
    if bits == 8 then 0x100 else if bits == 16 then 0x1_0000 else 0x1_0000_0000
  }

  /** The cast `(T) x` to a signed type of the given width. */
  function ToSigned(x: int, bits: nat): (r: int)
    ensures -(Half(bits) as int) <= r < Half(bits) && r % Modulus(bits) == x % Modulus(bits)
    ensures -(Half(bits) as int) <= x < Half(bits) ==> r == x
  {
    var M := Modulus(bits);
    var m := x % M;
    if m >= Half(bits) then
      ModShift(m, M);
      m - M
    else m
  }

  /** Half the modulus: the first value a signed type cannot hold. */
  function Half(bits: nat): (h: nat)
    ensures Modulus(bits) == 2 * h
  {
    Modulus(bits) / 2
  }

  lemma ModShift(m: int, M: int)
    requires 0 < M && 0 <= m < M
    ensures (m - M) % M == m
  {
  }

  // ---- WriteToText ----

  /** The text WriteToText appends for a value: the char itself, "%d",
      "%ul" (the digits and then a literal 'l'), "yes"/"no", the string in
      double quotes, or a braced block holding the members' lines. */
  function WriteText(v: Value): seq<char>
    decreases v, 1
  {
    match v
    case Char(c) => [c]
    case Int(i, _) => Decimal(i)
    case UInt(u, _) => Digits(u) + ['l']
    case Bool(b) => if b then "yes" else "no"
    case Str(s) => ['"'] + s + ['"']
    case Compound(fs) => "{\n" + BlockText(fs) + "}"
  }

  /** The line PrefBlock_Writer::IO appends for one entry. */
  function FieldText(name: seq<char>, v: Value): seq<char>
    decreases v, 2
  {
    name + [':'] + WriteText(v) + ['\n']
  }

  /** The lines of a block, one per member, in order. */
  function BlockText(fs: seq<Field>): seq<char>
    decreases fs, 0
  {
    if fs == [] then [] else BlockText(fs[..|fs| - 1]) + FieldText(fs[|fs| - 1].name, fs[|fs| - 1].value)
  }

  /** The items of a vector as PrefBlock_Writer::IOV writes them: each one
      preceded by a comma. */
  function ItemsText(vs: seq<Value>): seq<char>
  {
    if vs == [] then [] else ItemsText(vs[..|vs| - 1]) + [','] + WriteText(vs[|vs| - 1])
  }

  /** The line PrefBlock_Writer::IOV appends: the count, then the items. */
  function VectorText(name: seq<char>, vs: seq<Value>): seq<char>
  {
    name + [':'] + Decimal(|vs|) + ItemsText(vs) + ['\n']
  }

  // ---- ReadFromText ----

  /** Prefs_ReadBool: a case-insensitive "yes", "true" or "on" prefix reads
      true, then "no", "false" or "off" reads false, and anything else is a
      number that is true when it is not zero. */
  function ReadBool(text: seq<char>): bool
  {
    if StrUtil.IPrefix("yes", text) || StrUtil.IPrefix("true", text) || StrUtil.IPrefix("on", text) then true
    else if StrUtil.IPrefix("no", text) || StrUtil.IPrefix("false", text) || StrUtil.IPrefix("off", text) then false
    else Atoi(text) != 0
  }

  /** Prefs_ReadString: a leading double quote is dropped and the text runs
      up to the last double quote (or to the end when there is none);
      unquoted text is taken whole. */
  function ReadString(text: Payload): (s: seq<char>)
    ensures NulFree(s)
  {
    if |text| > 0 && text[0] == '"' then
      var rest := text[1..];
      rest[..Strrchrorend(rest, '"')]
    else text
  }

  /** strtoul(text, NULL, 10): white space, an optional sign and the digits;
      a negative number wraps to unsigned, and a magnitude beyond ULONG_MAX
      gives ULONG_MAX. */
  function Strtoul(text: seq<char>): (r: nat)
    ensures r < TwoTo32
  {
    var i := SpanSpace(text, 0);
    var neg := i < |text| && text[i] == '-';
    var j := if i < |text| && (text[i] == '-' || text[i] == '+') then i + 1 else i;
    var k := SpanDigits(text, j);
    var m := DigitsValue(text[j..k]);
    if m >= TwoTo32 then TwoTo32 - 1 else if neg then (TwoTo32 - m) % TwoTo32 else m
  }

  /** Two values of the same C type: the same kind and width, and for
      compound values the same member names with members of the same type. */
  predicate SameKind(a: Value, b: Value)
    decreases a
  {
    match a
    case Char(_) => b.Char?
    case Int(_, bits) => b.Int? && b.bits == bits
    case UInt(_, bits) => b.UInt? && b.bits == bits
    case Bool(_) => b.Bool?
    case Str(_) => b.Str?
    case Compound(fs) =>
      b.Compound? && |b.fields| == |fs|
      && forall i :: 0 <= i < |fs| ==> b.fields[i].name == fs[i].name && SameKind(fs[i].value, b.fields[i].value)
  }

  lemma {:induction false} SameKindRefl(v: Value)
    ensures SameKind(v, v)
  {
    match v
    case Compound(fs) =>
      forall i | 0 <= i < |fs| ensures SameKind(fs[i].value, fs[i].value) {
        SameKindRefl(fs[i].value);
      }
    case _ =>
  }

  /** ReadFromText for a value whose current contents are `like`: the
      scalar kinds parse the payload (a char is its first character, NUL
      for an empty payload); a compound value has the payload parsed into a
      table by `parse` and reads each of its members from it.  Reading
      never changes the type of the value. */
  function ReadText(like: Value, text: Payload, parse: seq<char> -> Table): (r: Value)
    ensures SameKind(like, r)
    decreases like, 1
  {
    match like
    case Char(_) => Char(if |text| > 0 then text[0] else Nul)
    case Int(_, bits) => Int(ToSigned(Atoi(text), bits), bits)
    case UInt(_, bits) => UInt(Strtoul(text) % Modulus(bits), bits)
    case Bool(_) => Bool(ReadBool(text))
    case Str(_) => Str(ReadString(text))
    case Compound(fs) => Compound(ReadFields(fs, parse(text), parse))
  }

  /** PrefBlock_Reader::IO on one entry of a table: an absent name leaves
      the value as it was. */
  function ReadEntry(name: seq<char>, like: Value, t: Table, parse: seq<char> -> Table): (r: Value)
    ensures SameKind(like, r)
    ensures NameKey(name) !in t ==> r == like
    decreases like, 2
  {
    var key := NameKey(name);
    if key in t then ReadText(like, t[key], parse) else SameKindRefl(like); like
  }

  /** A compound's PrefIO reading each member from the table in turn. */
  function ReadFields(fs: seq<Field>, t: Table, parse: seq<char> -> Table): (r: seq<Field>)
    ensures |r| == |fs|
    ensures forall i :: 0 <= i < |fs| ==> r[i].name == fs[i].name && SameKind(fs[i].value, r[i].value)
    decreases fs, 0
  {
    if fs == [] then []
    else
      var f := fs[|fs| - 1];
      ReadFields(fs[..|fs| - 1], t, parse) + [Field(f.name, ReadEntry(f.name, f.value, t, parse))]
  }

  /** TokToComma: the token ends at the first comma, which is cut, and the
      rest follows it; without a comma the token is the whole text and
      there is no rest (NULL). */
  function CutComma(s: Payload): (r: (Payload, Option<Payload>))
    ensures r.1.None? ==> r.0 == s && ',' !in s
    ensures r.1.Some? ==> |r.0| + 1 + |r.1.value| == |s| && s[|r.0|] == ',' && ',' !in r.0
  {
    match StrChr(s, ',')
    case None => (s, None)
    case Some(k) =>
      assert k < |s| && s[k] == ',';
      assert s == s[..k] + [','] + s[k + 1..];
      (s[..k], Some(s[k + 1..]))
  }

  /** With a comma, the token, the comma and the rest make up the text. */
  lemma CutCommaSplits(s: Payload)
    ensures CutComma(s).1.Some? ==> s == CutComma(s).0 + [','] + CutComma(s).1.value
  {
    match StrChr(s, ',')
    case None =>
    case Some(k) =>
      assert s == s[..k] + [','] + s[k + 1..];
  }

  /** ReadFromText into a fresh element of the vector, as a function of
      the item's token. */
  function ItemReader(dflt: Value, parse: seq<char> -> Table): Payload -> Value
  {
    (t: Payload) => ReadText(dflt, t, parse)
  }

  /** The items loop of PrefBlock_Reader::IOV: `k` more items, each the
      token up to the next comma, read by `read`.  Running out of tokens
      while items remain passes NULL on, which has no value. */
  function ReadItems(next: Option<Payload>, k: nat, read: Payload -> Value): (r: Option<seq<Value>>)
    ensures r.Some? ==> |r.value| == k
    decreases k
  {
    if k == 0 then Some([])
    else if next.None? then None
    else
      var (tok, rest) := CutComma(next.value);
      var tail := ReadItems(rest, k - 1, read);
      if tail.None? then None else Some([read(tok)] + tail.value)
  }

  /** PrefBlock_Reader::IOV on a payload: the count is the first token read
      as an int; a negative count is no size the vector can take. */
  function ReadVectorText(text: Payload, dflt: Value, parse: seq<char> -> Table): (r: Option<seq<Value>>)
    ensures r.Some? ==> |r.value| == ToSigned(Atoi(CutComma(text).0), 32)
  {
    var (tok, next) := CutComma(text);
    var count := ToSigned(Atoi(tok), 32);
    if count < 0 then None else ReadItems(next, count, ItemReader(dflt, parse))
  }

  /** PrefBlock_Reader::IOV on a table: an absent name leaves the vector cleared. */
  function ReadVector(name: seq<char>, dflt: Value, t: Table, parse: seq<char> -> Table): (r: Option<seq<Value>>)
    ensures NameKey(name) !in t ==> r == Some([])
  {
    var key := NameKey(name);
    if key in t then ReadVectorText(t[key], dflt, parse) else Some([])
  }

  /** Two C-string names find the same entry exactly when strtcmp finds
      them equal: the Token of a name is its text through tokenchar. */
  lemma NameKeyIsStrtsame(a: seq<char>, b: seq<char>)
    requires NulFree(a) && NulFree(b)
    ensures NameKey(a) == NameKey(b) <==> Strtsame(a, b)
  {
    if Strtsame(a, b) {
      assert forall i :: 0 <= i < |a| ==> NameKey(a)[i] == NameKey(b)[i];
    }
    if NameKey(a) == NameKey(b) {
      assert forall i :: 0 <= i < |a| ==> TokenChar(a[i]) == NameKey(a)[i] == NameKey(b)[i] == TokenChar(b[i]);
    }
  }

  /** A token character does not depend on case. */
  lemma TokenCharOfLower(c: char)
    ensures TokenChar(c) == TokenChar(ToLower(c))
  {
    if IsUpper(c) {
      var l := ToLower(c);
      assert l as int < 256 && l as int / 0x20 % 2 == 1;
    }
  }

  /** Names that differ only in case find the same entry, and an entry is
      read, as a value or a vector, the same under either spelling. */
  lemma {:induction false} ReadIgnoresCase(a: seq<char>, b: seq<char>, like: Value, t: Table, parse: seq<char> -> Table)
    requires |a| == |b|
    requires forall i :: 0 <= i < |a| ==> ToLower(a[i]) == ToLower(b[i])
    ensures NameKey(a) == NameKey(b)
    ensures ReadEntry(a, like, t, parse) == ReadEntry(b, like, t, parse)
    ensures ReadVector(a, like, t, parse) == ReadVector(b, like, t, parse)
  {
    forall i | 0 <= i < |a|
      ensures NameKey(a)[i] == NameKey(b)[i]
    {
      TokenCharOfLower(a[i]);
      TokenCharOfLower(b[i]);
    }
  }

  // ---- read after write ----

  /** A value whose text is a C string that reads back as the value: a char
      other than NUL, an integer in range of its type, a string without NUL,
      and a compound whose member names are C strings, whose members read
      back, and whose text `parse` turns into the table of its members. */
  predicate ReadsBack(v: Value, parse: seq<char> -> Table)
    decreases v
  {
    match v
    case Char(c) => c != Nul
    case Int(i, bits) => -(Half(bits) as int) <= i < Half(bits)
    case UInt(u, bits) => u < Modulus(bits)
    case Bool(_) => true
    case Str(s) => NulFree(s)
    case Compound(fs) =>
      (forall i :: 0 <= i < |fs| ==> NulFree(fs[i].name) && ReadsBack(fs[i].value, parse))
      && forall i :: 0 <= i < |fs| ==>
           var t := parse(WriteText(v));
           NameKey(fs[i].name) in t && t[NameKey(fs[i].name)] == WriteText(fs[i].value)
  }

  lemma NulFreeConcat(a: seq<char>, b: seq<char>)
    requires NulFree(a) && NulFree(b)
    ensures NulFree(a + b)
  {
    assert forall i :: 0 <= i < |a + b| ==> (a + b)[i] == if i < |a| then a[i] else b[i - |a|];
  }

  lemma {:induction false} BlockTextNulFree(fs: seq<Field>)
    requires forall i :: 0 <= i < |fs| ==> NulFree(fs[i].name) && NulFree(WriteText(fs[i].value))
    ensures NulFree(BlockText(fs))
  {
    if fs != [] {
      var f := fs[|fs| - 1];
      BlockTextNulFree(fs[..|fs| - 1]);
      NulFreeConcat(f.name, [':']);
      NulFreeConcat(f.name + [':'], WriteText(f.value));
      NulFreeConcat(f.name + [':'] + WriteText(f.value), ['\n']);
      NulFreeConcat(BlockText(fs[..|fs| - 1]), FieldText(f.name, f.value));
    }
  }

  /** strtoul reads back what "%ul" prints: the digits end at the 'l'. */
  lemma StrtoulDigits(u: nat)
    requires u < TwoTo32
    ensures Strtoul(Digits(u) + ['l']) == u
  {
    var d := Digits(u);
    var s := d + ['l'];
    assert SpanSpace(s, 0) == 0 && s[0] != '-' && s[0] != '+' by {
      assert s[0] == d[0] && IsDigit(d[0]);
    }
    assert SpanDigits(s, 0) == |d| by {
      assert !IsDigit(s[|d|]);
      assert forall q :: 0 <= q < |d| ==> s[q] == d[q];
    }
    assert DigitsValue(s[0..|d|]) == u by {
      assert s[0..|d|] == d;
      DigitsValueOfDigits(u);
    }
  }

  /** Prefs_ReadBool reads back what the bool writer prints. */
  lemma ReadBoolWritten(b: bool)
    ensures ReadBool(if b then "yes" else "no") == b
  {
    if !b {
      assert !StrUtil.IPrefix("on", "no") by { assert ToUpper("no"[0]) != ToUpper("on"[0]); }
      assert StrUtil.IPrefix("no", "no");
    } else {
      assert StrUtil.IPrefix("yes", "yes");
    }
  }

  /** Prefs_ReadString reads back what the String writer prints, even when
      the string holds double quotes: the last one is the closing quote. */
  lemma ReadStringWritten(s: seq<char>)
    requires NulFree(s)
    ensures NulFree(['"'] + s + ['"'])
    ensures ReadString(['"'] + s + ['"']) == s
  {
    NulFreeConcat(['"'], s);
    NulFreeConcat(['"'] + s, ['"']);
    var text := ['"'] + s + ['"'];
    assert text[1..] == s + ['"'];
    assert Strrchrorend(s + ['"'], '"') == |s|;
  }

  /** An integer in range of its type comes back through "%d" and atoi and the cast. */
  lemma ReadIntWritten(i: int, bits: nat)
    requires -(Half(bits) as int) <= i < Half(bits)
    ensures ToSigned(Atoi(Decimal(i)), bits) == i
  {
    AtoiDecimal(i);
  }

  /** Read after write: a value that reads back, written with WriteToText
      and read with ReadFromText into any variable of the same type, is the
      value again. */
  lemma {:induction false} ReadWriteRoundTrip(like: Value, v: Value, parse: seq<char> -> Table)
    requires ReadsBack(v, parse) && SameKind(like, v)
    ensures NulFree(WriteText(v)) && ReadText(like, WriteText(v), parse) == v
    decreases v, 2
  {
    if v.Compound? {
      CompoundRoundTrip(like, v.fields, parse);
    } else {
      ScalarRoundTrip(like, v, parse);
    }
  }

  /** Read after write for each scalar kind. */
  lemma ScalarRoundTrip(like: Value, v: Value, parse: seq<char> -> Table)
    requires !v.Compound? && ReadsBack(v, parse) && SameKind(like, v)
    ensures NulFree(WriteText(v)) && ReadText(like, WriteText(v), parse) == v
  {
    match v
    case Char(c) =>
      assert like.Char?;
    case Int(i, bits) =>
      assert like.Int? && like.bits == bits;
      IntRoundTrip(like, i, bits, parse);
    case UInt(u, bits) =>
      assert like.UInt? && like.bits == bits;
      UIntRoundTrip(like, u, bits, parse);
    case Bool(b) =>
      assert like.Bool?;
      BoolRoundTrip(like, b, parse);
    case Str(s) =>
      assert like.Str?;
      StrRoundTrip(like, s, parse);
  }

  lemma IntRoundTrip(like: Value, i: int, bits: nat, parse: seq<char> -> Table)
    requires like.Int? && like.bits == bits && -(Half(bits) as int) <= i < Half(bits)
    ensures WriteText(Int(i, bits)) == Decimal(i) && ReadText(like, Decimal(i), parse) == Int(i, bits)
  {
    AtoiDecimal(i);
  }

  lemma UIntRoundTrip(like: Value, u: nat, bits: nat, parse: seq<char> -> Table)
    requires like.UInt? && like.bits == bits && u < Modulus(bits)
    ensures WriteText(UInt(u, bits)) == Digits(u) + ['l'] && NulFree(Digits(u) + ['l'])
    ensures ReadText(like, Digits(u) + ['l'], parse) == UInt(u, bits)
  {
    var text := Digits(u) + ['l'];
    NulFreeConcat(Digits(u), ['l']);
    assert Strtoul(text) % Modulus(bits) == u by {
      StrtoulDigits(u);
      ModSmall(u, Modulus(bits));
    }
  }

  lemma ModSmall(u: nat, m: nat)
    requires u < m
    ensures u % m == u
  {
  }

  lemma BoolRoundTrip(like: Value, b: bool, parse: seq<char> -> Table)
    requires like.Bool?
    ensures WriteText(Bool(b)) == (if b then "yes" else "no")
    ensures ReadText(like, if b then "yes" else "no", parse) == Bool(b)
  {
    ReadBoolWritten(b);
  }

  lemma StrRoundTrip(like: Value, s: seq<char>, parse: seq<char> -> Table)
    requires like.Str? && NulFree(s)
    ensures WriteText(Str(s)) == ['"'] + s + ['"'] && NulFree(['"'] + s + ['"'])
    ensures ReadText(like, ['"'] + s + ['"'], parse) == Str(s)
  {
    ReadStringWritten(s);
  }

  /** Read after write for a compound: its members come back from the
      table `parse` makes of its block. */
  lemma {:induction false} CompoundRoundTrip(like: Value, fs: seq<Field>, parse: seq<char> -> Table)
    requires ReadsBack(Compound(fs), parse) && SameKind(like, Compound(fs))
    ensures NulFree(WriteText(Compound(fs))) && ReadText(like, WriteText(Compound(fs)), parse) == Compound(fs)
    decreases Compound(fs), 1
  {
    var text := WriteText(Compound(fs));
    assert text == "{\n" + BlockText(fs) + "}";
    var t := parse(text);
    ReadFieldsBack(like.fields, fs, t, parse);
    BlockTextNulFree(fs);
    NulFreeConcat("{\n", BlockText(fs));
    NulFreeConcat("{\n" + BlockText(fs), "}");
  }

  /** The members of a compound read back from a table that holds each
      member's text under its name; this also gives their texts are C strings. */
  lemma {:induction false} ReadFieldsBack(lfs: seq<Field>, fs: seq<Field>, t: Table, parse: seq<char> -> Table)
    requires |lfs| == |fs|
    requires forall i :: 0 <= i < |fs| ==> lfs[i].name == fs[i].name && SameKind(lfs[i].value, fs[i].value)
    requires forall i :: 0 <= i < |fs| ==> ReadsBack(fs[i].value, parse)
    requires forall i :: 0 <= i < |fs| ==> NameKey(fs[i].name) in t && t[NameKey(fs[i].name)] == WriteText(fs[i].value)
    ensures forall i :: 0 <= i < |fs| ==> NulFree(WriteText(fs[i].value))
    ensures ReadFields(lfs, t, parse) == fs
    decreases fs, 0
  {
    if fs != [] {
      var n := |fs| - 1;
      ReadFieldsBack(lfs[..n], fs[..n], t, parse);
      ReadWriteRoundTrip(lfs[n].value, fs[n].value, parse);
      assert forall i :: 0 <= i < |fs| ==> NulFree(WriteText(fs[i].value)) by {
        forall i | 0 <= i < |fs| ensures NulFree(WriteText(fs[i].value)) {
          if i < n { assert fs[..n][i] == fs[i]; }
        }
      }
      assert fs == fs[..n] + [Field(fs[n].name, fs[n].value)];
    }
  }

  /** Nothing to read leaves every member of a compound as it was. */
  lemma {:induction false} ReadNothingKeeps(fs: seq<Field>, parse: seq<char> -> Table)
    ensures ReadFields(fs, map[], parse) == fs
  {
    if fs != [] {
      ReadNothingKeeps(fs[..|fs| - 1], parse);
      assert fs == fs[..|fs| - 1] + [fs[|fs| - 1]];
    }
  }

  // ---- vectors ----

  /** An item that reads back inside a vector line: a scalar whose text
      holds no comma. */
  predicate VectorItem(v: Value)
  {
    match v
    case Char(c) => c != Nul && c != ','
    case Int(i, bits) => -(Half(bits) as int) <= i < Half(bits)
    case UInt(u, bits) => u < Modulus(bits)
    case Bool(_) => true
    case Str(s) => NulFree(s) && ',' !in s
    case Compound(_) => false
  }

  predicate ItemsOfKind(vs: seq<Value>, dflt: Value)
  {
    forall i :: 0 <= i < |vs| ==> VectorItem(vs[i]) && SameKind(dflt, vs[i])
  }

  /** An item whose text is a comma-free C string that `read` turns back into it. */
  predicate ItemReadsBack(v: Value, read: Payload -> Value)
  {
    NulFree(WriteText(v)) && ',' !in WriteText(v) && read(WriteText(v)) == v
  }

  /** One item of a vector line reads back, and its text holds no comma. */
  lemma ItemRoundTrip(dflt: Value, v: Value, parse: seq<char> -> Table)
    requires VectorItem(v) && SameKind(dflt, v)
    ensures ItemReadsBack(v, ItemReader(dflt, parse))
  {
    assert ReadsBack(v, parse);
    ReadWriteRoundTrip(dflt, v, parse);
    CommaFreeText(v);
  }

  lemma CommaFreeText(v: Value)
    requires VectorItem(v)
    ensures ',' !in WriteText(v)
  {
    match v
    case Int(i, _) =>
      if i < 0 {
        DigitsCommaFree(-i);
        assert Decimal(i) == ['-'] + Digits(-i);
      } else {
        DigitsCommaFree(i);
      }
    case UInt(u, _) =>
      DigitsCommaFree(u);
      assert WriteText(v) == Digits(u) + ['l'];
    case _ =>
  }

  /** ItemsText unfolded from the front: the first item, then the rest. */
  lemma {:induction false} ItemsTextCons(vs: seq<Value>)
    requires vs != []
    ensures ItemsText(vs) == [','] + WriteText(vs[0]) + ItemsText(vs[1..])
  {
    if |vs| > 1 {
      var n := |vs| - 1;
      ItemsTextCons(vs[..n]);
      assert vs[..n][0] == vs[0] && vs[..n][1..] == vs[1..][..n - 1];
    } else {
      assert vs[1..] == [];
    }
  }

  /** TokToComma on text whose first comma follows `a`. */
  lemma CutCommaAt(a: seq<char>, b: seq<char>)
    requires ',' !in a && NulFree(a + [','] + b)
    ensures CutComma(a + [','] + b).0 == a && CutComma(a + [','] + b).1.Some? && CutComma(a + [','] + b).1.value == b
  {
    var s := a + [','] + b;
    var r := CutComma(s);
    assert s[|a|] == ',';
    assert r.1.Some?;
    var c := r.0;
    assert s == c + [','] + r.1.value;
    assert s[|c|] == ',';
    assert forall q :: 0 <= q < |a| ==> s[q] == a[q];
    assert forall q :: 0 <= q < |c| ==> s[q] == c[q];
    assert |c| == |a|;
    assert c == s[..|a|] == a;
    assert r.1.value == s[|a| + 1..] == b;
  }

  lemma DigitsCommaFree(n: nat)
    ensures ',' !in Digits(n) && NulFree(Digits(n))
  {
    var d := Digits(n);
    assert forall i :: 0 <= i < |d| ==> IsDigit(d[i]);
  }

  /** The items loop reads back the items the writer printed, from the
      text after the first comma. */
  lemma {:induction false} ReadItemsBack(vs: seq<Value>, read: Payload -> Value)
    requires vs != [] && forall i :: 0 <= i < |vs| ==> ItemReadsBack(vs[i], read)
    ensures NulFree(ItemsText(vs)[1..]) && ReadItems(Some(ItemsText(vs)[1..]), |vs|, read) == Some(vs)
  {
    if |vs| == 1 {
      OneItem(vs, read);
    } else {
      var rest := vs[1..];
      assert NulFree(ItemsText(rest)[1..]) && ReadItems(Some(ItemsText(rest)[1..]), |rest|, read) == Some(rest) by {
        assert forall i :: 0 <= i < |rest| ==> rest[i] == vs[i + 1];
        ReadItemsBack(rest, read);
      }
      NextItem(vs, read);
    }
  }

  /** The last item of a vector line reads back. */
  lemma OneItem(vs: seq<Value>, read: Payload -> Value)
    requires |vs| == 1 && ItemReadsBack(vs[0], read)
    ensures NulFree(ItemsText(vs)[1..]) && ReadItems(Some(ItemsText(vs)[1..]), 1, read) == Some(vs)
  {
    var w := WriteText(vs[0]);
    assert ItemsText(vs)[1..] == w by {
      ItemsTextCons(vs);
      assert ItemsText(vs[1..]) == [];
    }
    ReadItemsLast(w, read);
    assert vs == [vs[0]];
  }

  /** An item in front of items that read back reads back with them. */
  lemma NextItem(vs: seq<Value>, read: Payload -> Value)
    requires |vs| > 1 && ItemReadsBack(vs[0], read)
    requires NulFree(ItemsText(vs[1..])[1..])
    requires ReadItems(Some(ItemsText(vs[1..])[1..]), |vs| - 1, read) == Some(vs[1..])
    ensures NulFree(ItemsText(vs)[1..]) && ReadItems(Some(ItemsText(vs)[1..]), |vs|, read) == Some(vs)
  {
    var v, rest := vs[0], vs[1..];
    var w := WriteText(v);
    CommaThenItems(w, rest);
    assert ItemsText(vs)[1..] == w + ItemsText(rest) by {
      ItemsTextCons(vs);
      DropComma(w, ItemsText(rest));
    }
    ReadItemsCut(w, ItemsText(rest)[1..], |vs|, rest, read);
    assert vs == [v] + rest;
  }

  lemma DropComma(a: seq<char>, b: seq<char>)
    ensures ([','] + a + b)[1..] == a + b
  {
  }

  /** The items loop on a token followed by a comma and more items. */
  lemma ReadItemsCut(tok: seq<char>, after: Payload, k: nat, tail: seq<Value>, read: Payload -> Value)
    requires k > 0 && ',' !in tok && NulFree(tok) && NulFree(tok + [','] + after)
    requires ReadItems(Some(after), k - 1, read) == Some(tail)
    ensures ReadItems(Some(tok + [','] + after), k, read) == Some([read(tok)] + tail)
  {
    var s: Payload := tok + [','] + after;
    CutCommaAt(tok, after);
    var (t, rest) := CutComma(s);
    assert t == tok && rest == Some(after);
  }

  /** The items loop on a last token, with no comma after it. */
  lemma ReadItemsLast(tok: seq<char>, read: Payload -> Value)
    requires ',' !in tok && NulFree(tok)
    ensures ReadItems(Some(tok), 1, read) == Some([read(tok)])
  {
    var (t, rest) := CutComma(tok);
    assert t == tok && rest.None?;
    assert ReadItems(rest, 0, read) == Some([]);
    assert [read(t)] + [] == [read(tok)];
  }

  /** Read after write for a vector line: the count and the comma-separated
      items the writer prints come back as the same items, for scalar items
      whose text holds no comma. */
  lemma VectorRoundTrip(vs: seq<Value>, dflt: Value, parse: seq<char> -> Table)
    requires |vs| < Half(32) && ItemsOfKind(vs, dflt)
    ensures NulFree(Decimal(|vs|) + ItemsText(vs))
    ensures ReadVectorText(Decimal(|vs|) + ItemsText(vs), dflt, parse) == Some(vs)
  {
    var count := Decimal(|vs|);
    CountText(|vs|);
    if vs == [] {
      assert count + ItemsText(vs) == count;
      ReadVectorNoComma(count, dflt, parse);
    } else {
      forall i | 0 <= i < |vs|
        ensures ItemReadsBack(vs[i], ItemReader(dflt, parse))
      {
        ItemRoundTrip(dflt, vs[i], parse);
      }
      ReadItemsBack(vs, ItemReader(dflt, parse));
      var after := ItemsText(vs)[1..];
      CommaThenItems(count, vs);
      ReadVectorCut(count, after, dflt, parse);
    }
  }

  /** A token followed by the items text: the token, a comma, the first item and so on. */
  lemma CommaThenItems(count: seq<char>, vs: seq<Value>)
    requires vs != [] && NulFree(count) && NulFree(ItemsText(vs)[1..])
    ensures count + ItemsText(vs) == count + [','] + ItemsText(vs)[1..]
    ensures NulFree(count + [','] + ItemsText(vs)[1..])
  {
    var items := ItemsText(vs);
    var after := items[1..];
    assert items == [','] + after by {
      ItemsTextCons(vs);
    }
    assert count + items == count + [','] + after;
    NulFreeConcat(count, [',']);
    NulFreeConcat(count + [','], after);
  }

  /** A vector payload whose count token is followed by a comma. */
  lemma ReadVectorCut(tok: seq<char>, after: Payload, dflt: Value, parse: seq<char> -> Table)
    requires ',' !in tok && NulFree(tok + [','] + after) && ToSigned(Atoi(tok), 32) >= 0
    ensures ReadVectorText(tok + [','] + after, dflt, parse) == ReadItems(Some(after), ToSigned(Atoi(tok), 32), ItemReader(dflt, parse))
  {
    CutCommaAt(tok, after);
  }

  /** A vector payload without a comma: only the count. */
  lemma ReadVectorNoComma(tok: seq<char>, dflt: Value, parse: seq<char> -> Table)
    requires ',' !in tok && NulFree(tok) && ToSigned(Atoi(tok), 32) == 0
    ensures ReadVectorText(tok, dflt, parse) == Some([])
  {
    assert CutComma(tok).1.None?;
  }

  /** The count the vector writer prints reads back, and holds no comma. */
  lemma CountText(n: nat)
    requires n < Half(32)
    ensures Decimal(n) == Digits(n) && ',' !in Decimal(n)
    ensures ToSigned(Atoi(Decimal(n)), 32) == n
  {
    DigitsCommaFree(n);
    AtoiDecimal(n);
  }

  /** IOAsInt's cast through int and back, for a value in range of its
      signed type, after a write and a read of the int. */
  lemma IOAsIntRoundTrip(v: int, bits: nat)
    requires -(Half(bits) as int) <= v < Half(bits)
    ensures ToSigned(ToSigned(Atoi(Decimal(ToSigned(v, 32))), 32), bits) == v
  {
    assert ToSigned(v, 32) == v;
    AtoiDecimal(v);
  }

  // ---- the writer ----

  /** PrefBlock_Writer: the text written so far. */
  class Writer {
    var data: seq<char>

    constructor ()
      ensures data == []
    {
      data := [];
    }

    method Reset()
      modifies this
      ensures data == []
    {
      data := [];
    }

    /** One entry: the name, a colon, the value's text and a newline. */
    method IO(name: seq<char>, v: Value)
      modifies this
      ensures data == old(data) + FieldText(name, v)
      decreases v, 1
    {
      data := data + name + [':'];
      WriteToText(v);
      data := data + ['\n'];
    }

    /** WriteToText into this writer's buffer.  A compound value is written
        by its PrefIO into a writer of its own, whose buffer is then
        appended in braces. */
    method WriteToText(v: Value)
      modifies this
      ensures data == old(data) + WriteText(v)
      decreases v, 0
    {
      if v.Compound? {
        var fs := v.fields;
        var inner := new Writer();
        var i := 0;
        while i < |fs|
          invariant 0 <= i <= |fs| && inner.data == BlockText(fs[..i]) && data == old(data)
        {
          inner.IO(fs[i].name, fs[i].value);
          assert fs[..i + 1][..i] == fs[..i];
          i := i + 1;
        }
        assert fs[..|fs|] == fs;
        data := data + "{\n" + inner.data + "}";
      } else {
        data := data + WriteText(v);
      }
    }

    /** A vector entry: the name, a colon, the count, each item after a
        comma, and a newline. */
    method IOV(name: seq<char>, vs: seq<Value>)
      modifies this
      ensures data == old(data) + VectorText(name, vs)
    {
      data := data + name + [':'];
      var count := |vs|;
      WriteToText(Int(count, 32));
      ghost var head := data;
      var i := 0;
      while i < count
        invariant 0 <= i <= count && data == head + ItemsText(vs[..i])
      {
        data := data + [','];
        WriteToText(vs[i]);
        ItemsTextSnoc(head, vs, i);
        i := i + 1;
      }
      assert vs[..count] == vs;
      data := data + ['\n'];
    }
  }

  /** Appending one more item to the vector text. */
  lemma ItemsTextSnoc(head: seq<char>, vs: seq<Value>, i: nat)
    requires i < |vs|
    ensures head + ItemsText(vs[..i]) + [','] + WriteText(vs[i]) == head + ItemsText(vs[..i + 1])
  {
    assert vs[..i + 1][..i] == vs[..i];
  }

  // ---- the reader ----

  /** PrefBlock_Reader: the entries of the block last read, by name. */
  class Reader {
    var entries: Table
    /** PrefBlock_Reader::Read, the block parser. */
    const parse: seq<char> -> Table

    constructor (parse: seq<char> -> Table)
      ensures entries == map[] && this.parse == parse
    {
      entries := map[];
      this.parse := parse;
    }

    method Reset()
      modifies this
      ensures entries == map[]
    {
      entries := map[];
    }

    /** Read replaces the entries with those of the block `text`. */
    method Read(text: seq<char>)
      modifies this
      ensures entries == parse(text)
    {
      entries := parse(text);
    }

    /** One entry: read into the value when the name is present; otherwise
        the value is left as it was. */
    method IO(name: seq<char>, like: Value) returns (v: Value)
      ensures v == ReadEntry(name, like, entries, parse)
      decreases like, 1
    {
      var key := NameKey(name);
      if key in entries {
        v := ReadFromText(like, entries[key], parse);
      } else {
        v := like;
      }
    }

    /** A vector entry: the vector is cleared, stays empty when the name is
        absent, and otherwise gets the count's worth of items, each read
        into a copy of `dflt`.  None stands for the failures of the source:
        a negative count, or fewer items than the count. */
    method IOV(name: seq<char>, dflt: Value) returns (vec: Option<seq<Value>>)
      ensures vec == ReadVector(name, dflt, entries, parse)
    {
      var key := NameKey(name);
      if key !in entries {
        return Some([]);
      }
      var workspace := entries[key];
      var (tok, first) := CutComma(workspace);
      var count := ToSigned(Atoi(tok), 32);
      if count < 0 {
        return None;
      }
      vec := ReadEach(first, count, dflt, parse);
    }
  }

  /** The items loop of PrefBlock_Reader::IOV: each pass cuts the next
      token at its comma and reads it into a copy of `dflt`; a missing
      token (NULL) ends the read without a value. */
  method ReadEach(first: Option<Payload>, count: nat, dflt: Value, parse: seq<char> -> Table)
    returns (vec: Option<seq<Value>>)
    ensures vec == ReadItems(first, count, ItemReader(dflt, parse))
  {
    ghost var read := ItemReader(dflt, parse);
    ghost var all := ReadItems(first, count, read);
    var items: seq<Value> := [];
    var next := first;
    var k := count;
    ReadingStart(all, first, count, read);
    while k > 0
      invariant Reading(all, items, next, k, read)
      decreases k
    {
      if next.None? {
        ReadingFails(all, items, k, read);
        return None;
      }
      items, next, k := ReadNext(next.value, dflt, parse, all, items, k, read);
    }
    ReadingDone(all, items, next, read);
    vec := Some(items);
  }

  /** One pass of the items loop: cuts the next token at its comma and
      reads it into a copy of `dflt`. */
  method ReadNext(next: Payload, dflt: Value, parse: seq<char> -> Table, ghost all: Option<seq<Value>>,
                  items: seq<Value>, k: nat, ghost read: Payload -> Value)
    returns (items1: seq<Value>, rest: Option<Payload>, k1: nat)
    requires read == ItemReader(dflt, parse)
    requires k > 0 && Reading(all, items, Some(next), k, read)
    ensures k1 < k && Reading(all, items1, rest, k1, read)
  {
    var (t, after) := CutComma(next);
    var item := ReadFromText(dflt, t, parse);
    ItemReaderApply(dflt, t, parse);
    items1, rest, k1 := items + [item], after, k - 1;
    ReadingStep(all, items, next, t, rest, item, items1, k, k1, read);
  }

  /** The state of the items loop: the items read so far, in front of what
      the loop still reads from `next` with `k` items to go, make up `all`. */
  ghost predicate Reading(all: Option<seq<Value>>, items: seq<Value>, next: Option<Payload>, k: nat, read: Payload -> Value)
  {
    all == Prepend(items, ReadItems(next, k, read))
  }

  lemma ReadingStart(all: Option<seq<Value>>, first: Option<Payload>, k: nat, read: Payload -> Value)
    requires all == ReadItems(first, k, read)
    ensures Reading(all, [], first, k, read)
  {
    PrependNil(all);
  }

  /** One item read: it joins the items, and one fewer is left to read
      from what follows its comma. */
  lemma ReadingStep(all: Option<seq<Value>>, items: seq<Value>, next: Payload, t: Payload, rest: Option<Payload>,
                    item: Value, items1: seq<Value>, k: nat, k1: nat, read: Payload -> Value)
    requires k > 0 && Reading(all, items, Some(next), k, read)
    requires t == CutComma(next).0 && rest == CutComma(next).1 && item == read(t)
    requires items1 == items + [item] && k1 == k - 1
    ensures Reading(all, items1, rest, k1, read)
  {
    ReadItemsUnfold(next, k, read);
    PrependStep(items, item, ReadItems(rest, k - 1, read));
  }

  lemma ItemReaderApply(dflt: Value, t: Payload, parse: seq<char> -> Table)
    ensures ItemReader(dflt, parse)(t) == ReadText(dflt, t, parse)
  {
  }

  lemma ReadingFails(all: Option<seq<Value>>, items: seq<Value>, k: nat, read: Payload -> Value)
    requires k > 0 && Reading(all, items, None, k, read)
    ensures all == None
  {
  }

  lemma ReadingDone(all: Option<seq<Value>>, items: seq<Value>, next: Option<Payload>, read: Payload -> Value)
    requires Reading(all, items, next, 0, read)
    ensures all == Some(items)
  {
    PrependNil(Some(items));
  }

  /** One pass of the items loop. */
  lemma ReadItemsUnfold(next: Payload, k: nat, read: Payload -> Value)
    requires k > 0
    ensures ReadItems(Some(next), k, read)
            == Prepend([read(CutComma(next).0)], ReadItems(CutComma(next).1, k - 1, read))
  {
  }

  lemma PrependNil(o: Option<seq<Value>>)
    ensures Prepend([], o) == o
    ensures o.Some? ==> Prepend(o.value, Some([])) == o
  {
    if o.Some? {
      assert [] + o.value == o.value + [] == o.value;
    }
  }

  /** The items already read in front of what the rest of the loop reads. */
  function Prepend(xs: seq<Value>, o: Option<seq<Value>>): Option<seq<Value>>
  {
    if o.None? then None else Some(xs + o.value)
  }

  lemma PrependStep(xs: seq<Value>, x: Value, o: Option<seq<Value>>)
    ensures Prepend(xs, Prepend([x], o)) == Prepend(xs + [x], o)
  {
    if o.Some? {
      assert xs + ([x] + o.value) == xs + [x] + o.value;
    }
  }

  /** Reading one more member of the compound value. */
  lemma ReadFieldsSnoc(fs: seq<Field>, i: nat, t: Table, parse: seq<char> -> Table)
    requires i < |fs|
    ensures ReadFields(fs[..i + 1], t, parse)
            == ReadFields(fs[..i], t, parse) + [Field(fs[i].name, ReadEntry(fs[i].name, fs[i].value, t, parse))]
  {
    assert fs[..i + 1][..i] == fs[..i];
  }

  /** ReadFromText: a scalar parses its payload; a compound value gets a
      reader of its own for the payload and reads each member through it. */
  method ReadFromText(like: Value, text: Payload, parse: seq<char> -> Table) returns (v: Value)
    ensures v == ReadText(like, text, parse)
    decreases like, 0
  {
    if like.Compound? {
      var fs := like.fields;
      var reader := new Reader(parse);
      reader.Read(text);
      var out: seq<Field> := [];
      var i := 0;
      while i < |fs|
        invariant 0 <= i <= |fs| && reader.entries == parse(text) && reader.parse == parse
        invariant out == ReadFields(fs[..i], reader.entries, parse)
      {
        var f := reader.IO(fs[i].name, fs[i].value);
        ReadFieldsSnoc(fs, i, reader.entries, parse);
        out := out + [Field(fs[i].name, f)];
        i := i + 1;
      }
      assert fs[..|fs|] == fs;
      v := Compound(out);
    } else {
      v := ReadText(like, text, parse);
    }
  }

  // ---- the block ----

  /** PrefBlock: one PrefIO function serves both directions, through a
      reader or through a writer. */
  class Block {
    const reader: Reader?
    const writer: Writer?

    predicate Valid()
    {
      (reader == null) != (writer == null)
    }

    constructor FromReader(r: Reader)
      ensures reader == r && writer == null && Valid()
    {
      reader := r;
      writer := null;
    }

    constructor FromWriter(w: Writer)
      ensures reader == null && writer == w && Valid()
    {
      reader := null;
      writer := w;
    }

    method IO(name: seq<char>, v: Value) returns (r: Value)
      requires Valid()
      modifies writer
      ensures reader != null ==> r == ReadEntry(name, v, reader.entries, reader.parse)
      ensures writer != null ==> r == v && writer.data == old(writer.data) + FieldText(name, v)
    {
      if reader != null {
        r := reader.IO(name, v);
      } else {
        writer.IO(name, v);
        r := v;
      }
    }

    /** IOAsInt for a signed type of `bits` bits: the value goes through an
        int, which is read or written, and is cast back. */
    method IOAsInt(name: seq<char>, v: int, bits: nat) returns (r: int)
      requires Valid()
      modifies writer
      ensures writer != null ==> writer.data == old(writer.data) + FieldText(name, Int(ToSigned(v, 32), 32))
      ensures (writer != null || NameKey(name) !in reader.entries) ==> r == ToSigned(ToSigned(v, 32), bits)
      ensures reader != null && NameKey(name) in reader.entries ==>
                r == ToSigned(ToSigned(Atoi(reader.entries[NameKey(name)]), 32), bits)
    {
      var x := ToSigned(v, 32);
      if reader != null {
        var read := reader.IO(name, Int(x, 32));
        x := read.i;
      } else {
        writer.IO(name, Int(x, 32));
      }
      r := ToSigned(x, bits);
    }

    method IOV(name: seq<char>, vs: seq<Value>, dflt: Value) returns (r: Option<seq<Value>>)
      requires Valid()
      modifies writer
      ensures reader != null ==> r == ReadVector(name, dflt, reader.entries, reader.parse)
      ensures writer != null ==> r == Some(vs) && writer.data == old(writer.data) + VectorText(name, vs)
    {
      if reader != null {
        r := reader.IOV(name, dflt);
      } else {
        writer.IOV(name, vs);
        r := Some(vs);
      }
    }
  }
}
