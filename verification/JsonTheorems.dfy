/**
 The round trip through libjansson/jansson-2.7/src/dump.c and load.c, from a value to an equal value,
 over the byte streams in between.
 */
module JsonTheorems {

  import opened JsonUtf8
  import opened JsonString
  import opened JsonValue
  import opened JsonParser
  import opened JsonRoundTrip
  import opened JsonRefused

  // ---- The value that is read is equal to the one that was written ----

  lemma {:induction false} NormalIsEqual(v: Json, fl: DumpFlags)
    requires Proper(v)
    ensures Equal(v, Normal(v, fl))
    decreases v, 1
  {
    match v
    case Arr(es) => NormalElemsEqual(es, fl);
    case Obj(fs) => NormalObjectEqual(fs, fl);
    case _ =>
  }

  lemma {:induction false} NormalElemsEqual(es: seq<Json>, fl: DumpFlags)
    requires forall e | e in es :: Proper(e)
    ensures forall i | 0 <= i < |es| :: Equal(es[i], NormalElems(es, fl)[i])
    decreases es, 0
  {
    if es != [] {
      assert es[0] in es && forall e | e in es[1..] :: e in es;
      NormalIsEqual(es[0], fl);
      NormalElemsEqual(es[1..], fl);
    }
  }

  lemma {:induction false} NormalFieldsEqual(v: Json, fs: seq<Field>, fl: DumpFlags, serial: nat)
    requires forall f | f in fs :: f.value < v && Proper(f.value)
    ensures forall i | 0 <= i < |fs| :: Equal(fs[i].value, NormalFields(v, fs, fl, serial)[i].value)
    decreases v, 0, |fs|
  {
    hide Equal, Normal, Proper;
    if fs != [] {
      assert fs[0] in fs && forall f | f in fs[1..] :: f in fs;
      NormalIsEqual(fs[0].value, fl);
      NormalFieldsEqual(v, fs[1..], fl, serial + 1);
      NormalFieldsCons(v, fs, fl, serial);
      hide NormalFields;
      EqualCons(fs, Field(fs[0].key, serial, Normal(fs[0].value, fl)), NormalFields(v, fs[1..], fl, serial + 1));
    }
  }

  lemma EqualCons(fs: seq<Field>, g: Field, gs: seq<Field>)
    requires |fs| == |gs| + 1 && Equal(fs[0].value, g.value)
    requires forall i | 0 <= i < |gs| :: Equal(fs[1..][i].value, gs[i].value)
    ensures forall i | 0 <= i < |fs| :: Equal(fs[i].value, ([g] + gs)[i].value)
  {
    hide Equal;
    forall i | 0 <= i < |fs|
      ensures Equal(fs[i].value, ([g] + gs)[i].value)
    {
      if i > 0 {
        assert fs[i] == fs[1..][i - 1] && ([g] + gs)[i] == gs[i - 1];
      }
    }
  }

  lemma {:induction false} NormalObjectEqual(fs: seq<Field>, fl: DumpFlags)
    requires ProperFields(fs)
    ensures Equal(Obj(fs), Normal(Obj(fs), fl))
    decreases Obj(fs), 0
  {
    var os := Ordered(fs, fl);
    NormalObject(fs, fl);
    OrderedMembers(fs, fl);
    NormalFieldsEqual(Obj(fs), os, fl, 0);
    SameAsMaps(fs, os, NormalFields(Obj(fs), os, fl, 0));
  }

  lemma SameAsMaps(fs: seq<Field>, os: seq<Field>, gs: seq<Field>)
    requires |os| == |fs| == |gs| && forall f :: f in os <==> f in fs
    requires forall i | 0 <= i < |os| :: gs[i].key == os[i].key && Equal(os[i].value, gs[i].value)
    ensures Equal(Obj(fs), Obj(gs))
  {
    forall i | 0 <= i < |fs|
      ensures HasEqual(fs[i].key, fs[i].value, gs)
    {
      assert fs[i] in os;
      var j :| 0 <= j < |os| && os[j] == fs[i];
      assert gs[j].key == fs[i].key && Equal(fs[i].value, gs[j].value);
    }
  }

  // ---- A dump is UTF-8 without NUL bytes ----

  ghost predicate Clean(s: seq<Byte>) {
    Valid(s) && 0 !in s
  }

  lemma Join(a: seq<Byte>, b: seq<Byte>)
    requires Clean(a) && Clean(b)
    ensures Clean(a + b)
  {
    ValidConcat(a, b);
  }

  lemma {:induction false} Ascii(s: seq<Byte>)
    requires forall c | c in s :: 0 < c < 0x80
    ensures Clean(s)
  {
    if s != [] {
      assert s[0] in s;
      assert forall c | c in s[1..] :: c in s;
      Ascii(s[1..]);
    }
  }

  lemma EncodeClean(cp: int)
    requires Scalar(cp) && cp != 0
    ensures Encode(cp).Some? && Clean(Encode(cp).value)
  {
    DecodeEncode(cp, []);
    var e := Encode(cp).value;
    assert e + [] == e && e[|e|..] == [];
  }

  lemma HexAscii(d: nat)
    requires d < 16
    ensures 0 < HexDigit(d) < 0x80
  {
  }

  lemma UnicodeAscii(v: nat)
    requires v < 0x1_0000
    ensures Clean(UnicodeEscape(v))
  {
    HexAscii(v / 0x1000);
    HexAscii(v / 0x100 % 16);
    HexAscii(v / 0x10 % 16);
    HexAscii(v % 16);
    hide HexDigit;
    Ascii(UnicodeEscape(v));
  }

  lemma TextClean(cp: int, fl: DumpFlags)
    requires Scalar(cp)
    ensures Clean(Text(cp, fl))
  {
    if !Escaped(cp, fl) {
      EncodeClean(cp);
    } else if Shortcut(cp).Some? {
      Ascii(EscapeText(cp));
    } else if cp < 0x1_0000 {
      UnicodeAscii(cp);
    } else {
      var high, low := SplitPair(cp);
      UnicodeAscii(high);
      UnicodeAscii(low);
      Join(UnicodeEscape(high), UnicodeEscape(low));
    }
  }

  lemma {:induction false} BodyClean(s: seq<Byte>, fl: DumpFlags)
    requires Valid(s)
    ensures Clean(Body(s, [], fl))
    decreases |s|
  {
    if s == [] {
      assert Body(s, [], fl) == [];
    } else {
      var cp, count := BodyFirst(s, fl);
      TextClean(cp, fl);
      BodyClean(s[count..], fl);
      Join(Text(cp, fl), Body(s[count..], [], fl));
    }
  }

  lemma StringClean(s: seq<Byte>, fl: DumpFlags)
    requires Valid(s)
    ensures Clean(DumpString(s, fl))
  {
    BodyClean(s, fl);
    Ascii([QUOTE]);
    Join([QUOTE], Body(s, [], fl));
    Join([QUOTE] + Body(s, [], fl), [QUOTE]);
  }

  lemma IndentClean(fl: DumpFlags, depth: nat, space: bool)
    ensures Clean(Indent(fl, depth, space)) && Clean(Separator(fl))
  {
    Ascii(Indent(fl, depth, space));
    Ascii(Separator(fl));
  }

  lemma LayoutClean(c: Byte, fl: DumpFlags, depth: nat, space: bool, rest: seq<Byte>)
    requires Clean(rest) && 0 < c < 0x80
    ensures Clean([c] + rest) && Clean(Indent(fl, depth, space) + rest) && Clean(Separator(fl) + rest)
    ensures Clean([c] + (Indent(fl, depth, space) + rest))
  {
    IndentClean(fl, depth, space);
    Ascii([c]);
    hide *;
    Join([c], rest);
    Join(Indent(fl, depth, space), rest);
    Join(Separator(fl), rest);
    Join([c], Indent(fl, depth, space) + rest);
  }

  /** A dump in front of clean text is clean. */
  lemma {:induction false} DumpClean(v: Json, fl: DumpFlags, depth: nat, rest: seq<Byte>)
    requires Proper(v) && Clean(rest)
    ensures Clean(Dump(v, fl, depth) + rest)
    decreases v, 1
  {
    match v
    case Integer(i) => Ascii(DumpInteger(i)); Join(DumpInteger(i), rest);
    case Real(_) =>
    case Str(s) => StringClean(s, fl); Join(DumpString(s, fl), rest);
    case Arr(es) => ArrayClean(es, fl, depth, rest);
    case Obj(fs) => ObjectClean(fs, fl, depth, rest);
    case _ => Ascii(Dump(v, fl, depth)); Join(Dump(v, fl, depth), rest);
  }

  lemma {:induction false} ArrayClean(es: seq<Json>, fl: DumpFlags, depth: nat, rest: seq<Byte>)
    requires (forall e | e in es :: Proper(e)) && Clean(rest)
    ensures Clean(Dump(Arr(es), fl, depth) + rest)
    decreases es, 1
  {
    if es == [] {
      Ascii([0x5B, 0x5D]);
      Join([0x5B, 0x5D], rest);
    } else {
      hide *;
      LayoutClean(0x5D, fl, depth, false, rest);
      ElemsClean(es, fl, depth, [0x5D] + rest);
      LayoutClean(0x5B, fl, depth + 1, false, DumpElems(es, fl, depth) + ([0x5D] + rest));
      DumpArray(es, fl, depth, rest);
    }
  }

  lemma {:induction false} ElemsClean(es: seq<Json>, fl: DumpFlags, depth: nat, rest: seq<Byte>)
    requires es != [] && (forall e | e in es :: Proper(e)) && Clean(rest)
    ensures Clean(DumpElems(es, fl, depth) + rest)
    decreases es, 0
  {
    hide *;
    assert es[0] in es && forall e | e in es[1..] :: e in es;
    DumpElemsParts(es, fl, depth, rest);
    if |es| == 1 {
      LayoutClean(0x2C, fl, depth, false, rest);
      DumpClean(es[0], fl, depth + 1, Indent(fl, depth, false) + rest);
    } else {
      ElemsClean(es[1..], fl, depth, rest);
      LayoutClean(0x2C, fl, depth + 1, true, DumpElems(es[1..], fl, depth) + rest);
      DumpClean(es[0], fl, depth + 1, [0x2C] + (Indent(fl, depth + 1, true) + (DumpElems(es[1..], fl, depth) + rest)));
    }
  }

  lemma {:induction false} ObjectClean(fs: seq<Field>, fl: DumpFlags, depth: nat, rest: seq<Byte>)
    requires ProperFields(fs) && Clean(rest)
    ensures Clean(Dump(Obj(fs), fl, depth) + rest)
    decreases Obj(fs), 0
  {
    if fs == [] {
      Ascii([0x7B, 0x7D]);
      Join([0x7B, 0x7D], rest);
    } else {
      hide *;
      OrderedProper(fs, fl);
      DumpObject(fs, fl, depth, rest);
      LayoutClean(0x7D, fl, depth, false, rest);
      FieldsClean(Obj(fs), Ordered(fs, fl), fl, depth, [0x7D] + rest);
      LayoutClean(0x7B, fl, depth + 1, false, DumpFields(Obj(fs), Ordered(fs, fl), fl, depth) + ([0x7D] + rest));
    }
  }

  lemma {:induction false} FieldsClean(v: Json, fs: seq<Field>, fl: DumpFlags, depth: nat, rest: seq<Byte>)
    requires fs != [] && ProperFields(fs) && (forall f | f in fs :: f.value < v) && Clean(rest)
    ensures Clean(DumpFields(v, fs, fl, depth) + rest)
    decreases v, 0, |fs|
  {
    hide *;
    assert fs[0] in fs;
    ProperFirst(fs);
    DumpFieldsParts(v, fs, fl, depth, rest);
    StringClean(fs[0].key, fl);
    var tail := Indent(fl, depth, false) + rest;
    LayoutClean(0x2C, fl, depth, false, rest);
    if |fs| > 1 {
      FieldsClean(v, fs[1..], fl, depth, rest);
      LayoutClean(0x2C, fl, depth + 1, true, DumpFields(v, fs[1..], fl, depth) + rest);
      tail := [0x2C] + (Indent(fl, depth + 1, true) + (DumpFields(v, fs[1..], fl, depth) + rest));
    }
    DumpClean(fs[0].value, fl, depth + 1, tail);
    var value := Dump(fs[0].value, fl, depth + 1) + tail;
    LayoutClean(0x2C, fl, depth, false, value);
    Join(DumpString(fs[0].key, fl), Separator(fl) + value);
  }

  // ---- The theorem ----

  lemma {:induction false} ValidIsDecodable(s: seq<Byte>)
    requires Valid(s)
    ensures Decodable(s) == |s|
    decreases |s|
  {
    if s != [] {
      ValidIsDecodable(s[Iterate(s).count..]);
    }
  }

  /** A C string ends at its first NUL. */
  lemma {:induction false} CStringEnds(s: seq<Byte>, after: seq<Byte>)
    requires 0 !in s
    ensures CString(s + [0] + after) == s
  {
    var all := s + [0] + after;
    if s != [] {
      assert all[0] == s[0] && all[1..] == s[1..] + [0] + after;
      CStringEnds(s[1..], after);
      assert s == [s[0]] + s[1..];
    } else {
      assert all[0] == 0;
    }
  }

  /** The flags of the loader let a value in: arrays and objects, or anything, without NUL in strings, or
      with it. */
  ghost predicate Loads(v: Json, pf: ParseFlags) {
    Admits(v, pf) && (pf.decodeAny || v.Arr? || v.Obj?)
  }

  lemma ParseDump(v: Json, fl: DumpFlags, pf: ParseFlags)
    requires Proper(v)
    ensures ParseJson(Dump(v, fl, 0), false, pf) == if Loads(v, pf) then Some(Normal(v, fl)) else None
  {
    var text := Dump(v, fl, 0);
    assert text + [] == text;
    if !Admits(v, pf) {
      ValueRefused(v, fl, 0, [], false, pf);
    } else {
      ValueReads(v, fl, 0, [], false, pf);
    }
    if !v.Arr? && !v.Obj? {
      ScalarText(v, fl, pf);
    } else {
      ContainerText(v, fl);
    }
    hide Dump, Normal, ParseValue;
    assert Scan([], false).0 == EofToken;
  }

  lemma ContainerText(v: Json, fl: DumpFlags)
    requires v.Arr? || v.Obj?
    ensures var token := Scan(Dump(v, fl, 0), false).0; token == Punct(0x5B) || token == Punct(0x7B)
  {
    var text := Dump(v, fl, 0);
    hide Indent, DumpElems, DumpFields, Ordered;
    ScanPunct(text[0], text[1..], false);
    assert text == [text[0]] + text[1..];
  }

  /** `json_loads` and `json_loadb` of what `json_dumps` returns give a value that `json_equal` cannot
      tell from the original, for every combination of flags of the dump, if the flags of the loader
      let such a value in; otherwise they fail. */
  lemma JsonRoundTrips(v: Json, fl: DumpFlags, pf: ParseFlags, after: seq<Byte>)
    requires Proper(v)
    ensures LoadString(Dump(v, fl, 0) + [0] + after, pf) == if Loads(v, pf) then Some(Normal(v, fl)) else None
    ensures LoadBuffer(Dump(v, fl, 0), pf) == if Loads(v, pf) then Some(Normal(v, fl)) else None
    ensures Equal(v, Normal(v, fl))
  {
    var text := Dump(v, fl, 0);
    DumpClean(v, fl, 0, []);
    assert text + [] == text;
    ValidIsDecodable(text);
    ParseDump(v, fl, pf);
    NormalIsEqual(v, fl);
    hide Dump, Normal, ParseJson, Proper, Valid, Equal, CString, Loads;
    CStringEnds(text, after);
    assert text[..|text|] == text;
  }
}
