/**
 What libjansson/jansson-2.7/src/load.c refuses of the texts that dump.c writes: a string with a NUL,
 however deep, unless the flags allow it.
 */
module JsonRefused {

  import opened JsonUtf8
  import opened JsonString
  import opened JsonValue
  import opened JsonParser
  import opened JsonRoundTrip

  /** The text begins like a value, and is refused. */
  ghost predicate Refused(text: seq<Byte>, bad: bool, pf: ParseFlags) {
    && Begins(Scan(text, bad).0)
    && ParseValue(Scan(text, bad).0, Scan(text, bad).1, bad, pf) == None
  }

  /** The text begins like the elements of an array, and is refused. */
  ghost predicate ElemsRefused(text: seq<Byte>, bad: bool, pf: ParseFlags, done: seq<Json>) {
    && Begins(Scan(text, bad).0)
    && ParseElems(Scan(text, bad).0, Scan(text, bad).1, bad, pf, done) == None
  }

  /** The text begins like the members of an object, and is refused. */
  ghost predicate FieldsRefused(text: seq<Byte>, bad: bool, pf: ParseFlags, done: seq<Field>, serial: nat) {
    && Scan(text, bad).0.StringToken?
    && ParseFields(Scan(text, bad).0, Scan(text, bad).1, bad, pf, done, serial) == None
  }

  // ---- The loops of the parser, one round at a time ----

  lemma FirstElemRefused(text: seq<Byte>, bad: bool, pf: ParseFlags, done: seq<Json>)
    requires Refused(text, bad, pf)
    ensures ElemsRefused(text, bad, pf, done)
  {
    hide Scan, ParseValue;
  }

  lemma MoreElemsRefused(text: seq<Byte>, w: Json, tail: seq<Byte>, ws: seq<Byte>, more: seq<Byte>, bad: bool,
      pf: ParseFlags, done: seq<Json>)
    requires ReadAs(text, w, tail, bad, pf)
    requires Scan(tail, bad) == (Punct(0x2C), ws + more) && Scan(ws + more, bad) == Scan(more, bad)
    requires ElemsRefused(more, bad, pf, done + [w])
    ensures ElemsRefused(text, bad, pf, done)
  {
    hide Scan, ParseValue;
  }

  lemma ArrayRefused(text: seq<Byte>, ws: seq<Byte>, more: seq<Byte>, bad: bool, pf: ParseFlags)
    requires Scan(text, bad) == (Punct(0x5B), ws + more) && Scan(ws + more, bad) == Scan(more, bad)
    requires ElemsRefused(more, bad, pf, [])
    ensures Refused(text, bad, pf)
  {
    hide Scan, ParseElems;
    assert ParseArray(ws + more, bad, pf) == None;
  }

  lemma FieldValueRefused(text: seq<Byte>, key: seq<Byte>, sep: seq<Byte>, value: seq<Byte>, bad: bool,
      pf: ParseFlags, done: seq<Field>, serial: nat)
    requires Scan(text, bad) == (StringToken(key), sep)
    requires Scan(sep, bad).0 == Punct(0x3A) && Scan(Scan(sep, bad).1, bad) == Scan(value, bad)
    requires Refused(value, bad, pf)
    ensures FieldsRefused(text, bad, pf, done, serial)
  {
    hide Scan, ParseValue;
  }

  lemma MoreFieldsRefused(text: seq<Byte>, w: Field, tail: seq<Byte>, ws: seq<Byte>, more: seq<Byte>, bad: bool,
      pf: ParseFlags, done: seq<Field>, serial: nat)
    requires FieldReadAs(text, w, tail, bad, pf, done, serial)
    requires Scan(tail, bad) == (Punct(0x2C), ws + more) && Scan(ws + more, bad) == Scan(more, bad)
    requires FieldsRefused(more, bad, pf, done + [w], serial + 1)
    ensures FieldsRefused(text, bad, pf, done, serial)
  {
    hide Scan, ParseFields;
  }

  lemma ObjectRefused(text: seq<Byte>, ws: seq<Byte>, more: seq<Byte>, bad: bool, pf: ParseFlags)
    requires Scan(text, bad) == (Punct(0x7B), ws + more) && Scan(ws + more, bad) == Scan(more, bad)
    requires FieldsRefused(more, bad, pf, [], 0)
    ensures Refused(text, bad, pf)
  {
    hide Scan, ParseFields;
    assert ParseObject(ws + more, bad, pf) == None;
  }

  // ---- Values ----

  /** A dump with a NUL in a string somewhere is refused when the flags do not allow it. */
  lemma {:induction false} ValueRefused(v: Json, fl: DumpFlags, depth: nat, rest: seq<Byte>, bad: bool,
      pf: ParseFlags)
    requires Proper(v) && !Admits(v, pf) && Follows(rest)
    ensures Refused(Dump(v, fl, depth) + rest, bad, pf)
    decreases v, 1
  {
    match v
    case Str(s) => ScanStringToken(s, fl, rest, bad);
    case Arr(es) =>
      var e :| e in es && !Admits(e, pf);
      ArrayTextRefused(es, fl, depth, rest, bad, pf);
    case Obj(fs) =>
      var f :| f in fs && !Admits(f.value, pf);
      ObjectTextRefused(fs, fl, depth, rest, bad, pf);
  }

  lemma {:induction false} ArrayTextRefused(es: seq<Json>, fl: DumpFlags, depth: nat, rest: seq<Byte>, bad: bool,
      pf: ParseFlags)
    requires (forall e | e in es :: Proper(e)) && (exists e | e in es :: !Admits(e, pf)) && Follows(rest)
    ensures Refused(Dump(Arr(es), fl, depth) + rest, bad, pf)
    decreases es, 1
  {
    hide *;
    assert es != [];
    var more := DumpElems(es, fl, depth) + ([0x5D] + rest);
    var ws := Indent(fl, depth + 1, false);
    DumpArray(es, fl, depth, rest);
    OpenFollows(fl, depth + 1, 0x5B, more, bad);
    ElemsTextRefused(es, fl, depth, rest, bad, pf, []);
    ArrayRefused([0x5B] + (ws + more), ws, more, bad, pf);
  }

  lemma {:induction false} ElemsTextRefused(es: seq<Json>, fl: DumpFlags, depth: nat, rest: seq<Byte>, bad: bool,
      pf: ParseFlags, done: seq<Json>)
    requires (forall e | e in es :: Proper(e)) && (exists e | e in es :: !Admits(e, pf)) && Follows(rest)
    ensures ElemsRefused(DumpElems(es, fl, depth) + ([0x5D] + rest), bad, pf, done)
    decreases es, 0
  {
    hide *;
    assert es != [] && es[0] in es && forall e | e in es[1..] :: e in es;
    var close := [0x5D] + rest;
    var text := DumpElems(es, fl, depth) + close;
    var more := DumpElems(es[1..], fl, depth) + close;
    var ws := Indent(fl, depth + 1, true);
    DumpElemsParts(es, fl, depth, close);
    TailFollows(fl, depth, 0x5D, rest, bad);
    CommaFollows(fl, depth + 1, more, bad);
    var tail := if |es| == 1 then Indent(fl, depth, false) + close else [0x2C] + (ws + more);
    if !Admits(es[0], pf) {
      ValueRefused(es[0], fl, depth + 1, tail, bad, pf);
      FirstElemRefused(text, bad, pf, done);
    } else {
      var e :| e in es && !Admits(e, pf);
      assert e in es[1..];
      ValueReads(es[0], fl, depth + 1, tail, bad, pf);
      ElemsTextRefused(es[1..], fl, depth, rest, bad, pf, done + [Normal(es[0], fl)]);
      MoreElemsRefused(text, Normal(es[0], fl), tail, ws, more, bad, pf, done);
    }
  }

  lemma {:induction false} ObjectTextRefused(fs: seq<Field>, fl: DumpFlags, depth: nat, rest: seq<Byte>, bad: bool,
      pf: ParseFlags)
    requires ProperFields(fs) && (exists f | f in fs :: !Admits(f.value, pf)) && Follows(rest)
    ensures Refused(Dump(Obj(fs), fl, depth) + rest, bad, pf)
    decreases Obj(fs), 0
  {
    hide *;
    var f :| f in fs && !Admits(f.value, pf);
    var os := Ordered(fs, fl);
    NormalObject(fs, fl);
    OrderedMembers(fs, fl);
    OrderedProper(fs, fl);
    assert f in os;
    var more := DumpFields(Obj(fs), os, fl, depth) + ([0x7D] + rest);
    var ws := Indent(fl, depth + 1, false);
    DumpObject(fs, fl, depth, rest);
    OpenFollows(fl, depth + 1, 0x7B, more, bad);
    FieldsTextRefused(Obj(fs), os, fl, depth, rest, bad, pf, [], 0);
    ObjectRefused([0x7B] + (ws + more), ws, more, bad, pf);
  }

  lemma {:induction false} FieldsTextRefused(v: Json, fs: seq<Field>, fl: DumpFlags, depth: nat, rest: seq<Byte>,
      bad: bool, pf: ParseFlags, done: seq<Field>, serial: nat)
    requires (forall f | f in fs :: f.value < v) && ProperFields(fs) && Follows(rest)
    requires exists f | f in fs :: !Admits(f.value, pf)
    requires forall f, g | f in fs && g in done :: f.key != g.key
    ensures FieldsRefused(DumpFields(v, fs, fl, depth) + ([0x7D] + rest), bad, pf, done, serial)
    decreases v, 0, |fs|
  {
    hide *;
    var culprit :| culprit in fs && !Admits(culprit.value, pf);
    assert fs[0] in fs;
    ProperFirst(fs);
    var f := fs[0];
    var close := [0x7D] + rest;
    var text := DumpFields(v, fs, fl, depth) + close;
    var more := DumpFields(v, fs[1..], fl, depth) + close;
    var ws := Indent(fl, depth + 1, true);
    DumpFieldsParts(v, fs, fl, depth, close);
    TailFollows(fl, depth, 0x7D, rest, bad);
    CommaFollows(fl, depth + 1, more, bad);
    var tail := if |fs| == 1 then Indent(fl, depth, false) + close else [0x2C] + (ws + more);
    if !Admits(f.value, pf) {
      FieldTextRefused(v, f, fl, depth, tail, bad, pf, done, serial);
    } else {
      assert culprit in fs[1..];
      var w := Field(f.key, serial, Normal(f.value, fl));
      FieldReads(v, f, fl, depth, tail, bad, pf, done, serial);
      FieldsTextRefused(v, fs[1..], fl, depth, rest, bad, pf, done + [w], serial + 1);
      MoreFieldsRefused(text, w, tail, ws, more, bad, pf, done, serial);
    }
  }

  lemma {:induction false} FieldTextRefused(v: Json, f: Field, fl: DumpFlags, depth: nat, tail: seq<Byte>, bad: bool,
      pf: ParseFlags, done: seq<Field>, serial: nat)
    requires f.value < v && Valid(f.key) && Proper(f.value) && !Admits(f.value, pf) && Follows(tail)
    ensures FieldsRefused(DumpString(f.key, fl) + (Separator(fl) + (Dump(f.value, fl, depth + 1) + tail)), bad, pf,
                          done, serial)
    decreases v, 0, 0
  {
    hide *;
    var value := Dump(f.value, fl, depth + 1) + tail;
    var sep := Separator(fl) + value;
    ScanStringToken(f.key, fl, sep, bad);
    SeparatorReads(fl, value, bad);
    ValueRefused(f.value, fl, depth + 1, tail, bad, pf);
    FieldValueRefused(DumpString(f.key, fl) + sep, f.key, sep, value, bad, pf, done, serial);
  }

  /** A dump of anything but an array or an object is refused when the flags do not allow it. */
  lemma ScalarText(v: Json, fl: DumpFlags, pf: ParseFlags)
    requires Proper(v) && !v.Arr? && !v.Obj?
    ensures var token := Scan(Dump(v, fl, 0), false).0; token != Punct(0x5B) && token != Punct(0x7B)
  {
    var text := Dump(v, fl, 0);
    assert text + [] == text;
    match v
    case Null => ScanWord([0x6E, 0x75, 0x6C, 0x6C], [], false);
    case True => ScanWord([0x74, 0x72, 0x75, 0x65], [], false);
    case False => ScanWord([0x66, 0x61, 0x6C, 0x73, 0x65], [], false);
    case Integer(i) => ScanInteger(i, [], false);
    case Str(s) => ScanStringToken(s, fl, [], false);
  }
}
