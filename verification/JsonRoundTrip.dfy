/**
 Reading what was written: the parser of libjansson/jansson-2.7/src/load.c takes the output of
 libjansson/jansson-2.7/src/dump.c back to an equal value.
 */
module JsonRoundTrip {

  import opened JsonUtf8
  import opened JsonString
  import opened JsonValue
  import opened JsonParser

  // ---- Tokens ----

  /** What can follow a value in a text. */
  ghost predicate Follows(rest: seq<Byte>) {
    rest == [] || rest[0] == 0x2C || rest[0] == 0x5D || rest[0] == 0x7D || IsSpace(rest[0])
  }

  lemma {:induction false} SkipsSpaces(ws: seq<Byte>, more: seq<Byte>)
    requires forall c | c in ws :: IsSpace(c)
    ensures SkipSpaces(ws + more) == SkipSpaces(more)
  {
    if ws == [] {
      assert ws + more == more;
    } else {
      assert ws[0] in ws && (ws + more)[0] == ws[0] && (ws + more)[1..] == ws[1..] + more;
      SkipsSpaces(ws[1..], more);
    }
  }

  lemma ScanSpaces(ws: seq<Byte>, more: seq<Byte>, bad: bool)
    requires forall c | c in ws :: IsSpace(c)
    ensures Scan(ws + more, bad) == Scan(more, bad)
  {
    SkipsSpaces(ws, more);
  }

  lemma IndentIsSpace(fl: DumpFlags, depth: nat, space: bool)
    ensures forall c | c in Indent(fl, depth, space) :: IsSpace(c)
    ensures fl.indent > 0 ==> Indent(fl, depth, space) != [] && Indent(fl, depth, space)[0] == 0x0A
    ensures fl.indent == 0 && !space ==> Indent(fl, depth, space) == []
  {
  }

  lemma ScanPunct(c: Byte, more: seq<Byte>, bad: bool)
    requires IsPunct(c)
    ensures Scan([c] + more, bad) == (Punct(c), more)
  {
    assert ([c] + more)[0] == c && ([c] + more)[1..] == more;
  }

  lemma {:induction false} CountsDigits(d: seq<Byte>, more: seq<Byte>)
    requires forall c | c in d :: IsDigit(c)
    requires more == [] || !IsDigit(more[0])
    ensures CountDigits(d + more) == |d|
  {
    if d == [] {
      assert d + more == more;
    } else {
      assert d[0] in d && (d + more)[0] == d[0] && (d + more)[1..] == d[1..] + more;
      CountsDigits(d[1..], more);
    }
  }

  lemma {:induction false} DigitsRead(n: nat)
    ensures forall c | c in Digits(n) :: IsDigit(c)
    ensures Number(Digits(n)) == n
    ensures n >= 10 ==> Digits(n)[0] != 0x30
  {
    if n < 10 {
      assert Digits(n)[..0] == [];
    } else {
      DigitsRead(n / 10);
      var d: Byte := 0x30 + n % 10;
      assert Digits(n) == Digits(n / 10) + [d];
      assert Digits(n)[..|Digits(n)| - 1] == Digits(n / 10);
    }
  }

  lemma WholeReads(n: nat, rest: seq<Byte>)
    requires Follows(rest)
    ensures WholeDigits(Digits(n) + rest) == |Digits(n)|
  {
    DigitsRead(n);
    CountsDigits(Digits(n), rest);
    assert Digits(n)[0] in Digits(n) && (Digits(n) + rest)[0] == Digits(n)[0];
    if n < 10 && rest != [] {
      assert (Digits(n) + rest)[1] == rest[0];
    }
  }

  lemma UngetFollows(rest: seq<Byte>)
    requires Follows(rest)
    ensures Unget(rest) == rest
  {
  }

  /** A number that is neither a fraction nor has an exponent. */
  lemma ReadsWhole(s: seq<Byte>, sign: nat, d: seq<Byte>, rest: seq<Byte>)
    requires s == (if sign == 1 then [0x2D] else []) + d + rest && sign <= 1
    requires d != [] && (forall c | c in d :: IsDigit(c)) && Follows(rest) && WholeDigits(d + rest) == |d|
    requires IntegerOf(sign == 1, d) != InvalidToken
    ensures s != [] && (IsDigit(s[0]) || s[0] == 0x2D)
    ensures ScanNumber(s) == (IntegerOf(sign == 1, d), rest)
  {
    UngetFollows(rest);
    SignSplits(s, sign, d, rest);
    assert rest == [] || (rest[0] != 0x2E && rest[0] != 0x45 && rest[0] != 0x65);
    hide WholeDigits, IntegerOf, Unget, Fraction, Exponent, Follows;
  }

  lemma SignSplits(s: seq<Byte>, sign: nat, d: seq<Byte>, rest: seq<Byte>)
    requires s == (if sign == 1 then [0x2D] else []) + d + rest && sign <= 1
    requires d != [] && forall c | c in d :: IsDigit(c)
    ensures s != [] && (if s[0] == 0x2D then 1 else 0) == sign && (IsDigit(s[0]) || s[0] == 0x2D)
    ensures |s| >= sign + |d| && s[sign..] == d + rest && s[sign + |d|..] == rest && s[sign..][..|d|] == d
    ensures (|s| == sign + |d| <==> rest == []) && (rest != [] ==> s[sign + |d|] == rest[0])
  {
    assert d[0] in d && s[sign] == d[0];
  }

  lemma ScanInteger(i: int, rest: seq<Byte>, bad: bool)
    requires INT_MIN <= i <= INT_MAX && Follows(rest)
    ensures Scan(DumpInteger(i) + rest, bad) == (IntegerToken(i), rest)
  {
    var m := if i < 0 then -i else i;
    var s := DumpInteger(i) + rest;
    WholeReads(m, rest);
    DigitsRead(m);
    hide Digits, WholeDigits, Number, Unget, ScanNumber, Follows;
    assert s == (if i < 0 then [0x2D] else []) + Digits(m) + rest;
    ReadsWhole(s, if i < 0 then 1 else 0, Digits(m), rest);
    NumberToken(s, bad);
  }

  lemma NumberToken(s: seq<Byte>, bad: bool)
    requires s != [] && (IsDigit(s[0]) || s[0] == 0x2D)
    ensures Scan(s, bad) == ScanNumber(s)
  {
    hide ScanNumber;
  }

  lemma ScanStringToken(s: seq<Byte>, fl: DumpFlags, rest: seq<Byte>, bad: bool)
    requires Valid(s)
    ensures Scan(DumpString(s, fl) + rest, bad) == (StringToken(s), rest)
  {
    StringRoundTrip(s, fl, rest);
    hide DumpString, ScanString, Valid;
    assert (DumpString(s, fl) + rest)[0] == QUOTE;
  }

  lemma {:induction false} CountsAlphas(word: seq<Byte>, rest: seq<Byte>)
    requires (forall c | c in word :: IsAlpha(c)) && (rest == [] || !IsAlpha(rest[0]))
    ensures CountAlphas(word + rest) == |word|
  {
    if word == [] {
      assert word + rest == rest;
    } else {
      assert word[0] in word && (word + rest)[0] == word[0] && (word + rest)[1..] == word[1..] + rest;
      CountsAlphas(word[1..], rest);
    }
  }

  lemma ScanWord(word: seq<Byte>, rest: seq<Byte>, bad: bool)
    requires (forall c | c in word :: IsAlpha(c)) && word != [] && Identifier(word) != InvalidToken
    requires (rest == [] || !IsAlpha(rest[0])) && Unget(rest) == rest
    ensures Scan(word + rest, bad) == (Identifier(word), rest)
  {
    CountsAlphas(word, rest);
    hide CountAlphas, Unget, Identifier;
    var s := word + rest;
    assert word[0] in word && s[0] == word[0] && s[..|word|] == word && s[|word|..] == rest;
    assert !IsSpace(s[0]) && !IsPunct(s[0]) && s[0] != QUOTE && !IsDigit(s[0]) && s[0] != 0x2D;
  }

  // ---- The value that is read ----

  /** The value with its objects in the order in which they are written. */
  function Normal(v: Json, fl: DumpFlags): Json
    decreases v, 1
  {
    match v
    case Arr(es) => Arr(NormalElems(es, fl))
    case Obj(fs) =>
      OrderedMembers(fs, fl);
      Obj(NormalFields(v, Ordered(fs, fl), fl, 0))
    case _ => v
  }

  function NormalElems(es: seq<Json>, fl: DumpFlags): (r: seq<Json>)
    ensures |r| == |es|
    decreases es, 0
  {
    if es == [] then [] else [Normal(es[0], fl)] + NormalElems(es[1..], fl)
  }

  function NormalFields(ghost v: Json, fs: seq<Field>, fl: DumpFlags, serial: nat): (r: seq<Field>)
    requires forall f | f in fs :: f.value < v
    ensures |r| == |fs| && forall i | 0 <= i < |fs| :: r[i].key == fs[i].key
    decreases v, 0, |fs|
  {
    if fs == [] then []
    else [Field(fs[0].key, serial, Normal(fs[0].value, fl))] + NormalFields(v, fs[1..], fl, serial + 1)
  }

  // ---- The loops of the parser, one round at a time ----

  /** A token with which a value begins. */
  ghost predicate Begins(token: Token) {
    token != EofToken && token != InvalidToken && token != Punct(0x5D) && token != Punct(0x7D)
  }

  /** The text is read as that value, and the rest is left. */
  ghost predicate ReadAs(text: seq<Byte>, v: Json, rest: seq<Byte>, bad: bool, pf: ParseFlags) {
    && Begins(Scan(text, bad).0)
    && ParseValue(Scan(text, bad).0, Scan(text, bad).1, bad, pf) == Some((v, rest))
  }

  /** The text is read as the remaining elements of an array. */
  ghost predicate ElemsReadAs(text: seq<Byte>, es: seq<Json>, rest: seq<Byte>, bad: bool, pf: ParseFlags,
      done: seq<Json>)
  {
    && Begins(Scan(text, bad).0)
    && ParseElems(Scan(text, bad).0, Scan(text, bad).1, bad, pf, done) == Some((Arr(done + es), rest))
  }

  /** The text is read as the remaining fields of an object. */
  ghost predicate FieldsReadAs(text: seq<Byte>, fs: seq<Field>, rest: seq<Byte>, bad: bool, pf: ParseFlags,
      done: seq<Field>, serial: nat)
  {
    && Scan(text, bad).0.StringToken?
    && ParseFields(Scan(text, bad).0, Scan(text, bad).1, bad, pf, done, serial) == Some((Obj(done + fs), rest))
  }

  lemma ElemsLast(text: seq<Byte>, w: Json, tail: seq<Byte>, rest: seq<Byte>, bad: bool, pf: ParseFlags,
      done: seq<Json>)
    requires ReadAs(text, w, tail, bad, pf) && Scan(tail, bad) == (Punct(0x5D), rest)
    ensures ElemsReadAs(text, [w], rest, bad, pf, done)
  {
    hide Scan, ParseValue;
  }

  lemma ElemsMore(text: seq<Byte>, w: Json, tail: seq<Byte>, ws: seq<Byte>, more: seq<Byte>, es: seq<Json>,
      rest: seq<Byte>, bad: bool, pf: ParseFlags, done: seq<Json>)
    requires ReadAs(text, w, tail, bad, pf) && Scan(tail, bad) == (Punct(0x2C), ws + more)
        && Scan(ws + more, bad) == Scan(more, bad)
    requires ElemsReadAs(more, es, rest, bad, pf, done + [w])
    ensures ElemsReadAs(text, [w] + es, rest, bad, pf, done)
  {
    hide Scan, ParseValue;
    assert done + ([w] + es) == done + [w] + es;
  }

  lemma ArrayBegins(text: seq<Byte>, ws: seq<Byte>, more: seq<Byte>, es: seq<Json>, rest: seq<Byte>, bad: bool,
      pf: ParseFlags)
    requires Scan(text, bad) == (Punct(0x5B), ws + more) && Scan(ws + more, bad) == Scan(more, bad)
    requires ElemsReadAs(more, es, rest, bad, pf, [])
    ensures ReadAs(text, Arr(es), rest, bad, pf)
  {
    hide Scan, ParseElems;
    assert [] + es == es;
    assert ParseArray(ws + more, bad, pf) == Some((Arr(es), rest));
  }

  lemma FieldsStep(text: seq<Byte>, key: seq<Byte>, sep: seq<Byte>, value: seq<Byte>, w: Json, tail: seq<Byte>,
      bad: bool, pf: ParseFlags, done: seq<Field>, serial: nat)
    requires 0 !in key && (forall g | g in done :: g.key != key) && Scan(text, bad) == (StringToken(key), sep)
    requires Scan(sep, bad).0 == Punct(0x3A) && Scan(Scan(sep, bad).1, bad) == Scan(value, bad)
    requires ReadAs(value, w, tail, bad, pf)
    ensures var all := done + [Field(key, serial, w)];
            ParseFields(Scan(text, bad).0, Scan(text, bad).1, bad, pf, done, serial) ==
              if Scan(tail, bad).0 == Punct(0x7D) then Some((Obj(all), Scan(tail, bad).1))
              else if Scan(tail, bad).0 != Punct(0x2C) then None
              else
                var (t, s) := Scan(Scan(tail, bad).1, bad);
                ParseFields(t, s, bad, pf, all, serial + 1)
  {
    hide Scan, ParseValue;
    assert FindField(done, key).None?;
  }

  lemma ObjectBegins(text: seq<Byte>, ws: seq<Byte>, more: seq<Byte>, fs: seq<Field>, rest: seq<Byte>, bad: bool,
      pf: ParseFlags)
    requires Scan(text, bad) == (Punct(0x7B), ws + more) && Scan(ws + more, bad) == Scan(more, bad)
    requires FieldsReadAs(more, fs, rest, bad, pf, [], 0)
    ensures ReadAs(text, Obj(fs), rest, bad, pf)
  {
    hide Scan, ParseFields;
    assert [] + fs == fs;
    assert ParseObject(ws + more, bad, pf) == Some((Obj(fs), rest));
  }

  // ---- How a dump is put together ----

  lemma DumpArray(es: seq<Json>, fl: DumpFlags, depth: nat, rest: seq<Byte>)
    requires es != []
    ensures Dump(Arr(es), fl, depth) + rest
        == [0x5B] + (Indent(fl, depth + 1, false) + (DumpElems(es, fl, depth) + ([0x5D] + rest)))
  {
    hide Indent, DumpElems;
  }

  lemma DumpElemsParts(es: seq<Json>, fl: DumpFlags, depth: nat, rest: seq<Byte>)
    requires es != []
    ensures |es| == 1 ==>
              DumpElems(es, fl, depth) + rest == Dump(es[0], fl, depth + 1) + (Indent(fl, depth, false) + rest)
    ensures |es| > 1 ==>
              DumpElems(es, fl, depth) + rest
                == Dump(es[0], fl, depth + 1)
                    + ([0x2C] + (Indent(fl, depth + 1, true) + (DumpElems(es[1..], fl, depth) + rest)))
  {
    hide Indent, Dump;
  }

  lemma DumpObject(fs: seq<Field>, fl: DumpFlags, depth: nat, rest: seq<Byte>)
    requires fs != []
    ensures forall f | f in Ordered(fs, fl) :: f.value < Obj(fs)
    ensures Dump(Obj(fs), fl, depth) + rest
         == [0x7B] + (Indent(fl, depth + 1, false)
             + (DumpFields(Obj(fs), Ordered(fs, fl), fl, depth) + ([0x7D] + rest)))
  {
    OrderedMembers(fs, fl);
    hide Indent, DumpFields, Ordered;
  }

  lemma DumpFieldsParts(v: Json, fs: seq<Field>, fl: DumpFlags, depth: nat, rest: seq<Byte>)
    requires (forall f | f in fs :: f.value < v) && fs != []
    ensures var value := Dump(fs[0].value, fl, depth + 1);
            var key := DumpString(fs[0].key, fl);
            && (|fs| == 1 ==>
                  DumpFields(v, fs, fl, depth) + rest
                      == key + (Separator(fl) + (value + (Indent(fl, depth, false) + rest))))
            && (|fs| > 1 ==>
                  DumpFields(v, fs, fl, depth) + rest
                    == key + (Separator(fl)
                        + (value + ([0x2C] + (Indent(fl, depth + 1, true)
                        + (DumpFields(v, fs[1..], fl, depth) + rest))))))
  {
    hide Indent, Dump, DumpString, Separator;
  }

  lemma TailFollows(fl: DumpFlags, depth: nat, close: Byte, rest: seq<Byte>, bad: bool)
    requires close == 0x5D || close == 0x7D
    ensures Follows(Indent(fl, depth, false) + ([close] + rest))
    ensures Scan(Indent(fl, depth, false) + ([close] + rest), bad) == (Punct(close), rest)
  {
    IndentIsSpace(fl, depth, false);
    ScanSpaces(Indent(fl, depth, false), [close] + rest, bad);
    ScanPunct(close, rest, bad);
    assert fl.indent == 0 ==> Indent(fl, depth, false) + ([close] + rest) == [close] + rest;
  }

  lemma CommaFollows(fl: DumpFlags, depth: nat, more: seq<Byte>, bad: bool)
    ensures Follows([0x2C] + (Indent(fl, depth, true) + more))
    ensures Scan([0x2C] + (Indent(fl, depth, true) + more), bad) == (Punct(0x2C), Indent(fl, depth, true) + more)
    ensures Scan(Indent(fl, depth, true) + more, bad) == Scan(more, bad)
  {
    IndentIsSpace(fl, depth, true);
    ScanPunct(0x2C, Indent(fl, depth, true) + more, bad);
    ScanSpaces(Indent(fl, depth, true), more, bad);
  }

  lemma OpenFollows(fl: DumpFlags, depth: nat, open: Byte, more: seq<Byte>, bad: bool)
    requires open == 0x5B || open == 0x7B
    ensures Scan([open] + (Indent(fl, depth, false) + more), bad) == (Punct(open), Indent(fl, depth, false) + more)
    ensures Scan(Indent(fl, depth, false) + more, bad) == Scan(more, bad)
  {
    IndentIsSpace(fl, depth, false);
    ScanPunct(open, Indent(fl, depth, false) + more, bad);
    ScanSpaces(Indent(fl, depth, false), more, bad);
  }

  lemma OrderedKeys(fs: seq<Field>, fl: DumpFlags)
    requires DistinctKeys(fs)
    ensures DistinctKeys(Ordered(fs, fl))
  {
    OrderedHolds(fs, fl);
    var os := Ordered(fs, fl);
    forall i, j | 0 <= i < j < |os|
      ensures os[i].key != os[j].key
    {
      if os[i].key == os[j].key {
        SameKeySameField(fs, os, i, j);
      }
    }
  }

  lemma SameKeySameField(fs: seq<Field>, os: seq<Field>, i: nat, j: nat)
    requires DistinctKeys(fs) && multiset(os) == multiset(fs) && i < j < |os|
    ensures os[i].key != os[j].key
  {
    var f, g := os[i], os[j];
    assert f in multiset(os) && g in multiset(os);
    var a :| 0 <= a < |fs| && fs[a] == f;
    var b :| 0 <= b < |fs| && fs[b] == g;
    if f.key == g.key {
      assert a == b;
      OnceOnly(fs, a);
      TwiceAtLeast(os, i, j);
    }
  }

  lemma OnceOnly(fs: seq<Field>, a: nat)
    requires DistinctKeys(fs) && a < |fs|
    ensures multiset(fs)[fs[a]] == 1
  {
    assert fs == fs[..a] + [fs[a]] + fs[a + 1..];
    assert fs[a] !in fs[..a] && fs[a] !in fs[a + 1..];
    assert multiset(fs) == multiset(fs[..a]) + multiset{fs[a]} + multiset(fs[a + 1..]);
  }

  lemma TwiceAtLeast(os: seq<Field>, i: nat, j: nat)
    requires i < j < |os| && os[i] == os[j]
    ensures multiset(os)[os[i]] >= 2
  {
    assert os == os[..j] + os[j..];
    assert os[..j][i] == os[i] && os[j..][0] == os[i];
    assert multiset(os) == multiset(os[..j]) + multiset(os[j..]);
    assert os[i] in multiset(os[..j]) && os[i] in multiset(os[j..]);
  }

  lemma SeparatorReads(fl: DumpFlags, more: seq<Byte>, bad: bool)
    ensures Scan(Separator(fl) + more, bad).0 == Punct(0x3A)
    ensures Scan(Scan(Separator(fl) + more, bad).1, bad) == Scan(more, bad)
  {
    var ws: seq<Byte> := if fl.compact then [] else [0x20];
    assert Separator(fl) + more == [0x3A] + (ws + more);
    ScanPunct(0x3A, ws + more, bad);
    ScanSpaces(ws, more, bad);
  }

  // ---- The round trip ----

  /** Strings with a NUL are read only if the flag allows them. */
  ghost predicate Admits(v: Json, pf: ParseFlags) {
    pf.allowNul || NulFree(v)
  }

  lemma {:induction false} ValueReads(v: Json, fl: DumpFlags, depth: nat, rest: seq<Byte>, bad: bool, pf: ParseFlags)
    requires Proper(v) && Admits(v, pf) && Follows(rest)
    ensures ReadAs(Dump(v, fl, depth) + rest, Normal(v, fl), rest, bad, pf)
    decreases v, 1
  {
    UngetFollows(rest);
    match v
    case Null => ScanWord([0x6E, 0x75, 0x6C, 0x6C], rest, bad);
    case True => ScanWord([0x74, 0x72, 0x75, 0x65], rest, bad);
    case False => ScanWord([0x66, 0x61, 0x6C, 0x73, 0x65], rest, bad);
    case Integer(i) => ScanInteger(i, rest, bad);
    case Real(_) =>
    case Str(s) => ScanStringToken(s, fl, rest, bad);
    case Arr(es) => ArrayReads(es, fl, depth, rest, bad, pf);
    case Obj(fs) => ObjectReads(fs, fl, depth, rest, bad, pf);
  }

  lemma EmptyReads(fl: DumpFlags, depth: nat, rest: seq<Byte>, bad: bool, pf: ParseFlags)
    ensures ReadAs(Dump(Arr([]), fl, depth) + rest, Normal(Arr([]), fl), rest, bad, pf)
    ensures ReadAs(Dump(Obj([]), fl, depth) + rest, Normal(Obj([]), fl), rest, bad, pf)
  {
    assert [0x5B, 0x5D] + rest == [0x5B] + ([0x5D] + rest) && [0x7B, 0x7D] + rest == [0x7B] + ([0x7D] + rest);
    ScanPunct(0x5B, [0x5D] + rest, bad);
    ScanPunct(0x5D, rest, bad);
    ScanPunct(0x7B, [0x7D] + rest, bad);
    ScanPunct(0x7D, rest, bad);
    hide Scan;
    assert Ordered([], fl) == [];
    assert ParseArray([0x5D] + rest, bad, pf) == Some((Arr([]), rest));
    assert ParseObject([0x7D] + rest, bad, pf) == Some((Obj([]), rest));
  }

  lemma {:induction false} ArrayReads(es: seq<Json>, fl: DumpFlags, depth: nat, rest: seq<Byte>, bad: bool,
      pf: ParseFlags)
    requires (forall e | e in es :: Proper(e) && Admits(e, pf)) && Follows(rest)
    ensures ReadAs(Dump(Arr(es), fl, depth) + rest, Normal(Arr(es), fl), rest, bad, pf)
    decreases es, 1
  {
    assert Normal(Arr(es), fl) == Arr(NormalElems(es, fl));
    hide *;
    if es == [] {
      EmptyReads(fl, depth, rest, bad, pf);
    } else {
      var more := DumpElems(es, fl, depth) + ([0x5D] + rest);
      var ws := Indent(fl, depth + 1, false);
      DumpArray(es, fl, depth, rest);
      OpenFollows(fl, depth + 1, 0x5B, more, bad);
      ElemsRead(es, fl, depth, rest, bad, pf, []);
      ArrayBegins([0x5B] + (ws + more), ws, more, NormalElems(es, fl), rest, bad, pf);
    }
  }

  lemma NormalElemsCons(es: seq<Json>, fl: DumpFlags)
    requires es != []
    ensures NormalElems(es, fl) == [Normal(es[0], fl)] + NormalElems(es[1..], fl)
    ensures |es| == 1 ==> NormalElems(es, fl) == [Normal(es[0], fl)]
  {
  }

  lemma {:induction false} ElemsRead(es: seq<Json>, fl: DumpFlags, depth: nat, rest: seq<Byte>, bad: bool,
      pf: ParseFlags, done: seq<Json>)
    requires es != [] && (forall e | e in es :: Proper(e) && Admits(e, pf)) && Follows(rest)
    ensures ElemsReadAs(DumpElems(es, fl, depth) + ([0x5D] + rest), NormalElems(es, fl), rest, bad, pf, done)
    decreases es, 0
  {
    hide *;
    assert es[0] in es && forall e | e in es[1..] :: e in es;
    var close := [0x5D] + rest;
    var text := DumpElems(es, fl, depth) + close;
    var w := Normal(es[0], fl);
    DumpElemsParts(es, fl, depth, close);
    NormalElemsCons(es, fl);
    if |es| == 1 {
      var tail := Indent(fl, depth, false) + close;
      TailFollows(fl, depth, 0x5D, rest, bad);
      ValueReads(es[0], fl, depth + 1, tail, bad, pf);
      ElemsLast(text, w, tail, rest, bad, pf, done);
    } else {
      var more := DumpElems(es[1..], fl, depth) + close;
      var ws := Indent(fl, depth + 1, true);
      var tail := [0x2C] + (ws + more);
      CommaFollows(fl, depth + 1, more, bad);
      ValueReads(es[0], fl, depth + 1, tail, bad, pf);
      ElemsRead(es[1..], fl, depth, rest, bad, pf, done + [w]);
      ElemsMore(text, w, tail, ws, more, NormalElems(es[1..], fl), rest, bad, pf, done);
    }
  }

  ghost predicate ProperFields(fs: seq<Field>) {
    DistinctKeys(fs) && forall f | f in fs :: Valid(f.key) && 0 !in f.key && Proper(f.value)
  }

  lemma NormalObject(fs: seq<Field>, fl: DumpFlags)
    ensures forall f | f in Ordered(fs, fl) :: f.value < Obj(fs)
    ensures Normal(Obj(fs), fl) == Obj(NormalFields(Obj(fs), Ordered(fs, fl), fl, 0))
  {
    OrderedMembers(fs, fl);
  }

  lemma OrderedProper(fs: seq<Field>, fl: DumpFlags)
    requires ProperFields(fs) && fs != []
    ensures ProperFields(Ordered(fs, fl)) && Ordered(fs, fl) != []
  {
    OrderedMembers(fs, fl);
    OrderedKeys(fs, fl);
    hide Ordered;
  }

  lemma {:induction false} ObjectReads(fs: seq<Field>, fl: DumpFlags, depth: nat, rest: seq<Byte>, bad: bool,
      pf: ParseFlags)
    requires ProperFields(fs) && (forall f | f in fs :: Admits(f.value, pf)) && Follows(rest)
    ensures ReadAs(Dump(Obj(fs), fl, depth) + rest, Normal(Obj(fs), fl), rest, bad, pf)
    decreases Obj(fs), 0
  {
    hide *;
    if fs == [] {
      EmptyReads(fl, depth, rest, bad, pf);
    } else {
      var os := Ordered(fs, fl);
      NormalObject(fs, fl);
      OrderedMembers(fs, fl);
      OrderedProper(fs, fl);
      var more := DumpFields(Obj(fs), os, fl, depth) + ([0x7D] + rest);
      var ws := Indent(fl, depth + 1, false);
      DumpObject(fs, fl, depth, rest);
      OpenFollows(fl, depth + 1, 0x7B, more, bad);
      FieldsRead(Obj(fs), os, fl, depth, rest, bad, pf, [], 0);
      ObjectBegins([0x7B] + (ws + more), ws, more, NormalFields(Obj(fs), os, fl, 0), rest, bad, pf);
    }
  }

  lemma NormalFieldsCons(v: Json, fs: seq<Field>, fl: DumpFlags, serial: nat)
    requires fs != [] && forall f | f in fs :: f.value < v
    ensures var w := Field(fs[0].key, serial, Normal(fs[0].value, fl));
            && NormalFields(v, fs, fl, serial) == [w] + NormalFields(v, fs[1..], fl, serial + 1)
            && (|fs| == 1 ==> NormalFields(v, fs, fl, serial) == [w])
  {
  }

  lemma ProperFirst(fs: seq<Field>)
    requires ProperFields(fs) && fs != []
    ensures Valid(fs[0].key) && 0 !in fs[0].key && Proper(fs[0].value)
    ensures ProperFields(fs[1..]) && forall f | f in fs[1..] :: f in fs && f.key != fs[0].key
  {
    assert fs[0] in fs;
  }

  lemma {:induction false} FieldsRead(v: Json, fs: seq<Field>, fl: DumpFlags, depth: nat, rest: seq<Byte>, bad: bool,
      pf: ParseFlags, done: seq<Field>, serial: nat)
    requires (forall f | f in fs :: f.value < v) && fs != [] && ProperFields(fs) && Follows(rest)
    requires forall f | f in fs :: Admits(f.value, pf)
    requires forall f, g | f in fs && g in done :: f.key != g.key
    ensures FieldsReadAs(DumpFields(v, fs, fl, depth) + ([0x7D] + rest), NormalFields(v, fs, fl, serial), rest, bad,
        pf, done, serial)
    decreases v, 0, |fs|
  {
    hide *;
    assert fs[0] in fs;
    ProperFirst(fs);
    var f := fs[0];
    var close := [0x7D] + rest;
    var text := DumpFields(v, fs, fl, depth) + close;
    var w := Field(f.key, serial, Normal(f.value, fl));
    DumpFieldsParts(v, fs, fl, depth, close);
    NormalFieldsCons(v, fs, fl, serial);
    if |fs| == 1 {
      var tail := Indent(fl, depth, false) + close;
      TailFollows(fl, depth, 0x7D, rest, bad);
      FieldReads(v, f, fl, depth, tail, bad, pf, done, serial);
      FieldsLast(text, w, tail, rest, bad, pf, done, serial);
    } else {
      var more := DumpFields(v, fs[1..], fl, depth) + close;
      var ws := Indent(fl, depth + 1, true);
      var tail := [0x2C] + (ws + more);
      CommaFollows(fl, depth + 1, more, bad);
      FieldReads(v, f, fl, depth, tail, bad, pf, done, serial);
      FieldsRead(v, fs[1..], fl, depth, rest, bad, pf, done + [w], serial + 1);
      FieldsMore(text, w, tail, ws, more, NormalFields(v, fs[1..], fl, serial + 1), rest, bad, pf, done, serial);
    }
  }

  /** One field is read, and the loop is where it decides on what follows. */
  ghost predicate FieldReadAs(text: seq<Byte>, w: Field, tail: seq<Byte>, bad: bool, pf: ParseFlags,
      done: seq<Field>, serial: nat)
  {
    && Scan(text, bad).0.StringToken?
    && ParseFields(Scan(text, bad).0, Scan(text, bad).1, bad, pf, done, serial) ==
         if Scan(tail, bad).0 == Punct(0x7D) then Some((Obj(done + [w]), Scan(tail, bad).1))
         else if Scan(tail, bad).0 != Punct(0x2C) then None
         else
           var (t, s) := Scan(Scan(tail, bad).1, bad);
           ParseFields(t, s, bad, pf, done + [w], serial + 1)
  }

  lemma {:induction false} FieldReads(v: Json, f: Field, fl: DumpFlags, depth: nat, tail: seq<Byte>, bad: bool,
      pf: ParseFlags, done: seq<Field>, serial: nat)
    requires f.value < v && Valid(f.key) && 0 !in f.key && Proper(f.value)
    requires Admits(f.value, pf) && Follows(tail)
    requires forall g | g in done :: g.key != f.key
    ensures FieldReadAs(DumpString(f.key, fl) + (Separator(fl) + (Dump(f.value, fl, depth + 1) + tail)),
                        Field(f.key, serial, Normal(f.value, fl)), tail, bad, pf, done, serial)
    decreases v, 0, 0
  {
    hide Scan, Dump, DumpString, Separator, ParseFields, ReadAs, Valid, Proper, Normal;
    var value := Dump(f.value, fl, depth + 1) + tail;
    var sep := Separator(fl) + value;
    ScanStringToken(f.key, fl, sep, bad);
    SeparatorReads(fl, value, bad);
    ValueReads(f.value, fl, depth + 1, tail, bad, pf);
    FieldsStep(DumpString(f.key, fl) + sep, f.key, sep, value, Normal(f.value, fl), tail, bad, pf, done, serial);
  }

  lemma FieldsLast(text: seq<Byte>, w: Field, tail: seq<Byte>, rest: seq<Byte>, bad: bool, pf: ParseFlags,
      done: seq<Field>, serial: nat)
    requires FieldReadAs(text, w, tail, bad, pf, done, serial) && Scan(tail, bad) == (Punct(0x7D), rest)
    ensures FieldsReadAs(text, [w], rest, bad, pf, done, serial)
  {
    hide Scan, ParseFields;
  }

  lemma FieldsMore(text: seq<Byte>, w: Field, tail: seq<Byte>, ws: seq<Byte>, more: seq<Byte>, fs: seq<Field>,
      rest: seq<Byte>, bad: bool, pf: ParseFlags, done: seq<Field>, serial: nat)
    requires FieldReadAs(text, w, tail, bad, pf, done, serial)
    requires Scan(tail, bad) == (Punct(0x2C), ws + more) && Scan(ws + more, bad) == Scan(more, bad)
    requires FieldsReadAs(more, fs, rest, bad, pf, done + [w], serial + 1)
    ensures FieldsReadAs(text, [w] + fs, rest, bad, pf, done, serial)
  {
    hide Scan, ParseFields;
    assert done + ([w] + fs) == done + [w] + fs;
  }
}
