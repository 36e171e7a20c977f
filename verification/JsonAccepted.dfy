/**
 What libjansson/jansson-2.7/src/load.c lets in: for every input that it accepts, the strings and keys of
 the value are UTF-8, keys are distinct C strings, integers have 64 bits. Without reals it can be
 printed and read again.
 */
module JsonAccepted {

  import opened JsonUtf8
  import opened JsonString
  import opened JsonValue
  import opened JsonParser
  import opened JsonStream
  import opened JsonTheorems

  /** `Proper`, but for reals, and with NUL in strings only if that is allowed. */
  ghost predicate Accepted(v: Json, nul: bool) {
    match v
    case Integer(i) => INT_MIN <= i <= INT_MAX
    case Str(s) => Valid(s) && (nul || 0 !in s)
    case Arr(es) => AllAccepted(es, nul)
    case Obj(fs) => FieldsAccepted(fs, nul)
    case _ => true
  }

  ghost predicate AllAccepted(es: seq<Json>, nul: bool) {
    forall i | 0 <= i < |es| :: Accepted(es[i], nul)
  }

  ghost predicate FieldsAccepted(fs: seq<Field>, nul: bool) {
    && DistinctKeys(fs)
    && forall i | 0 <= i < |fs| :: Valid(fs[i].key) && 0 !in fs[i].key && Accepted(fs[i].value, nul)
  }

  ghost predicate NoReals(v: Json) {
    match v
    case Real(_) => false
    case Arr(es) => forall e | e in es :: NoReals(e)
    case Obj(fs) => forall f | f in fs :: NoReals(f.value)
    case _ => true
  }

  lemma {:induction false} AcceptedIsProper(v: Json, nul: bool)
    requires Accepted(v, nul)
    ensures NoReals(v) ==> Proper(v)
    ensures nul || NulFree(v)
  {
    match v
    case Arr(es) =>
      forall e | e in es
        ensures (NoReals(e) ==> Proper(e)) && (nul || NulFree(e))
      {
        AcceptedIsProper(e, nul);
      }
    case Obj(fs) =>
      forall f | f in fs
        ensures (NoReals(f.value) ==> Proper(f.value)) && (nul || NulFree(f.value))
      {
        AcceptedIsProper(f.value, nul);
      }
    case _ =>
  }

  // ---- Valid text in pieces ----

  /** A valid text can be cut before any ASCII byte. */
  lemma {:induction false} CutBeforeAscii(s: seq<Byte>, n: nat)
    requires Valid(s) && n < |s| && s[n] < 0x80
    ensures Valid(s[..n]) && Valid(s[n..])
    decreases |s|
  {
    hide *;
    if n == 0 {
      NothingIsValid();
      assert s[..0] == [] && s[0..] == s;
    } else {
      var cp, count := DecodedFirst(s);
      AsciiIsFirst(s, n);
      var a, b := s[count..][..n - count], s[count..][n - count..];
      assert s[count..][n - count] == s[n];
      CutBeforeAscii(s[count..], n - count);
      PrefixValid(s, count);
      ValidConcat(s[..count], a);
      assert s[..n] == s[..count] + a && s[n..] == b;
    }
  }

  lemma NothingIsValid()
    ensures Valid([])
  {
  }

  /** An ASCII byte is not inside a character. */
  lemma AsciiIsFirst(s: seq<Byte>, n: nat)
    requires Iterate(s).Char? && 0 < n < |s| && s[n] < 0x80
    ensures Iterate(s).count <= n
  {
    if n < Iterate(s).count {
      IterateBytes(s, n);
    }
  }

  lemma CutAfterAscii(s: seq<Byte>, n: nat)
    requires Valid(s) && n < |s| && s[n] < 0x80
    ensures Valid(s[..n]) && Valid(s[n + 1..])
  {
    CutBeforeAscii(s, n);
    AsciiTail(s[n..], 1);
    assert s[n..][1..] == s[n + 1..];
  }

  /** What is scanned of a string in valid text is valid, and so is the rest: the decoded value of
      every string that is accepted. */
  lemma ScannedIsValid(s: seq<Byte>)
    requires Valid(s) && ScanString(s).Some?
    ensures Valid(ScanString(s).value.0) && Valid(ScanString(s).value.1)
  {
    var n := StringEnd(s).value;
    CutAfterAscii(s, n);
    DecodeIsValid(s[..n]);
  }

  lemma UngetIsValid(s: seq<Byte>)
    requires Valid(s)
    ensures Valid(Unget(s))
  {
    if s != [] && s[0] == 0 {
      AsciiTail(s, 1);
    }
  }

  lemma {:induction false} SkippedIsValid(s: seq<Byte>)
    requires Valid(s)
    ensures Valid(SkipSpaces(s))
  {
    if s != [] && IsSpace(s[0]) {
      AsciiTail(s, 1);
      SkippedIsValid(s[1..]);
    }
  }

  ghost predicate AsciiTo(s: seq<Byte>, n: nat) {
    n <= |s| && forall i | 0 <= i < n :: s[i] < 0x80
  }

  lemma AsciiOn(s: seq<Byte>, n: nat, m: nat)
    requires AsciiTo(s, n) && AsciiTo(s[n..], m)
    ensures AsciiTo(s, n + m) && s[n..][m..] == s[n + m..]
  {
    forall i | n <= i < n + m
      ensures s[i] < 0x80
    {
      assert s[i] == s[n..][i - n];
    }
  }

  lemma DigitsAscii(s: seq<Byte>)
    ensures AsciiTo(s, CountDigits(s)) && AsciiTo(s, WholeDigits(s))
  {
  }

  lemma FractionAscii(s: seq<Byte>)
    requires Fraction(s).Some?
    ensures AsciiTo(s, Fraction(s).value)
  {
    if s != [] && s[0] == 0x2E {
      DigitsAscii(s[1..]);
      AsciiOn(s, 1, CountDigits(s[1..]));
    }
  }

  lemma ExponentAscii(s: seq<Byte>)
    requires Exponent(s).Some?
    ensures AsciiTo(s, Exponent(s).value)
  {
    if s != [] && (s[0] == 0x45 || s[0] == 0x65) {
      var sign := if |s| > 1 && (s[1] == 0x2B || s[1] == 0x2D) then 1 else 0;
      DigitsAscii(s[1 + sign..]);
      AsciiOn(s, 1 + sign, CountDigits(s[1 + sign..]));
    }
  }

  lemma {:induction false} AlphasAscii(s: seq<Byte>)
    ensures AsciiTo(s, CountAlphas(s))
  {
    if s != [] && IsAlpha(s[0]) {
      AlphasAscii(s[1..]);
      AsciiOn(s, 1, CountAlphas(s[1..]));
    }
  }

  /** Where the text behind a number begins. */
  lemma NumberAscii(s: seq<Byte>) returns (n: nat)
    requires s != [] && (IsDigit(s[0]) || s[0] == 0x2D) && ScanNumber(s).0 != InvalidToken
    ensures AsciiTo(s, n) && ScanNumber(s).1 == Unget(s[n..])
  {
    hide *;
    var sign := SignAscii(s);
    var whole := WholeDigits(s[sign..]);
    DigitsAscii(s[sign..]);
    AsciiOn(s, sign, whole);
    n := sign + whole;
    AsciiFits(s, n);
    NumberEnds(s, sign, n);
    RealParts(s, n);
    if |s| > n && (s[n] == 0x2E || s[n] == 0x45 || s[n] == 0x65) {
      n := n + Fraction(s[n..]).value + Exponent(s[n + Fraction(s[n..]).value..]).value;
    }
  }

  lemma SignAscii(s: seq<Byte>) returns (sign: nat)
    requires s != [] && (IsDigit(s[0]) || s[0] == 0x2D)
    ensures sign == (if s[0] == 0x2D then 1 else 0) && sign <= |s| && AsciiTo(s, sign)
  {
    sign := if s[0] == 0x2D then 1 else 0;
  }

  lemma AsciiFits(s: seq<Byte>, n: nat)
    requires AsciiTo(s, n)
    ensures n <= |s|
  {
  }

  lemma NumberEnds(s: seq<Byte>, sign: nat, n: nat)
    requires s != [] && (IsDigit(s[0]) || s[0] == 0x2D) && ScanNumber(s).0 != InvalidToken
    requires sign == (if s[0] == 0x2D then 1 else 0) && n == sign + WholeDigits(s[sign..]) <= |s|
    ensures var more := |s| > n && (s[n] == 0x2E || s[n] == 0x45 || s[n] == 0x65);
            && (!more ==> ScanNumber(s).1 == Unget(s[n..]))
            && (more ==>
                  && Fraction(s[n..]).Some? && Exponent(s[n + Fraction(s[n..]).value..]).Some?
                  && var e := n + Fraction(s[n..]).value + Exponent(s[n + Fraction(s[n..]).value..]).value;
                     ScanNumber(s).1 == Unget(s[e..]))
  {
    hide WholeDigits, Fraction, Exponent, Unget, IntegerOf;
  }

  lemma RealParts(s: seq<Byte>, n: nat)
    requires AsciiTo(s, n)
    ensures Fraction(s[n..]).Some? ==>
              var f := Fraction(s[n..]).value;
              && n + f <= |s|
              && (Exponent(s[n + f..]).Some? ==> AsciiTo(s, n + f + Exponent(s[n + f..]).value))
  {
    if Fraction(s[n..]).Some? {
      var f := Fraction(s[n..]).value;
      FractionAscii(s[n..]);
      AsciiOn(s, n, f);
      if Exponent(s[n + f..]).Some? {
        ExponentAscii(s[n + f..]);
        AsciiOn(s, n + f, Exponent(s[n + f..]).value);
      }
    }
  }

  ghost predicate TokenAccepted(token: Token) {
    && (token.StringToken? ==> Valid(token.bytes))
    && (token.IntegerToken? ==> INT_MIN <= token.value <= INT_MAX)
  }

  lemma ScanIsValid(text: seq<Byte>, bad: bool)
    requires Valid(text)
    ensures TokenAccepted(Scan(text, bad).0) && Valid(Scan(text, bad).1)
  {
    var s := SkipSpaces(text);
    SkippedIsValid(text);
    if s != [] {
      if IsPunct(s[0]) {
        AsciiTail(s, 1);
      } else if s[0] == QUOTE {
        AsciiTail(s, 1);
        if ScanString(s[1..]).Some? {
          ScannedIsValid(s[1..]);
        }
      } else if IsDigit(s[0]) || s[0] == 0x2D {
        NumberIsValid(s);
      } else if IsAlpha(s[0]) {
        AlphasAscii(s);
        AsciiTail(s, CountAlphas(s));
        UngetIsValid(s[CountAlphas(s)..]);
      }
    }
  }

  lemma NumberIsValid(s: seq<Byte>)
    requires Valid(s) && s != [] && (IsDigit(s[0]) || s[0] == 0x2D)
    ensures TokenAccepted(ScanNumber(s).0) && Valid(ScanNumber(s).1)
  {
    if ScanNumber(s).0 != InvalidToken {
      var n := NumberAscii(s);
      hide ScanNumber;
      AsciiTail(s, n);
      UngetIsValid(s[n..]);
      IntegerTokens(s);
    }
  }

  lemma IntegerTokens(s: seq<Byte>)
    requires s != [] && (IsDigit(s[0]) || s[0] == 0x2D)
    ensures TokenAccepted(ScanNumber(s).0)
  {
    hide WholeDigits, Fraction, Exponent, Number;
  }

  // ---- Values ----

  lemma SetFieldAccepted(fs: seq<Field>, key: seq<Byte>, serial: nat, value: Json, nul: bool)
    requires FieldsAccepted(fs, nul) && Valid(key) && 0 !in key && Accepted(value, nul)
    ensures FieldsAccepted(SetField(fs, key, serial, value), nul)
  {
    hide Accepted, Valid;
  }

  ghost predicate ParsedAccepted(r: Parsed, nul: bool) {
    r.Some? ==> Accepted(r.value.0, nul) && Valid(r.value.1)
  }

  lemma {:induction false} ValueAccepted(token: Token, s: seq<Byte>, bad: bool, pf: ParseFlags)
    requires TokenAccepted(token) && Valid(s)
    ensures ParsedAccepted(ParseValue(token, s, bad, pf), pf.allowNul)
    decreases |s|, 2
  {
    if token == Punct(0x7B) {
      ObjectAccepted(s, bad, pf);
    } else if token == Punct(0x5B) {
      ArrayAccepted(s, bad, pf);
    }
  }

  lemma {:induction false} ArrayAccepted(s: seq<Byte>, bad: bool, pf: ParseFlags)
    requires Valid(s)
    ensures ParsedAccepted(ParseArray(s, bad, pf), pf.allowNul)
    decreases |s|, 1
  {
    var (token, rest) := Scan(s, bad);
    ScanIsValid(s, bad);
    if token != Punct(0x5D) && token != EofToken && token != InvalidToken {
      ElemsAccepted(token, rest, bad, pf, []);
    }
  }

  lemma {:induction false} ElemsAccepted(token: Token, s: seq<Byte>, bad: bool, pf: ParseFlags, done: seq<Json>)
    requires TokenAccepted(token) && Valid(s) && AllAccepted(done, pf.allowNul)
    ensures ParsedAccepted(ParseElems(token, s, bad, pf, done), pf.allowNul)
    decreases |s|, 3
  {
    ValueAccepted(token, s, bad, pf);
    if ParseValue(token, s, bad, pf).Some? {
      var (value, s1) := ParseValue(token, s, bad, pf).value;
      var (t1, s2) := Scan(s1, bad);
      ScanIsValid(s1, bad);
      ScanIsValid(s2, bad);
      assert AllAccepted(done + [value], pf.allowNul);
      if t1 == Punct(0x2C) && Scan(s2, bad).0 != EofToken {
        ElemsAccepted(Scan(s2, bad).0, Scan(s2, bad).1, bad, pf, done + [value]);
      }
    }
  }

  lemma {:induction false} ObjectAccepted(s: seq<Byte>, bad: bool, pf: ParseFlags)
    requires Valid(s)
    ensures ParsedAccepted(ParseObject(s, bad, pf), pf.allowNul)
    decreases |s|, 1
  {
    var (token, rest) := Scan(s, bad);
    ScanIsValid(s, bad);
    if token.StringToken? {
      ObjectFieldsAccepted(token, rest, bad, pf, [], 0);
    }
  }

  lemma {:induction false} ObjectFieldsAccepted(token: Token, s: seq<Byte>, bad: bool, pf: ParseFlags,
      done: seq<Field>, serial: nat)
    requires TokenAccepted(token) && Valid(s) && FieldsAccepted(done, pf.allowNul)
    ensures ParsedAccepted(ParseFields(token, s, bad, pf, done, serial), pf.allowNul)
    decreases |s|, 3
  {
    if token.StringToken? && 0 !in token.bytes && Scan(s, bad).0 == Punct(0x3A) {
      var s1 := Scan(s, bad).1;
      var (t2, s2) := Scan(s1, bad);
      ScanIsValid(s, bad);
      ScanIsValid(s1, bad);
      ValueAccepted(t2, s2, bad, pf);
      if ParseValue(t2, s2, bad, pf).Some? {
        var (value, s3) := ParseValue(t2, s2, bad, pf).value;
        var fields := SetField(done, token.bytes, serial, value);
        SetFieldAccepted(done, token.bytes, serial, value, pf.allowNul);
        var (t3, s4) := Scan(s3, bad);
        ScanIsValid(s3, bad);
        if t3 == Punct(0x2C) {
          ScanIsValid(s4, bad);
          ObjectFieldsAccepted(Scan(s4, bad).0, Scan(s4, bad).1, bad, pf, fields, serial + 1);
        }
      }
    }
  }

  /** Whatever `json_loadb` returns, for any bytes and any flags, has valid strings and keys, 64-bit
      integers, and distinct NUL-free keys; a NUL in a string and a value that is neither array nor
      object only if the flags allow them. */
  lemma LoadedIsAccepted(input: seq<Byte>, pf: ParseFlags)
    requires LoadBuffer(input, pf).Some?
    ensures var v := LoadBuffer(input, pf).value;
            && Accepted(v, pf.allowNul) && Loads(v, pf)
            && (NoReals(v) ==> Proper(v))
  {
    var n := Decodable(input);
    DecodableIsValid(input);
    ScanIsValid(input[..n], n < |input|);
    var (token, rest) := Scan(input[..n], n < |input|);
    ValueAccepted(token, rest, n < |input|, pf);
    if !pf.decodeAny {
      ContainerTokens(token, rest, n < |input|, pf);
    }
    hide Scan, ParseValue, Valid, Decodable;
    AcceptedIsProper(LoadBuffer(input, pf).value, pf.allowNul);
  }

  lemma ContainerTokens(token: Token, s: seq<Byte>, bad: bool, pf: ParseFlags)
    requires token == Punct(0x5B) || token == Punct(0x7B)
    ensures var r := ParseValue(token, s, bad, pf); r.Some? ==> r.value.0.Arr? || r.value.0.Obj?
  {
    var (t, rest) := Scan(s, bad);
    hide Scan, ParseElems, ParseFields;
    ElemsGiveArray(t, rest, bad, pf, []);
    FieldsGiveObject(t, rest, bad, pf, [], 0);
    var list, fields := ParseArray(s, bad, pf), ParseObject(s, bad, pf);
    assert list.Some? ==> list.value.0.Arr?;
    assert fields.Some? ==> fields.value.0.Obj?;
  }

  lemma {:induction false} ElemsGiveArray(token: Token, s: seq<Byte>, bad: bool, pf: ParseFlags, done: seq<Json>)
    ensures var r := ParseElems(token, s, bad, pf, done); r.Some? ==> r.value.0.Arr?
    decreases |s|
  {
    hide Scan, ParseValue;
    if ParseValue(token, s, bad, pf).Some? {
      var (value, s1) := ParseValue(token, s, bad, pf).value;
      var (t1, s2) := Scan(s1, bad);
      if t1 == Punct(0x2C) {
        ElemsGiveArray(Scan(s2, bad).0, Scan(s2, bad).1, bad, pf, done + [value]);
      }
    }
  }

  lemma {:induction false} FieldsGiveObject(token: Token, s: seq<Byte>, bad: bool, pf: ParseFlags,
      done: seq<Field>, serial: nat)
    ensures var r := ParseFields(token, s, bad, pf, done, serial); r.Some? ==> r.value.0.Obj?
    decreases |s|
  {
    hide Scan, ParseValue, SetField;
    if token.StringToken? && Scan(s, bad).0 == Punct(0x3A) {
      var (t2, s2) := Scan(Scan(s, bad).1, bad);
      if ParseValue(t2, s2, bad, pf).Some? {
        var (value, s3) := ParseValue(t2, s2, bad, pf).value;
        var (t3, s4) := Scan(s3, bad);
        if t3 == Punct(0x2C) {
          FieldsGiveObject(Scan(s4, bad).0, Scan(s4, bad).1, bad, pf,
            SetField(done, token.bytes, serial, value), serial + 1);
        }
      }
    }
  }

  // ---- What is read back as it was printed ----

  ghost predicate KeysDistinct(v: Json) {
    match v
    case Arr(es) => forall e | e in es :: KeysDistinct(e)
    case Obj(fs) => DistinctKeys(fs) && forall f | f in fs :: KeysDistinct(f.value)
    case _ => true
  }

  /** What equals an accepted value is proper, if it is an object of the API without reals at all. */
  lemma {:induction false} EqualIsProper(v: Json, w: Json, nul: bool)
    requires Equal(v, w) && Accepted(w, nul) && KeysDistinct(v) && NoReals(v)
    ensures Proper(v) && (nul || NulFree(v))
    decreases v
  {
    match v
    case Arr(es) =>
      forall e | e in es
        ensures Proper(e) && (nul || NulFree(e))
      {
        var i :| 0 <= i < |es| && es[i] == e;
        EqualIsProper(e, w.elems[i], nul);
      }
    case Obj(fs) =>
      forall f | f in fs
        ensures Valid(f.key) && 0 !in f.key && Proper(f.value) && (nul || NulFree(f.value))
      {
        var i :| 0 <= i < |fs| && fs[i] == f;
        assert HasEqual(fs[i].key, fs[i].value, w.fields);
        var j :| 0 <= j < |w.fields| && w.fields[j].key == f.key && Equal(f.value, w.fields[j].value);
        EqualIsProper(f.value, w.fields[j].value, nul);
      }
    case _ =>
  }

  /** A value without reals and with distinct keys is read back as an equal one if and only if it is
      proper, that is, all keys are C strings in UTF-8 and so on, and the flags let it in. */
  lemma ReadsBackIff(v: Json, fl: DumpFlags, pf: ParseFlags)
    requires NoReals(v) && KeysDistinct(v)
    ensures var r := LoadBuffer(Dump(v, fl, 0), pf);
            r.Some? && Equal(v, r.value) <==> Proper(v) && Loads(v, pf)
  {
    var r := LoadBuffer(Dump(v, fl, 0), pf);
    if Proper(v) {
      JsonRoundTrips(v, fl, pf, []);
    } else if r.Some? && Equal(v, r.value) {
      LoadedIsAccepted(Dump(v, fl, 0), pf);
      EqualIsProper(v, r.value, pf.allowNul);
    }
  }

  lemma {:induction false} EqualHasNoReals(v: Json, w: Json)
    requires Equal(v, w) && NoReals(w)
    ensures NoReals(v)
    decreases v
  {
    match v
    case Arr(es) =>
      forall e | e in es
        ensures NoReals(e)
      {
        var i :| 0 <= i < |es| && es[i] == e;
        EqualHasNoReals(e, w.elems[i]);
      }
    case Obj(fs) =>
      forall f | f in fs
        ensures NoReals(f.value)
      {
        var i :| 0 <= i < |fs| && fs[i] == f;
        assert HasEqual(fs[i].key, fs[i].value, w.fields);
        var j :| 0 <= j < |w.fields| && w.fields[j].key == f.key && Equal(f.value, w.fields[j].value);
        EqualHasNoReals(f.value, w.fields[j].value);
      }
    case _ =>
  }

  lemma {:induction false} EqualToItself(v: Json)
    ensures Equal(v, v)
    decreases v
  {
    match v
    case Arr(es) =>
      forall i | 0 <= i < |es|
        ensures Equal(es[i], es[i])
      {
        EqualToItself(es[i]);
      }
    case Obj(fs) =>
      forall i | 0 <= i < |fs|
        ensures HasEqual(fs[i].key, fs[i].value, fs)
      {
        EqualToItself(fs[i].value);
      }
    case _ =>
  }

  /** Load, dump, load: what was accepted and holds no real, with the members of its objects in any order
      (that in which its hash tables are iterated over), is printed with any flags and read again, with
      flags that allow no less, as an equal value. */
  lemma ReorderedReadsBack(input: seq<Byte>, pf: ParseFlags, v: Json, fl: DumpFlags, again: ParseFlags)
    requires LoadBuffer(input, pf).Some? && NoReals(LoadBuffer(input, pf).value)
    requires Equal(v, LoadBuffer(input, pf).value) && KeysDistinct(v)
    requires (pf.allowNul ==> again.allowNul) && (pf.decodeAny ==> again.decodeAny)
    ensures LoadBuffer(Dump(v, fl, 0), again).Some?
    ensures Equal(v, LoadBuffer(Dump(v, fl, 0), again).value)
  {
    var w := LoadBuffer(input, pf).value;
    LoadedIsAccepted(input, pf);
    EqualHasNoReals(v, w);
    EqualIsProper(v, w, pf.allowNul);
    ReadsBackIff(v, fl, again);
  }

  lemma {:induction false} AcceptedKeys(v: Json, nul: bool)
    requires Accepted(v, nul)
    ensures KeysDistinct(v)
  {
    match v
    case Arr(es) =>
      forall e | e in es
        ensures KeysDistinct(e)
      {
        AcceptedKeys(e, nul);
      }
    case Obj(fs) =>
      forall f | f in fs
        ensures KeysDistinct(f.value)
      {
        AcceptedKeys(f.value, nul);
      }
    case _ =>
  }

  /** The same with the members in the order in which they were read. */
  lemma LoadDumpLoad(input: seq<Byte>, pf: ParseFlags, fl: DumpFlags, again: ParseFlags)
    requires LoadBuffer(input, pf).Some? && NoReals(LoadBuffer(input, pf).value)
    requires (pf.allowNul ==> again.allowNul) && (pf.decodeAny ==> again.decodeAny)
    ensures var v := LoadBuffer(input, pf).value;
            && LoadBuffer(Dump(v, fl, 0), again).Some?
            && Equal(v, LoadBuffer(Dump(v, fl, 0), again).value)
  {
    LoadedIsAccepted(input, pf);
    AcceptedKeys(LoadBuffer(input, pf).value, pf.allowNul);
    EqualToItself(LoadBuffer(input, pf).value);
    ReorderedReadsBack(input, pf, LoadBuffer(input, pf).value, fl, again);
  }
}
