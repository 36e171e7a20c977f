/**
 Soundness of the parser of libjansson/jansson-2.7/src/load.c, and with JsonPhrases its exact language: what it
 accepts is a text of the grammar, and what it returns is what the grammar says of it.
 */
module JsonExact {

  import opened JsonUtf8
  import opened JsonString
  import opened JsonValue
  import opened JsonParser
  import opened JsonRoundTrip
  import opened JsonTheorems
  import opened JsonGrammar
  import opened JsonTokens
  import opened JsonNumbers
  import opened JsonFields
  import opened JsonPhrases

  // ---- Tokens ----

  lemma {:induction false} SpacesSpelled(text: seq<Byte>) returns (ws: seq<Byte>, s: seq<Byte>)
    ensures text == ws + s && Blank(ws) && s == SkipSpaces(text) && (s == [] || !IsSpace(s[0]))
    decreases |text|
  {
    ws, s := [], text;
    if text != [] && IsSpace(text[0]) {
      ws, s := SpacesSpelled(text[1..]);
      ws := [text[0]] + ws;
      assert text == [text[0]] + text[1..];
    }
  }

  lemma NoNul(text: seq<Byte>, a: seq<Byte>, b: seq<Byte>)
    requires text == a + b && 0 !in text
    ensures 0 !in a && 0 !in b && Unget(b) == b
  {
  }

  lemma HeadAndTail(s: seq<Byte>)
    ensures s != [] ==> s == [s[0]] + s[1..]
  {
  }

  lemma NumberKind(s: seq<Byte>)
    ensures s != [] && (IsDigit(s[0]) || s[0] == 0x2D) ==>
              var t := ScanNumber(s).0; t == InvalidToken || t.IntegerToken? || t.RealToken?
  {
    hide WholeDigits, Fraction, Exponent, Unget, Number;
  }

  lemma PunctAt(s: seq<Byte>, bad: bool, c: Byte)
    requires (s == [] || !IsSpace(s[0])) && Scan(s, bad).0 == Punct(c)
    ensures s == [c] + Scan(s, bad).1
  {
    HeadAndTail(s);
    NumberKind(s);
    hide ScanString, ScanNumber, Unget, CountAlphas;
  }

  lemma PunctSpelled(text: seq<Byte>, bad: bool, c: Byte, rest: seq<Byte>) returns (ws: seq<Byte>)
    requires Scan(text, bad) == (Punct(c), rest)
    ensures Blank(ws) && text == ws + ([c] + rest)
  {
    hide *;
    var s;
    ws, s := SpacesSpelled(text);
    BlankSkips(ws, s, bad);
    PunctAt(s, bad, c);
  }

  lemma StringAt(s: seq<Byte>, bad: bool)
    requires (s == [] || !IsSpace(s[0])) && Scan(s, bad).0.StringToken?
    ensures s != [] && s == [QUOTE] + s[1..]
    ensures ScanString(s[1..]) == Some((Scan(s, bad).0.bytes, Scan(s, bad).1))
  {
    HeadAndTail(s);
    NumberKind(s);
    hide ScanString, ScanNumber, Unget, CountAlphas;
  }

  lemma KeySpelled(text: seq<Byte>, bad: bool, bytes: seq<Byte>, rest: seq<Byte>)
      returns (ws: seq<Byte>, ps: seq<Piece>)
    requires Scan(text, bad) == (StringToken(bytes), rest)
    ensures Blank(ws) && PiecesMean(ps, bytes) && text == ws + (StringText(ps) + rest)
  {
    hide *;
    var s;
    ws, s := SpacesSpelled(text);
    BlankSkips(ws, s, bad);
    StringAt(s, bad);
    ps := ScannedString(s[1..]);
  }

  /** The tokens that are values by themselves. */
  ghost predicate Scalar1(token: Token) {
    || token.StringToken? || token.IntegerToken? || token.RealToken?
    || token == TrueToken || token == FalseToken || token == NullToken
  }

  /** What the token of a value stands for. */
  ghost predicate TokenValue(token: Token, v: Json, pf: ParseFlags) {
    match token
    case StringToken(bytes) => v == Str(bytes) && (pf.allowNul || 0 !in bytes)
    case IntegerToken(i) => v == Integer(i)
    case RealToken(text) => v == Real(text)
    case TrueToken => v == True
    case FalseToken => v == False
    case NullToken => v == Null
    case _ => false
  }

  lemma ValueOfToken(token: Token, s: seq<Byte>, bad: bool, pf: ParseFlags, v: Json, rest: seq<Byte>)
    requires ParseValue(token, s, bad, pf) == Some((v, rest))
    ensures token == Punct(0x7B) || token == Punct(0x5B) || (TokenValue(token, v, pf) && rest == s)
  {
    hide ParseObject, ParseArray;
  }

  lemma ScalarAt(s: seq<Byte>, bad: bool)
    requires (s == [] || !IsSpace(s[0])) && Scalar1(Scan(s, bad).0) && !Scan(s, bad).0.StringToken?
    ensures s != []
    ensures
      if IsDigit(s[0]) || s[0] == 0x2D then Scan(s, bad) == ScanNumber(s)
      else Scan(s, bad) == (Identifier(s[..CountAlphas(s)]), Unget(s[CountAlphas(s)..]))
           && Identifier(s[..CountAlphas(s)]) != InvalidToken
  {
    hide ScanString, ScanNumber, Identifier, Unget, CountAlphas;
  }

  lemma NumericSpelled(s: seq<Byte>, v: Json, rest: seq<Byte>, pf: ParseFlags) returns (number: Numeral)
    requires s != [] && (IsDigit(s[0]) || s[0] == 0x2D) && 0 !in s
    requires ScanNumber(s).0 != InvalidToken && ScanNumber(s).1 == rest && TokenValue(ScanNumber(s).0, v, pf)
    ensures s == NumeralText(number) + rest && NumeralValue(number, v) && NumeralEnds(number, rest)
  {
    var left;
    number, left := ScannedNumber(s);
    hide ScanNumber, NumeralText, IsNumeral, IsReal, IntegerWorth, NumeralEnds;
    NoNul(s, NumeralText(number), left);
  }

  lemma {:induction false} AlphasStop(s: seq<Byte>)
    ensures CountAlphas(s) < |s| ==> !IsAlpha(s[CountAlphas(s)])
  {
    if s != [] && IsAlpha(s[0]) {
      AlphasStop(s[1..]);
    }
  }

  lemma WordSpelled(s: seq<Byte>, v: Json, rest: seq<Byte>, pf: ParseFlags) returns (letters: seq<Byte>)
    requires 0 !in s && Unget(s[CountAlphas(s)..]) == rest && TokenValue(Identifier(s[..CountAlphas(s)]), v, pf)
    ensures s == letters + rest && Means(Word(letters), v, pf) && PhraseEnds(Word(letters), rest)
  {
    var n := CountAlphas(s);
    AlphasStop(s);
    hide CountAlphas, Unget;
    letters := s[..n];
    assert s == letters + s[n..];
    NoNul(s, letters, s[n..]);
  }

  /** A value that is one token. */
  lemma ScalarSpelled(text: seq<Byte>, v: Json, rest: seq<Byte>, bad: bool, pf: ParseFlags)
      returns (ws: seq<Byte>, x: Phrase)
    requires 0 !in text && Scan(text, bad).1 == rest && TokenValue(Scan(text, bad).0, v, pf)
    ensures Blank(ws) && text == ws + (PhraseText(x) + rest) && Means(x, v, pf) && PhraseEnds(x, rest)
  {
    hide Scan, Blank, IsSpace, SkipSpaces, PiecesMean, StringText, NumeralText, NumeralValue, NumeralEnds, ScanNumber,
      Identifier, CountAlphas, Unget;
    if Scan(text, bad).0.StringToken? {
      var ps;
      ws, ps := KeySpelled(text, bad, Scan(text, bad).0.bytes, rest);
      x := Quoted(ps);
    } else {
      var s;
      ws, s := SpacesSpelled(text);
      BlankSkips(ws, s, bad);
      NoNul(text, ws, s);
      ScalarAt(s, bad);
      if IsDigit(s[0]) || s[0] == 0x2D {
        var number := NumericSpelled(s, v, rest, pf);
        x := Numeric(number);
      } else {
        var letters := WordSpelled(s, v, rest, pf);
        x := Word(letters);
      }
    }
  }

  // ---- The loops of the parser ----

  /** The text begins with a value, and that is left behind it. */
  ghost predicate Taken(text: seq<Byte>, v: Json, rest: seq<Byte>, bad: bool, pf: ParseFlags) {
    var ok := ParseValue(Scan(text, bad).0, Scan(text, bad).1, bad, pf) == Some((v, rest));
    ok
  }

  lemma ElemTaken(text: seq<Byte>, bad: bool, pf: ParseFlags, done: seq<Json>, result: (Json, seq<Byte>))
      returns (v: Json, tail: seq<Byte>)
    requires ParseElems(Scan(text, bad).0, Scan(text, bad).1, bad, pf, done) == Some(result)
    ensures Taken(text, v, tail, bad, pf)
    ensures var (t, more) := Scan(tail, bad);
            if t == Punct(0x5D) then result == (Arr(done + [v]), more)
            else
              && t == Punct(0x2C)
              && ParseElems(Scan(more, bad).0, Scan(more, bad).1, bad, pf, done + [v]) == Some(result)
  {
    hide Scan, ParseValue;
    var parsed := ParseValue(Scan(text, bad).0, Scan(text, bad).1, bad, pf).value;
    v, tail := parsed.0, parsed.1;
  }

  lemma FieldTaken(key: seq<Byte>, s: seq<Byte>, bad: bool, pf: ParseFlags, done: seq<Field>, serial: nat,
      result: (Json, seq<Byte>)) returns (value: seq<Byte>, v: Json, tail: seq<Byte>)
    requires ParseFields(StringToken(key), s, bad, pf, done, serial) == Some(result)
    ensures 0 !in key && !(pf.rejectDuplicates && FindField(done, key).Some?)
    ensures Scan(s, bad) == (Punct(0x3A), value) && Taken(value, v, tail, bad, pf)
    ensures var all := SetField(done, key, serial, v);
            var (t, more) := Scan(tail, bad);
            if t == Punct(0x7D) then result == (Obj(all), more)
            else
              && t == Punct(0x2C)
              && ParseFields(Scan(more, bad).0, Scan(more, bad).1, bad, pf, all, serial + 1) == Some(result)
  {
    hide Scan, ParseValue, FindField, SetField;
    value := Scan(s, bad).1;
    var parsed := ParseValue(Scan(value, bad).0, Scan(value, bad).1, bad, pf).value;
    v, tail := parsed.0, parsed.1;
  }

  lemma FieldToken(text: seq<Byte>, bad: bool, pf: ParseFlags, done: seq<Field>, serial: nat)
    requires ParseFields(Scan(text, bad).0, Scan(text, bad).1, bad, pf, done, serial).Some?
    ensures Scan(text, bad).0.StringToken?
  {
    hide Scan, ParseValue, FindField, SetField;
  }

  lemma ArrayTaken(s: seq<Byte>, bad: bool, pf: ParseFlags, result: (Json, seq<Byte>))
    requires ParseArray(s, bad, pf) == Some(result)
    ensures if Scan(s, bad).0 == Punct(0x5D) then result == (Arr([]), Scan(s, bad).1)
            else ParseElems(Scan(s, bad).0, Scan(s, bad).1, bad, pf, []) == Some(result)
  {
    hide Scan, ParseElems;
  }

  lemma ObjectTaken(s: seq<Byte>, bad: bool, pf: ParseFlags, result: (Json, seq<Byte>))
    requires ParseObject(s, bad, pf) == Some(result)
    ensures if Scan(s, bad).0 == Punct(0x7D) then result == (Obj([]), Scan(s, bad).1)
            else ParseFields(Scan(s, bad).0, Scan(s, bad).1, bad, pf, [], 0) == Some(result)
  {
    hide Scan, ParseFields;
  }

  // ---- Arrays ----

  lemma ItemJoin(value: seq<Byte>, ws: seq<Byte>, x: Phrase, tail: seq<Byte>, after: seq<Byte>, more: seq<Byte>,
      v: Json, pf: ParseFlags) returns (item: Item)
    requires value == ws + (PhraseText(x) + tail) && tail == after + more
    requires Blank(ws) && Blank(after) && Means(x, v, pf)
    ensures value == ItemText(item) + more && ItemMeans(item, v, pf)
  {
    item := Item(ws, x, after);
    hide PhraseText, Means, Blank;
    assert value == ws + PhraseText(x) + after + more;
  }

  /** A value and the punctuation behind it. */
  lemma {:induction false} ItemSpelled(value: seq<Byte>, v: Json, tail: seq<Byte>, c: Byte, more: seq<Byte>, bad: bool,
      pf: ParseFlags) returns (item: Item)
    requires 0 !in value && Taken(value, v, tail, bad, pf) && Scan(tail, bad) == (Punct(c), more)
    ensures value == ItemText(item) + ([c] + more) && ItemMeans(item, v, pf) && 0 !in more && |more| < |value|
    decreases |value|, 2
  {
    hide *;
    var ws, x := ValueSpelled(value, v, tail, bad, pf);
    var after := PunctSpelled(tail, bad, c, more);
    item := ItemJoin(value, ws, x, tail, after, [c] + more, v, pf);
    NoNul(value, ItemText(item), [c] + more);
    NoNul([c] + more, [c], more);
  }

  lemma ItemsOne(item: Item, v: Json, pf: ParseFlags) returns (items: seq<Item>, vs: seq<Json>)
    requires ItemMeans(item, v, pf)
    ensures items == [item] && vs == [v] && ItemsMean(items, vs, pf) && ItemsText(items) == ItemText(item)
  {
    items, vs := [item], [v];
    hide ItemMeans, ItemText;
    assert ItemsMean([], [], pf);
    assert ItemText(item) + [] == ItemText(item);
  }

  lemma ItemsCons(item: Item, v: Json, items: seq<Item>, vs: seq<Json>, pf: ParseFlags)
      returns (all: seq<Item>, ws: seq<Json>)
    requires ItemMeans(item, v, pf) && items != [] && ItemsMean(items, vs, pf)
    ensures all != [] && ws == [v] + vs && ItemsMean(all, ws, pf)
    ensures ItemsText(all) == ItemText(item) + ([0x2C] + ItemsText(items))
  {
    all, ws := [item] + items, [v] + vs;
    hide ItemMeans, ItemText;
    assert all[0] == item && all[1..] == items && ws[0] == v && ws[1..] == vs;
  }

  lemma {:induction false} ItemsSpelled(text: seq<Byte>, bad: bool, pf: ParseFlags, done: seq<Json>,
      result: (Json, seq<Byte>)) returns (items: seq<Item>, vs: seq<Json>)
    requires 0 !in text && ParseElems(Scan(text, bad).0, Scan(text, bad).1, bad, pf, done) == Some(result)
    ensures items != [] && ItemsMean(items, vs, pf) && result.0 == Arr(done + vs)
    ensures text == ItemsText(items) + ([0x5D] + result.1)
    decreases |text|, 3
  {
    hide *;
    var v, tail := ElemTaken(text, bad, pf, done, result);
    var (t, more) := Scan(tail, bad);
    var item := ItemSpelled(text, v, tail, t.c, more, bad, pf);
    if t == Punct(0x5D) {
      items, vs := ItemsOne(item, v, pf);
    } else {
      var others, ws := ItemsSpelled(more, bad, pf, done + [v], result);
      items, vs := ItemsCons(item, v, others, ws, pf);
      Joined(ItemText(item), ItemsText(others), [0x5D] + result.1);
      assert done + [v] + ws == done + ([v] + ws);
    }
  }

  lemma EmptyMeans(gap: seq<Byte>, pf: ParseFlags)
    requires Blank(gap)
    ensures Means(Bracketed(gap, []), Arr([]), pf) && Means(Braced(gap, []), Obj([]), pf)
  {
    hide Blank;
    assert EntriesMean([], [], [], pf) && Distinct([]) && FieldsMean([], [], []);
  }

  lemma BlankNothing()
    ensures Blank([])
  {
  }

  lemma BracketedMeans(items: seq<Item>, vs: seq<Json>, pf: ParseFlags)
    requires ItemsMean(items, vs, pf)
    ensures Means(Bracketed([], items), Arr(vs), pf)
  {
    BlankNothing();
    hide ItemsMean, Blank;
  }

  lemma {:induction false} ArraySpelled(s: seq<Byte>, bad: bool, pf: ParseFlags, result: (Json, seq<Byte>))
      returns (x: Phrase)
    requires 0 !in s && ParseArray(s, bad, pf) == Some(result)
    ensures x.Bracketed? && Means(x, result.0, pf) && [0x5B] + s == PhraseText(x) + result.1
    decreases |s|, 4
  {
    hide *;
    ArrayTaken(s, bad, pf, result);
    if Scan(s, bad).0 == Punct(0x5D) {
      var gap := PunctSpelled(s, bad, 0x5D, result.1);
      x := Bracketed(gap, []);
      EmptyMeans(gap, pf);
      BracketedParts(gap, [], result.1);
    } else {
      var items, vs := ItemsSpelled(s, bad, pf, [], result);
      x := Bracketed([], items);
      BracketedMeans(items, vs, pf);
      BracketedParts([], items, result.1);
      assert [] + vs == vs;
    }
  }

  // ---- Objects ----

  lemma EntryJoin(text: seq<Byte>, ws: seq<Byte>, ps: seq<Piece>, sep: seq<Byte>, middle: seq<Byte>, value: seq<Byte>,
      item: Item, more: seq<Byte>, key: seq<Byte>, v: Json, pf: ParseFlags) returns (entry: Entry)
    requires text == ws + (StringText(ps) + sep) && sep == middle + ([0x3A] + value) && value == ItemText(item) + more
    requires Blank(ws) && Blank(middle) && PiecesMean(ps, key) && 0 !in key && ItemMeans(item, v, pf)
    ensures text == EntryText(entry) + more && EntryMeans(entry, key, v, pf)
  {
    entry := Entry(ws, ps, middle, item);
    EntryParts(entry, more);
    hide StringText, ItemText, Blank, PiecesMean, ItemMeans, EntryText;
  }

  /** A key with its value and the punctuation behind it. */
  lemma {:induction false} EntrySpelled(text: seq<Byte>, key: seq<Byte>, sep: seq<Byte>, value: seq<Byte>, v: Json,
      tail: seq<Byte>, c: Byte, more: seq<Byte>, bad: bool, pf: ParseFlags) returns (entry: Entry)
    requires 0 !in text && 0 !in key && Scan(text, bad) == (StringToken(key), sep)
    requires Scan(sep, bad) == (Punct(0x3A), value) && Taken(value, v, tail, bad, pf)
    requires Scan(tail, bad) == (Punct(c), more)
    ensures text == EntryText(entry) + ([c] + more) && EntryMeans(entry, key, v, pf) && 0 !in more
    ensures |more| < |text|
    decreases |text|, 2
  {
    hide *;
    var ws, ps := KeySpelled(text, bad, key, sep);
    var middle := PunctSpelled(sep, bad, 0x3A, value);
    NoNul(text, ws, StringText(ps) + sep);
    NoNul(StringText(ps) + sep, StringText(ps), sep);
    NoNul(sep, middle, [0x3A] + value);
    NoNul([0x3A] + value, [0x3A], value);
    var item := ItemSpelled(value, v, tail, c, more, bad, pf);
    entry := EntryJoin(text, ws, ps, sep, middle, value, item, [c] + more, key, v, pf);
  }

  lemma EntriesOne(entry: Entry, key: seq<Byte>, v: Json, pf: ParseFlags)
    requires EntryMeans(entry, key, v, pf)
    ensures EntriesMean([entry], [key], [v], pf) && EntriesText([entry]) == EntryText(entry)
  {
    hide EntryMeans, EntryText;
    assert EntriesMean([], [], [], pf);
    assert EntryText(entry) + [] == EntryText(entry);
  }

  lemma EntriesCons(entry: Entry, key: seq<Byte>, v: Json, others: seq<Entry>, keys: seq<seq<Byte>>, values: seq<Json>,
      pf: ParseFlags)
    requires EntryMeans(entry, key, v, pf) && others != [] && EntriesMean(others, keys, values, pf)
    ensures EntriesMean([entry] + others, [key] + keys, [v] + values, pf)
    ensures EntriesText([entry] + others) == EntryText(entry) + ([0x2C] + EntriesText(others))
  {
    hide EntryMeans, EntryText;
    var all, ks, vs := [entry] + others, [key] + keys, [v] + values;
    assert all[0] == entry && all[1..] == others && ks[0] == key && ks[1..] == keys && vs[0] == v && vs[1..] == values;
  }

  /** The keys are still distinct if they have to be. */
  lemma StillDistinct(done: seq<Field>, ks: seq<seq<Byte>>, vs: seq<Json>, key: seq<Byte>, pf: ParseFlags)
    requires FieldsMean(done, ks, vs) && (pf.rejectDuplicates ==> Distinct(ks))
    requires !(pf.rejectDuplicates && FindField(done, key).Some?)
    ensures pf.rejectDuplicates ==> Distinct(ks + [key])
  {
    hide FieldsMean, FindField, Distinct;
    FoundIff(done, ks, vs, key);
    DistinctAppend(ks, key);
  }

  lemma Behind(ks: seq<seq<Byte>>, vs: seq<Json>, key: seq<Byte>, v: Json, keys: seq<seq<Byte>>, values: seq<Json>)
    ensures ks + [key] + keys == ks + ([key] + keys) && vs + [v] + values == vs + ([v] + values)
  {
  }

  lemma {:induction false} EntriesSpelled(text: seq<Byte>, bad: bool, pf: ParseFlags, done: seq<Field>,
      ks: seq<seq<Byte>>, vs: seq<Json>, result: (Json, seq<Byte>))
      returns (entries: seq<Entry>, keys: seq<seq<Byte>>, values: seq<Json>, fs: seq<Field>)
    requires 0 !in text && FieldsMean(done, ks, vs) && (pf.rejectDuplicates ==> Distinct(ks))
    requires ParseFields(Scan(text, bad).0, Scan(text, bad).1, bad, pf, done, |ks|) == Some(result)
    ensures entries != [] && EntriesMean(entries, keys, values, pf) && result.0 == Obj(fs)
    ensures FieldsMean(fs, ks + keys, vs + values) && (pf.rejectDuplicates ==> Distinct(ks + keys))
    ensures text == EntriesText(entries) + ([0x7D] + result.1)
    decreases |text|, 3
  {
    hide *;
    FieldToken(text, bad, pf, done, |ks|);
    var key, sep := Scan(text, bad).0.bytes, Scan(text, bad).1;
    var value, v, tail := FieldTaken(key, sep, bad, pf, done, |ks|, result);
    var (t, more) := Scan(tail, bad);
    var entry := EntrySpelled(text, key, sep, value, v, tail, t.c, more, bad, pf);
    var all := SetField(done, key, |ks|, v);
    SetFieldMeans(done, ks, vs, key, v);
    StillDistinct(done, ks, vs, key, pf);
    if t == Punct(0x7D) {
      EntriesOne(entry, key, v, pf);
      entries, keys, values, fs := [entry], [key], [v], all;
    } else {
      var others, moreKeys, moreValues;
      others, moreKeys, moreValues, fs := EntriesSpelled(more, bad, pf, all, ks + [key], vs + [v], result);
      EntriesCons(entry, key, v, others, moreKeys, moreValues, pf);
      Behind(ks, vs, key, v, moreKeys, moreValues);
      Joined(EntryText(entry), EntriesText(others), [0x7D] + result.1);
      entries, keys, values := [entry] + others, [key] + moreKeys, [v] + moreValues;
    }
  }

  lemma BracedMeans(entries: seq<Entry>, keys: seq<seq<Byte>>, values: seq<Json>, fs: seq<Field>, pf: ParseFlags)
    requires EntriesMean(entries, keys, values, pf) && FieldsMean(fs, keys, values)
    requires pf.rejectDuplicates ==> Distinct(keys)
    ensures Means(Braced([], entries), Obj(fs), pf)
  {
    BlankNothing();
    hide EntriesMean, FieldsMean, Distinct, Blank;
  }

  lemma {:induction false} ObjectSpelled(s: seq<Byte>, bad: bool, pf: ParseFlags, result: (Json, seq<Byte>))
      returns (x: Phrase)
    requires 0 !in s && ParseObject(s, bad, pf) == Some(result)
    ensures x.Braced? && Means(x, result.0, pf) && [0x7B] + s == PhraseText(x) + result.1
    decreases |s|, 4
  {
    hide *;
    ObjectTaken(s, bad, pf, result);
    if Scan(s, bad).0 == Punct(0x7D) {
      var gap := PunctSpelled(s, bad, 0x7D, result.1);
      x := Braced(gap, []);
      EmptyMeans(gap, pf);
      BracedParts(gap, [], result.1);
    } else {
      NothingDistinct();
      NothingBefore([], []);
      var entries, keys, values, fs := EntriesSpelled(s, bad, pf, [], [], [], result);
      NothingBefore(keys, values);
      x := Braced([], entries);
      BracedMeans(entries, keys, values, fs, pf);
      BracedParts([], entries, result.1);
    }
  }

  lemma NothingDistinct()
    ensures Distinct([])
  {
  }

  // ---- Values ----

  lemma CompositeTaken(text: seq<Byte>, v: Json, rest: seq<Byte>, bad: bool, pf: ParseFlags)
    requires Taken(text, v, rest, bad, pf)
    ensures var (token, s) := Scan(text, bad);
            && (token == Punct(0x7B) ==> ParseObject(s, bad, pf) == Some((v, rest)))
            && (token == Punct(0x5B) ==> ParseArray(s, bad, pf) == Some((v, rest)))
            && (token != Punct(0x7B) && token != Punct(0x5B) ==> TokenValue(token, v, pf) && rest == s)
  {
    hide Scan, ParseObject, ParseArray;
    ValueOfToken(Scan(text, bad).0, Scan(text, bad).1, bad, pf, v, rest);
  }

  lemma CompositeEnds(x: Phrase, rest: seq<Byte>)
    requires x.Bracketed? || x.Braced?
    ensures Composite(x) && PhraseEnds(x, rest)
  {
  }

  /** What is read as a value is a value of the grammar with that meaning, which ends there. */
  lemma {:induction false} ValueSpelled(text: seq<Byte>, v: Json, rest: seq<Byte>, bad: bool, pf: ParseFlags)
      returns (ws: seq<Byte>, x: Phrase)
    requires 0 !in text && Taken(text, v, rest, bad, pf)
    ensures Blank(ws) && text == ws + (PhraseText(x) + rest) && Means(x, v, pf) && PhraseEnds(x, rest)
    ensures Scan(text, bad).0 == Punct(0x7B) || Scan(text, bad).0 == Punct(0x5B) ==> Composite(x)
    decreases |text|, 1
  {
    hide *;
    CompositeTaken(text, v, rest, bad, pf);
    var (token, s) := Scan(text, bad);
    if token == Punct(0x7B) || token == Punct(0x5B) {
      ws := PunctSpelled(text, bad, token.c, s);
      NoNul(text, ws, [token.c] + s);
      NoNul([token.c] + s, [token.c], s);
      if token == Punct(0x7B) {
        x := ObjectSpelled(s, bad, pf, (v, rest));
      } else {
        x := ArraySpelled(s, bad, pf, (v, rest));
      }
      CompositeEnds(x, rest);
    } else {
      ws, x := ScalarSpelled(text, v, rest, bad, pf);
    }
  }

  // ---- The language ----

  /** The text is a value with that meaning, with spaces before it and something behind it. */
  ghost predicate Derives(text: seq<Byte>, before: seq<Byte>, x: Phrase, after: seq<Byte>, v: Json, pf: ParseFlags) {
    text == before + (PhraseText(x) + after) && Blank(before) && Means(x, v, pf) && (pf.decodeAny || Composite(x))
  }

  /** Without the flag nothing but spaces may be behind the value, up to the end of the input; with it anything
      that does not go on with the value. */
  ghost predicate Complete(x: Phrase, after: seq<Byte>, bad: bool, pf: ParseFlags) {
    if pf.disableEofCheck then PhraseEnds(x, after) else !bad && Blank(after)
  }

  lemma EndSpelled(s: seq<Byte>, bad: bool)
    requires Scan(s, bad).0 == EofToken
    ensures !bad && Blank(s)
  {
    var ws, t := SpacesSpelled(s);
    hide ScanString, ScanNumber, Identifier, CountAlphas, Blank;
    assert ws + [] == ws;
  }

  lemma EndReads(s: seq<Byte>)
    requires Blank(s)
    ensures Scan(s, false).0 == EofToken && Follows(s)
  {
    BlankSkips(s, [], false);
    assert s + [] == s;
    assert s != [] ==> s[0] in s;
  }

  lemma ParsedParts(text: seq<Byte>, bad: bool, pf: ParseFlags, v: Json) returns (rest: seq<Byte>)
    requires ParseJson(text, bad, pf) == Some(v)
    ensures Taken(text, v, rest, bad, pf)
    ensures pf.decodeAny || Scan(text, bad).0 == Punct(0x5B) || Scan(text, bad).0 == Punct(0x7B)
    ensures pf.disableEofCheck || Scan(rest, bad).0 == EofToken
  {
    hide Scan, ParseValue;
    rest := ParseValue(Scan(text, bad).0, Scan(text, bad).1, bad, pf).value.1;
  }

  /** What is accepted is a text of the grammar. */
  lemma ParsedDerives(text: seq<Byte>, bad: bool, pf: ParseFlags, v: Json)
      returns (before: seq<Byte>, x: Phrase, after: seq<Byte>)
    requires 0 !in text && ParseJson(text, bad, pf) == Some(v)
    ensures Derives(text, before, x, after, v, pf) && Complete(x, after, bad, pf)
  {
    after := ParsedParts(text, bad, pf, v);
    hide Scan, ParseJson, Taken, Blank, PhraseText, Means, PhraseEnds, Composite;
    before, x := ValueSpelled(text, v, after, bad, pf);
    if !pf.disableEofCheck {
      EndSpelled(after, bad);
    }
  }

  lemma CompositeToken(before: seq<Byte>, x: Phrase, after: seq<Byte>, bad: bool)
    requires Blank(before) && Composite(x)
    ensures var (token, _) := Scan(before + (PhraseText(x) + after), bad); token == Punct(0x5B) || token == Punct(0x7B)
  {
    BlankSkips(before, PhraseText(x) + after, bad);
    hide Scan, PhraseText, Blank;
    match x
    case Bracketed(gap, items) =>
      BracketedParts(gap, items, after);
      OpenReads(0x5B, (if items == [] then gap else ItemsText(items)) + ([0x5D] + after), bad);
    case Braced(gap, entries) =>
      BracedParts(gap, entries, after);
      OpenReads(0x7B, (if entries == [] then gap else EntriesText(entries)) + ([0x7D] + after), bad);
  }

  lemma ParsedWhole(text: seq<Byte>, v: Json, rest: seq<Byte>, bad: bool, pf: ParseFlags)
    requires ReadAs(text, v, rest, bad, pf)
    requires pf.decodeAny || Scan(text, bad).0 == Punct(0x5B) || Scan(text, bad).0 == Punct(0x7B)
    requires pf.disableEofCheck || Scan(rest, bad).0 == EofToken
    ensures ParseJson(text, bad, pf) == Some(v)
  {
    hide Scan, ParseValue;
  }

  lemma CompleteEnds(x: Phrase, after: seq<Byte>, bad: bool, pf: ParseFlags)
    requires Complete(x, after, bad, pf)
    ensures PhraseEnds(x, after) && (!pf.disableEofCheck ==> Scan(after, bad).0 == EofToken)
  {
    hide Scan, PhraseEnds;
    if !pf.disableEofCheck {
      EndReads(after);
      FollowsEnds(x, after);
    }
  }

  /** A text of the grammar is accepted with its meaning. */
  lemma DerivedParses(text: seq<Byte>, before: seq<Byte>, x: Phrase, after: seq<Byte>, bad: bool, pf: ParseFlags,
      v: Json)
    requires 0 !in text && Derives(text, before, x, after, v, pf) && Complete(x, after, bad, pf)
    ensures ParseJson(text, bad, pf) == Some(v)
  {
    CompleteEnds(x, after, bad, pf);
    hide Scan, ParseJson, Blank, PhraseText, Means, PhraseEnds, Complete, Unget, ReadAs, Composite;
    NoNul(text, before, PhraseText(x) + after);
    NoNul(PhraseText(x) + after, PhraseText(x), after);
    PhraseReads(x, v, after, bad, pf);
    BlankSkips(before, PhraseText(x) + after, bad);
    ReadAsAfter(before, PhraseText(x) + after, v, after, bad, pf);
    if !pf.decodeAny {
      CompositeToken(before, x, after, bad);
    }
    ParsedWhole(text, v, after, bad, pf);
  }

  /** The parser accepts exactly the texts of the grammar, under every flag, and returns what they mean. */
  lemma ParsedIff(text: seq<Byte>, bad: bool, pf: ParseFlags, v: Json)
    requires 0 !in text
    ensures ParseJson(text, bad, pf) == Some(v) <==>
              exists before, x, after :: Derives(text, before, x, after, v, pf) && Complete(x, after, bad, pf)
  {
    hide ParseJson, Derives, Complete;
    if ParseJson(text, bad, pf) == Some(v) {
      var before, x, after := ParsedDerives(text, bad, pf, v);
    }
    if before, x, after :| Derives(text, before, x, after, v, pf) && Complete(x, after, bad, pf) {
      DerivedParses(text, before, x, after, bad, pf, v);
    }
  }

  /** What can be decoded of an input: all of it exactly if it is valid; what follows is malformed. */
  lemma {:induction false} DecodableIff(s: seq<Byte>)
    ensures Decodable(s) == |s| <==> Valid(s)
    ensures Decodable(s) < |s| ==> Iterate(s[Decodable(s)..]).Malformed?
    decreases |s|
  {
    if Iterate(s).Char? {
      var count := Iterate(s).count;
      hide Iterate;
      DecodableIff(s[count..]);
      assert s[count..][Decodable(s[count..])..] == s[Decodable(s)..];
    } else {
      assert s[0..] == s;
    }
  }

  lemma {:induction false} CStringWhole(s: seq<Byte>)
    requires 0 !in s
    ensures CString(s) == s
  {
    if s != [] {
      CStringWhole(s[1..]);
      assert s == [s[0]] + s[1..];
    }
  }

  /** `json_loads`, up to the terminating NUL. Without JSON_DISABLE_EOF_CHECK it accepts what is valid UTF-8 and
      a text of the grammar, with nothing but spaces around the value; with it a text of the grammar at the
      start of what can be decoded. */
  lemma LoadedIff(text: seq<Byte>, end: seq<Byte>, pf: ParseFlags, v: Json)
    requires 0 !in text && (end == [] || end[0] == 0)
    ensures !pf.disableEofCheck ==>
              (LoadString(text + end, pf) == Some(v) <==>
                Valid(text) && exists before, x, after :: Derives(text, before, x, after, v, pf) && Blank(after))
    ensures pf.disableEofCheck ==>
              (LoadString(text + end, pf) == Some(v) <==>
                exists before, x, after ::
                  Derives(text[..Decodable(text)], before, x, after, v, pf) && PhraseEnds(x, after))
  {
    LoadedText(text, end, pf);
    DecodableIff(text);
    hide *;
    var n := Decodable(text);
    assert n == |text| ==> text[..n] == text;
    ParsedIff(text[..n], n < |text|, pf, v);
    CompleteMeans(n < |text|, pf);
  }

  lemma CompleteMeans(bad: bool, pf: ParseFlags)
    ensures !pf.disableEofCheck ==> forall x, after :: Complete(x, after, bad, pf) <==> !bad && Blank(after)
    ensures pf.disableEofCheck ==> forall x, after :: Complete(x, after, bad, pf) <==> PhraseEnds(x, after)
  {
    hide Blank, PhraseEnds;
  }

  lemma LoadedText(text: seq<Byte>, end: seq<Byte>, pf: ParseFlags)
    requires 0 !in text && (end == [] || end[0] == 0)
    ensures LoadString(text + end, pf) == ParseJson(text[..Decodable(text)], Decodable(text) < |text|, pf)
    ensures 0 !in text[..Decodable(text)]
  {
    hide ParseJson, Decodable;
    if end == [] {
      CStringWhole(text);
      assert text + end == text;
    } else {
      CStringEnds(text, end[1..]);
      assert text + end == text + [0] + end[1..];
    }
  }
}
