/**
 Completeness of the parser of libjansson/jansson-2.7/src/load.c: every value of the grammar is read, with the
 meaning that the grammar gives it.
 */
module JsonPhrases {

  import opened JsonUtf8
  import opened JsonString
  import opened JsonValue
  import opened JsonParser
  import opened JsonRoundTrip
  import opened JsonGrammar
  import opened JsonTokens
  import opened JsonNumbers
  import opened JsonFields

  lemma BlankSkips(ws: seq<Byte>, more: seq<Byte>, bad: bool)
    requires Blank(ws)
    ensures Scan(ws + more, bad) == Scan(more, bad)
  {
    ScanSpaces(ws, more, bad);
  }

  /** A value ends before spaces and before the punctuation that can follow it. */
  lemma FollowsEnds(x: Phrase, rest: seq<Byte>)
    requires Follows(rest)
    ensures PhraseEnds(x, rest) && Unget(rest) == rest
  {
    UngetFollows(rest);
  }

  ghost predicate Closes(more: seq<Byte>) {
    more != [] && (more[0] == 0x2C || more[0] == 0x5D || more[0] == 0x7D)
  }

  lemma BlankFollows(ws: seq<Byte>, more: seq<Byte>)
    requires Blank(ws) && Closes(more)
    ensures Follows(ws + more)
  {
    if ws == [] {
      assert ws + more == more;
    } else {
      assert ws[0] in ws;
    }
  }

  // ---- Words, numbers and strings ----

  lemma WordReads(letters: seq<Byte>, v: Json, rest: seq<Byte>, bad: bool, pf: ParseFlags)
    requires Means(Word(letters), v, pf) && PhraseEnds(Word(letters), rest) && Unget(rest) == rest
    ensures ReadAs(letters + rest, v, rest, bad, pf)
  {
    ScanWord(letters, rest, bad);
    hide Scan;
  }

  lemma NumericReads(number: Numeral, v: Json, rest: seq<Byte>, bad: bool, pf: ParseFlags)
    requires NumeralValue(number, v) && NumeralEnds(number, rest) && Unget(rest) == rest
    ensures ReadAs(NumeralText(number) + rest, v, rest, bad, pf)
  {
    NumeralReads(number, rest);
    NumberToken(NumeralText(number) + rest, bad);
    hide *;
    NumeralToken(number, v, Scan(NumeralText(number) + rest, bad).0);
    ScalarRead(NumeralText(number) + rest, v, rest, bad, pf);
  }

  lemma NumeralToken(number: Numeral, v: Json, token: Token)
    requires NumeralValue(number, v)
    requires token == if IsReal(number) then RealToken(NumeralText(number))
                      else if INT_MIN <= IntegerWorth(number) <= INT_MAX then IntegerToken(IntegerWorth(number))
                      else InvalidToken
    ensures (v.Real? && token == RealToken(v.text)) || (v.Integer? && token == IntegerToken(v.value))
  {
    hide IsNumeral, NumeralText, IntegerWorth, IsReal;
  }

  lemma ScalarRead(text: seq<Byte>, v: Json, rest: seq<Byte>, bad: bool, pf: ParseFlags)
    requires Scan(text, bad).1 == rest
    requires var token := Scan(text, bad).0;
             (v.Real? && token == RealToken(v.text)) || (v.Integer? && token == IntegerToken(v.value))
    ensures ReadAs(text, v, rest, bad, pf)
  {
    hide Scan;
  }

  /** A real is written as its text and read back as that text. */
  lemma RealReads(number: Numeral, fl: DumpFlags, depth: nat, rest: seq<Byte>, bad: bool, pf: ParseFlags)
    requires IsNumeral(number) && IsReal(number) && Follows(rest)
    ensures var v := Real(NumeralText(number)); ReadAs(Dump(v, fl, depth) + rest, v, rest, bad, pf)
  {
    FollowsEnds(Numeric(number), rest);
    hide ReadAs, NumeralText, IsNumeral, IsReal, NumeralEnds, Unget;
    NumericReads(number, Real(NumeralText(number)), rest, bad, pf);
  }

  lemma QuoteToken(s: seq<Byte>, bad: bool)
    requires s != [] && s[0] == QUOTE && ScanString(s[1..]).Some?
    ensures Scan(s, bad) == (StringToken(ScanString(s[1..]).value.0), ScanString(s[1..]).value.1)
  {
    hide ScanString;
  }

  lemma StringTokenReads(ps: seq<Piece>, bytes: seq<Byte>, rest: seq<Byte>, bad: bool)
    requires PiecesMean(ps, bytes)
    ensures Scan(StringText(ps) + rest, bad) == (StringToken(bytes), rest)
  {
    StringReads(ps, bytes, rest);
    hide Scan, ScanString, PiecesMean;
    QuoteToken(StringText(ps) + rest, bad);
  }

  lemma QuotedReads(ps: seq<Piece>, v: Json, rest: seq<Byte>, bad: bool, pf: ParseFlags)
    requires v.Str? && PiecesMean(ps, v.bytes) && (pf.allowNul || 0 !in v.bytes)
    ensures ReadAs(StringText(ps) + rest, v, rest, bad, pf)
  {
    StringTokenReads(ps, v.bytes, rest, bad);
    hide Scan, PiecesMean, StringText;
  }

  // ---- Arrays ----

  lemma ItemParts(item: Item, more: seq<Byte>)
    ensures ItemText(item) + more == item.before + (PhraseText(item.phrase) + (item.after + more))
  {
    hide PhraseText;
  }

  lemma ItemMeansParts(item: Item, v: Json, pf: ParseFlags)
    requires ItemMeans(item, v, pf)
    ensures Blank(item.before) && Blank(item.after) && Means(item.phrase, v, pf)
  {
    hide Blank, Means;
  }

  lemma ReadAsAfter(ws: seq<Byte>, text: seq<Byte>, v: Json, rest: seq<Byte>, bad: bool, pf: ParseFlags)
    requires ReadAs(text, v, rest, bad, pf) && Scan(ws + text, bad) == Scan(text, bad)
    ensures ReadAs(ws + text, v, rest, bad, pf)
  {
    hide Scan, ParseValue;
  }

  lemma {:induction false} ItemReads(item: Item, v: Json, more: seq<Byte>, bad: bool, pf: ParseFlags)
    requires ItemMeans(item, v, pf) && Closes(more)
    ensures ReadAs(ItemText(item) + more, v, item.after + more, bad, pf)
    ensures Scan(item.after + more, bad) == Scan(more, bad)
    decreases item, 2
  {
    ItemMeansParts(item, v, pf);
    hide *;
    var tail := item.after + more;
    var text := PhraseText(item.phrase) + tail;
    ItemParts(item, more);
    BlankSkips(item.before, text, bad);
    BlankSkips(item.after, more, bad);
    BlankFollows(item.after, more);
    FollowsEnds(item.phrase, tail);
    PhraseReads(item.phrase, v, tail, bad, pf);
    ReadAsAfter(item.before, text, v, tail, bad, pf);
  }

  lemma ItemsParts(items: seq<Item>, close: seq<Byte>)
    requires items != []
    ensures |items| == 1 ==> ItemsText(items) + close == ItemText(items[0]) + close
    ensures |items| > 1 ==>
              ItemsText(items) + close == ItemText(items[0]) + ([0x2C] + (ItemsText(items[1..]) + close))
  {
    hide ItemText;
    Joined(ItemText(items[0]), ItemsText(items[1..]), close);
  }

  lemma Joined(first: seq<Byte>, others: seq<Byte>, close: seq<Byte>)
    ensures first + [] + close == first + close
    ensures first + ([0x2C] + others) + close == first + ([0x2C] + (others + close))
  {
  }

  lemma ItemsMeanParts(items: seq<Item>, vs: seq<Json>, pf: ParseFlags)
    requires items != [] && ItemsMean(items, vs, pf)
    ensures |vs| == |items| && ItemMeans(items[0], vs[0], pf) && ItemsMean(items[1..], vs[1..], pf)
    ensures vs == [vs[0]] + vs[1..] && (|items| == 1 ==> vs == [vs[0]])
  {
    hide ItemMeans;
  }

  lemma CommaReads(more: seq<Byte>, bad: bool)
    ensures Closes([0x2C] + more) && Scan([0x2C] + more, bad) == (Punct(0x2C), [] + more) && [] + more == more
  {
    ScanPunct(0x2C, more, bad);
    hide Scan;
    assert [] + more == more;
  }

  lemma CloseReads(c: Byte, rest: seq<Byte>, bad: bool)
    requires c == 0x5D || c == 0x7D
    ensures Closes([c] + rest) && Scan([c] + rest, bad) == (Punct(c), rest)
  {
    ScanPunct(c, rest, bad);
    hide Scan;
  }

  lemma {:induction false} ItemsRead(items: seq<Item>, vs: seq<Json>, rest: seq<Byte>, bad: bool, pf: ParseFlags,
      done: seq<Json>)
    requires items != [] && ItemsMean(items, vs, pf)
    ensures ElemsReadAs(ItemsText(items) + ([0x5D] + rest), vs, rest, bad, pf, done)
    decreases items, 0
  {
    hide *;
    var close := [0x5D] + rest;
    var text := ItemsText(items) + close;
    ItemsParts(items, close);
    ItemsMeanParts(items, vs, pf);
    if |items| == 1 {
      CloseReads(0x5D, rest, bad);
      ItemReads(items[0], vs[0], close, bad, pf);
      ElemsLast(text, vs[0], items[0].after + close, rest, bad, pf, done);
    } else {
      var more := ItemsText(items[1..]) + close;
      CommaReads(more, bad);
      ItemReads(items[0], vs[0], [0x2C] + more, bad, pf);
      ItemsRead(items[1..], vs[1..], rest, bad, pf, done + [vs[0]]);
      ElemsMore(text, vs[0], items[0].after + ([0x2C] + more), [], more, vs[1..], rest, bad, pf, done);
    }
  }

  lemma EmptyArrayReads(text: seq<Byte>, inner: seq<Byte>, rest: seq<Byte>, bad: bool, pf: ParseFlags)
    requires Scan(text, bad) == (Punct(0x5B), inner) && Scan(inner, bad) == (Punct(0x5D), rest)
    ensures ReadAs(text, Arr([]), rest, bad, pf)
  {
    hide Scan;
    assert ParseArray(inner, bad, pf) == Some((Arr([]), rest));
  }

  lemma BracketedParts(gap: seq<Byte>, items: seq<Item>, rest: seq<Byte>)
    ensures PhraseText(Bracketed(gap, items)) + rest
         == [0x5B] + ((if items == [] then gap else ItemsText(items)) + ([0x5D] + rest))
  {
    hide ItemsText;
  }

  lemma OpenReads(c: Byte, more: seq<Byte>, bad: bool)
    requires c == 0x5B || c == 0x7B
    ensures Scan([c] + more, bad) == (Punct(c), more) && [] + more == more
  {
    ScanPunct(c, more, bad);
    hide Scan;
  }

  lemma NoItems(vs: seq<Json>, pf: ParseFlags)
    requires ItemsMean([], vs, pf)
    ensures vs == []
  {
  }

  lemma {:induction false} BracketedReads(gap: seq<Byte>, items: seq<Item>, vs: seq<Json>, rest: seq<Byte>, bad: bool,
      pf: ParseFlags)
    requires Blank(gap) && ItemsMean(items, vs, pf)
    ensures ReadAs(PhraseText(Bracketed(gap, items)) + rest, Arr(vs), rest, bad, pf)
    decreases items, 1
  {
    hide *;
    var text := PhraseText(Bracketed(gap, items)) + rest;
    var close := [0x5D] + rest;
    BracketedParts(gap, items, rest);
    if items == [] {
      NoItems(vs, pf);
      OpenReads(0x5B, gap + close, bad);
      BlankSkips(gap, close, bad);
      CloseReads(0x5D, rest, bad);
      EmptyArrayReads(text, gap + close, rest, bad, pf);
    } else {
      var more := ItemsText(items) + close;
      OpenReads(0x5B, more, bad);
      ItemsRead(items, vs, rest, bad, pf, []);
      ArrayBegins(text, [], more, vs, rest, bad, pf);
    }
  }

  // ---- Objects ----

  /** One field is read and set, and the loop is where it decides on what follows. */
  ghost predicate EntryReadAs(text: seq<Byte>, key: seq<Byte>, v: Json, next: seq<Byte>, bad: bool, pf: ParseFlags,
      done: seq<Field>, serial: nat)
  {
    && Scan(text, bad).0.StringToken?
    && ParseFields(Scan(text, bad).0, Scan(text, bad).1, bad, pf, done, serial) ==
         var all := SetField(done, key, serial, v);
         if Scan(next, bad).0 == Punct(0x7D) then Some((Obj(all), Scan(next, bad).1))
         else if Scan(next, bad).0 != Punct(0x2C) then None
         else
           var (t, s) := Scan(Scan(next, bad).1, bad);
           ParseFields(t, s, bad, pf, all, serial + 1)
  }

  /** The text is read as the rest of an object, which comes to those fields. */
  ghost predicate EntriesReadAs(text: seq<Byte>, fs: seq<Field>, rest: seq<Byte>, bad: bool, pf: ParseFlags,
      done: seq<Field>, serial: nat)
  {
    && Scan(text, bad).0.StringToken?
    && ParseFields(Scan(text, bad).0, Scan(text, bad).1, bad, pf, done, serial) == Some((Obj(fs), rest))
  }

  lemma EntryStep(text: seq<Byte>, key: seq<Byte>, sep: seq<Byte>, value: seq<Byte>, v: Json, tail: seq<Byte>,
      next: seq<Byte>, bad: bool, pf: ParseFlags, done: seq<Field>, serial: nat)
    requires 0 !in key && !(pf.rejectDuplicates && FindField(done, key).Some?)
    requires Scan(text, bad) == (StringToken(key), sep) && Scan(sep, bad) == (Punct(0x3A), value)
    requires ReadAs(value, v, tail, bad, pf) && Scan(tail, bad) == Scan(next, bad)
    ensures EntryReadAs(text, key, v, next, bad, pf, done, serial)
  {
    hide Scan, ParseValue, FindField, SetField;
  }

  lemma EntryParts(entry: Entry, more: seq<Byte>)
    ensures EntryText(entry) + more
         == entry.before + (StringText(entry.key) + (entry.middle + ([0x3A] + (ItemText(entry.item) + more))))
  {
    hide StringText, ItemText;
  }

  lemma EntryMeansParts(entry: Entry, key: seq<Byte>, v: Json, pf: ParseFlags)
    requires EntryMeans(entry, key, v, pf)
    ensures Blank(entry.before) && Blank(entry.middle) && PiecesMean(entry.key, key) && 0 !in key
    ensures ItemMeans(entry.item, v, pf)
  {
    hide Blank, PiecesMean, ItemMeans;
  }

  lemma {:induction false} EntryReads(entry: Entry, key: seq<Byte>, v: Json, more: seq<Byte>, bad: bool,
      pf: ParseFlags, done: seq<Field>, serial: nat)
    requires EntryMeans(entry, key, v, pf) && Closes(more)
    requires !(pf.rejectDuplicates && FindField(done, key).Some?)
    ensures EntryReadAs(EntryText(entry) + more, key, v, more, bad, pf, done, serial)
    decreases entry, 2
  {
    hide *;
    EntryMeansParts(entry, key, v, pf);
    var value := ItemText(entry.item) + more;
    var sep := entry.middle + ([0x3A] + value);
    EntryParts(entry, more);
    BlankSkips(entry.before, StringText(entry.key) + sep, bad);
    StringTokenReads(entry.key, key, sep, bad);
    BlankSkips(entry.middle, [0x3A] + value, bad);
    ColonReads(value, bad);
    ItemReads(entry.item, v, more, bad, pf);
    EntryStep(EntryText(entry) + more, key, sep, value, v, entry.item.after + more, more, bad, pf, done, serial);
  }

  lemma ColonReads(more: seq<Byte>, bad: bool)
    ensures Scan([0x3A] + more, bad) == (Punct(0x3A), more)
  {
    ScanPunct(0x3A, more, bad);
  }

  lemma EntriesParts(entries: seq<Entry>, close: seq<Byte>)
    requires entries != []
    ensures |entries| == 1 ==> EntriesText(entries) + close == EntryText(entries[0]) + close
    ensures |entries| > 1 ==>
              EntriesText(entries) + close == EntryText(entries[0]) + ([0x2C] + (EntriesText(entries[1..]) + close))
  {
    hide EntryText;
    Joined(EntryText(entries[0]), EntriesText(entries[1..]), close);
  }

  lemma EntriesMeanParts(entries: seq<Entry>, keys: seq<seq<Byte>>, values: seq<Json>, pf: ParseFlags)
    requires entries != [] && EntriesMean(entries, keys, values, pf)
    ensures |keys| == |values| == |entries| && EntryMeans(entries[0], keys[0], values[0], pf)
    ensures EntriesMean(entries[1..], keys[1..], values[1..], pf)
  {
    hide EntryMeans;
  }

  lemma EntriesLast(text: seq<Byte>, key: seq<Byte>, v: Json, next: seq<Byte>, rest: seq<Byte>, bad: bool,
      pf: ParseFlags, done: seq<Field>, serial: nat)
    requires EntryReadAs(text, key, v, next, bad, pf, done, serial) && Scan(next, bad) == (Punct(0x7D), rest)
    ensures EntriesReadAs(text, SetField(done, key, serial, v), rest, bad, pf, done, serial)
  {
    hide Scan, ParseFields, SetField;
  }

  lemma EntriesMore(text: seq<Byte>, key: seq<Byte>, v: Json, next: seq<Byte>, more: seq<Byte>, fs: seq<Field>,
      rest: seq<Byte>, bad: bool, pf: ParseFlags, done: seq<Field>, serial: nat)
    requires EntryReadAs(text, key, v, next, bad, pf, done, serial) && Scan(next, bad) == (Punct(0x2C), more)
    requires EntriesReadAs(more, fs, rest, bad, pf, SetField(done, key, serial, v), serial + 1)
    ensures EntriesReadAs(text, fs, rest, bad, pf, done, serial)
  {
    hide Scan, ParseFields, SetField;
  }

  /** The keys up to now, with the next one, and those behind it. */
  lemma NextKey(ks: seq<seq<Byte>>, vs: seq<Json>, keys: seq<seq<Byte>>, values: seq<Json>)
    requires |keys| == |values| > 0
    ensures ks + [keys[0]] + keys[1..] == ks + keys && vs + [values[0]] + values[1..] == vs + values
    ensures |keys| == 1 ==> ks + [keys[0]] == ks + keys && vs + [values[0]] == vs + values
  {
  }

  lemma NewKey(ks: seq<seq<Byte>>, keys: seq<seq<Byte>>)
    requires keys != [] && Distinct(ks + keys)
    ensures keys[0] !in ks
  {
    assert (ks + keys)[|ks|] == keys[0];
    assert forall i | 0 <= i < |ks| :: (ks + keys)[i] == ks[i];
  }

  /** A key may be read unless it came before and duplicates are refused. */
  lemma KeyIsAdmitted(done: seq<Field>, ks: seq<seq<Byte>>, vs: seq<Json>, keys: seq<seq<Byte>>, pf: ParseFlags)
    requires FieldsMean(done, ks, vs) && keys != [] && (pf.rejectDuplicates ==> Distinct(ks + keys))
    ensures !(pf.rejectDuplicates && FindField(done, keys[0]).Some?)
  {
    hide FieldsMean, FindField;
    if pf.rejectDuplicates {
      NewKey(ks, keys);
      FoundIff(done, ks, vs, keys[0]);
    }
  }

  lemma {:induction false} EntriesRead(entries: seq<Entry>, keys: seq<seq<Byte>>, values: seq<Json>, rest: seq<Byte>,
      bad: bool, pf: ParseFlags, done: seq<Field>, ks: seq<seq<Byte>>, vs: seq<Json>) returns (fs: seq<Field>)
    requires entries != [] && EntriesMean(entries, keys, values, pf) && FieldsMean(done, ks, vs)
    requires pf.rejectDuplicates ==> Distinct(ks + keys)
    ensures FieldsMean(fs, ks + keys, vs + values)
    ensures EntriesReadAs(EntriesText(entries) + ([0x7D] + rest), fs, rest, bad, pf, done, |ks|)
    decreases entries, 0
  {
    hide *;
    var close := [0x7D] + rest;
    var text := EntriesText(entries) + close;
    EntriesParts(entries, close);
    EntriesMeanParts(entries, keys, values, pf);
    KeyIsAdmitted(done, ks, vs, keys, pf);
    NextKey(ks, vs, keys, values);
    SetFieldMeans(done, ks, vs, keys[0], values[0]);
    var all := SetField(done, keys[0], |ks|, values[0]);
    if |entries| == 1 {
      CloseReads(0x7D, rest, bad);
      EntryReads(entries[0], keys[0], values[0], close, bad, pf, done, |ks|);
      EntriesLast(text, keys[0], values[0], close, rest, bad, pf, done, |ks|);
      fs := all;
    } else {
      var more := EntriesText(entries[1..]) + close;
      CommaReads(more, bad);
      EntryReads(entries[0], keys[0], values[0], [0x2C] + more, bad, pf, done, |ks|);
      fs := EntriesRead(entries[1..], keys[1..], values[1..], rest, bad, pf, all, ks + [keys[0]], vs + [values[0]]);
      EntriesMore(text, keys[0], values[0], [0x2C] + more, more, fs, rest, bad, pf, done, |ks|);
    }
  }

  lemma EmptyObjectReads(text: seq<Byte>, inner: seq<Byte>, rest: seq<Byte>, bad: bool, pf: ParseFlags)
    requires Scan(text, bad) == (Punct(0x7B), inner) && Scan(inner, bad) == (Punct(0x7D), rest)
    ensures ReadAs(text, Obj([]), rest, bad, pf)
  {
    hide Scan;
    assert ParseObject(inner, bad, pf) == Some((Obj([]), rest));
  }

  lemma EntriesBegin(text: seq<Byte>, more: seq<Byte>, fs: seq<Field>, rest: seq<Byte>, bad: bool, pf: ParseFlags)
    requires Scan(text, bad) == (Punct(0x7B), more) && EntriesReadAs(more, fs, rest, bad, pf, [], 0)
    ensures ReadAs(text, Obj(fs), rest, bad, pf)
  {
    hide Scan, ParseFields;
    assert ParseObject(more, bad, pf) == Some((Obj(fs), rest));
  }

  lemma BracedParts(gap: seq<Byte>, entries: seq<Entry>, rest: seq<Byte>)
    ensures PhraseText(Braced(gap, entries)) + rest
         == [0x7B] + ((if entries == [] then gap else EntriesText(entries)) + ([0x7D] + rest))
  {
    hide EntriesText;
  }

  lemma NoEntries(fs: seq<Field>, keys: seq<seq<Byte>>, values: seq<Json>, pf: ParseFlags)
    requires EntriesMean([], keys, values, pf) && FieldsMean(fs, keys, values)
    ensures fs == []
  {
    FirstIn(fs);
  }

  lemma NothingBefore(keys: seq<seq<Byte>>, values: seq<Json>)
    ensures [] + keys == keys && [] + values == values && FieldsMean([], [], [])
  {
  }

  lemma {:induction false} BracedReads(gap: seq<Byte>, entries: seq<Entry>, keys: seq<seq<Byte>>, values: seq<Json>,
      fs: seq<Field>, rest: seq<Byte>, bad: bool, pf: ParseFlags)
    requires Blank(gap) && EntriesMean(entries, keys, values, pf) && (pf.rejectDuplicates ==> Distinct(keys))
    requires FieldsMean(fs, keys, values)
    ensures ReadAs(PhraseText(Braced(gap, entries)) + rest, Obj(fs), rest, bad, pf)
    decreases entries, 1
  {
    hide *;
    var text := PhraseText(Braced(gap, entries)) + rest;
    var close := [0x7D] + rest;
    BracedParts(gap, entries, rest);
    if entries == [] {
      NoEntries(fs, keys, values, pf);
      OpenReads(0x7B, gap + close, bad);
      BlankSkips(gap, close, bad);
      CloseReads(0x7D, rest, bad);
      EmptyObjectReads(text, gap + close, rest, bad, pf);
    } else {
      var more := EntriesText(entries) + close;
      OpenReads(0x7B, more, bad);
      NothingBefore(keys, values);
      var gs := EntriesRead(entries, keys, values, rest, bad, pf, [], [], []);
      FieldsUnique(fs, gs, keys, values);
      EntriesBegin(text, more, fs, rest, bad, pf);
    }
  }

  // ---- Values ----

  /** A value of the grammar is read as what it means, and what follows it is left. */
  lemma {:induction false} PhraseReads(x: Phrase, v: Json, rest: seq<Byte>, bad: bool, pf: ParseFlags)
    requires Means(x, v, pf) && PhraseEnds(x, rest) && Unget(rest) == rest
    ensures ReadAs(PhraseText(x) + rest, v, rest, bad, pf)
    decreases x, 1
  {
    hide ReadAs, Unget, Blank, NumeralText, StringText, ItemsText, EntriesText, FieldsMean, PiecesMean, Distinct,
      NumeralValue, NumeralEnds;
    match x
    case Word(letters) => WordReads(letters, v, rest, bad, pf);
    case Numeric(number) => NumericReads(number, v, rest, bad, pf);
    case Quoted(ps) => QuotedReads(ps, v, rest, bad, pf);
    case Bracketed(gap, items) => BracketedReads(gap, items, v.elems, rest, bad, pf);
    case Braced(gap, entries) =>
      var keys, values :| EntriesMean(entries, keys, values, pf) && (pf.rejectDuplicates ==> Distinct(keys))
          && FieldsMean(v.fields, keys, values);
      BracedReads(gap, entries, keys, values, v.fields, rest, bad, pf);
  }
}
