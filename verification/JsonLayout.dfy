/**
 The text that libjansson/jansson-2.7/src/dump.c writes, described with the grammar: a value of it with that
 meaning, laid out as the flags ask.
 */
module JsonLayout {

  import opened JsonUtf8
  import opened JsonString
  import opened JsonValue
  import opened JsonRoundTrip
  import opened JsonGrammar
  import opened JsonTokens
  import opened JsonNumbers

  // ---- What the flags ask for ----

  /** Before or behind a member: with an indent a new line and spaces in proportion to the depth; without one a
      space after a comma, unless the text is to be compact. */
  ghost predicate Gap(s: seq<Byte>, fl: DumpFlags, depth: nat, comma: bool) {
    if fl.indent > 0 then |s| == 1 + depth * fl.indent && s[0] == 0x0A && forall i | 1 <= i < |s| :: s[i] == 0x20
    else s == if comma && !fl.compact then [0x20] else []
  }

  /** Hexadecimal digits in upper case. */
  ghost predicate UpperHex(digits: seq<Byte>) {
    forall c | c in digits :: c in UPPER
  }

  /** A piece of a string is escaped only where that is needed or asked for, and in the shortest way. */
  ghost predicate Tidy(p: Piece, fl: DumpFlags) {
    match p
    case Byte1(b) => (fl.escapeSlash ==> b != 0x2F) && (fl.ensureAscii ==> b < 0x80)
    case Short(letter) => letter == 0x2F ==> fl.escapeSlash
    case Hex(digits) =>
      && UpperHex(digits)
      && forall v: nat | SpellsHex(digits, v) ::
           (v < 0x20 && !HasShort(v)) || (fl.ensureAscii && v >= 0x80)
    case Pair(high, low) => UpperHex(high) && UpperHex(low) && fl.ensureAscii
  }

  ghost predicate HasShort(v: nat) {
    exists i | 0 <= i < |SHORTS| :: SHORTS[i].1 == v
  }

  ghost predicate AllTidy(ps: seq<Piece>, fl: DumpFlags) {
    forall p | p in ps :: Tidy(p, fl)
  }

  /** A string with that meaning, tidily written. */
  ghost predicate StringLaid(ps: seq<Piece>, s: seq<Byte>, fl: DumpFlags) {
    PiecesMean(ps, s) && AllTidy(ps, fl)
  }

  /** How a value without reals is laid out at a depth. */
  ghost predicate Laid(x: Phrase, v: Json, fl: DumpFlags, depth: nat)
    decreases v, 1
  {
    match v
    case Null => x == Word([0x6E, 0x75, 0x6C, 0x6C])
    case True => x == Word([0x74, 0x72, 0x75, 0x65])
    case False => x == Word([0x66, 0x61, 0x6C, 0x73, 0x65])
    case Integer(i) =>
      x.Numeric? && IsNumeral(x.number) && !IsReal(x.number) && IntegerWorth(x.number) == i
      && (x.number.minus ==> i < 0)
    case Real(_) => false
    case Str(s) => x.Quoted? && StringLaid(x.pieces, s, fl)
    case Arr(es) => x.Bracketed? && x.gap == [] && ItemsLaid(x.items, es, fl, depth, true)
    case Obj(fs) =>
      && x.Braced? && x.gap == []
      && exists os: seq<Field> ::
           && multiset(os) == multiset(fs) && InAskedOrder(os, fs, fl)
           && (forall f | f in os :: f.value < v)
           && EntriesLaid(v, x.entries, os, fl, depth, true)
  }

  /** Where the first member of an array or an object is, or a later one, and whether it is the last. */
  ghost predicate Between(before: seq<Byte>, after: seq<Byte>, fl: DumpFlags, depth: nat, first: bool, last: bool) {
    Gap(before, fl, depth + 1, !first) && if last then Gap(after, fl, depth, false) else after == []
  }

  ghost predicate ItemsLaid(items: seq<Item>, es: seq<Json>, fl: DumpFlags, depth: nat, first: bool)
    decreases es, 0
  {
    && |items| == |es|
    && (items != [] ==>
          && Laid(items[0].phrase, es[0], fl, depth + 1)
          && Between(items[0].before, items[0].after, fl, depth, first, |items| == 1)
          && ItemsLaid(items[1..], es[1..], fl, depth, false))
  }

  /** The colon follows the key at once; a space follows the colon, unless the text is to be compact. */
  ghost predicate EntriesLaid(v: Json, entries: seq<Entry>, os: seq<Field>, fl: DumpFlags, depth: nat, first: bool)
    requires forall f | f in os :: f.value < v
    decreases v, 0, |os|
  {
    && |entries| == |os|
    && (entries != [] ==>
          && StringLaid(entries[0].key, os[0].key, fl)
          && entries[0].middle == [] && entries[0].item.before == (if fl.compact then [] else [0x20])
          && Laid(entries[0].item.phrase, os[0].value, fl, depth + 1)
          && Between(entries[0].before, entries[0].item.after, fl, depth, first, |entries| == 1)
          && EntriesLaid(v, entries[1..], os[1..], fl, depth, false))
  }

  // ---- Strings ----

  lemma {:induction false} PiecesAppend(ps: seq<Piece>, qs: seq<Piece>, a: seq<Byte>, b: seq<Byte>)
    requires PiecesMean(ps, a) && PiecesMean(qs, b)
    ensures PiecesMean(ps + qs, a + b) && PiecesText(ps + qs) == PiecesText(ps) + PiecesText(qs)
    decreases |ps|
  {
    if ps == [] {
      assert [] + qs == qs && [] + b == b;
      assert PiecesText(qs) == [] + PiecesText(qs);
    } else {
      hide *;
      var first, others := PiecesSplit(ps, a);
      PiecesAppend(ps[1..], qs, others, b);
      PiecesConcat(ps);
      FirstAndRest(ps);
      AppendOne(ps[0], ps[1..], qs, first, others, b);
    }
  }

  lemma FirstAndRest<T>(s: seq<T>)
    requires s != []
    ensures s == [s[0]] + s[1..]
  {
  }

  lemma AppendOne(p: Piece, rest: seq<Piece>, qs: seq<Piece>, first: seq<Byte>, others: seq<Byte>, b: seq<Byte>)
    requires PieceMeans(p, first) && PiecesMean(rest + qs, others + b)
    requires PiecesText(rest + qs) == PiecesText(rest) + PiecesText(qs)
    ensures PiecesMean([p] + rest + qs, first + others + b)
    ensures PiecesText([p] + rest + qs) == PieceText(p) + PiecesText(rest) + PiecesText(qs)
  {
    hide *;
    var all := PiecesJoin(p, first, rest + qs, others + b);
    Associative([p], rest, qs);
    Associative(first, others, b);
    Associative(PieceText(p), PiecesText(rest), PiecesText(qs));
  }

  lemma Associative<T>(a: seq<T>, b: seq<T>, c: seq<T>)
    ensures a + b + c == a + (b + c)
  {
  }

  lemma PieceAlone(p: Piece, bytes: seq<Byte>) returns (ps: seq<Piece>)
    requires PieceMeans(p, bytes)
    ensures ps == [p] && PiecesText(ps) == PieceText(p) && PiecesMean(ps, bytes)
  {
    hide PieceMeans, PieceText;
    assert PiecesMean([], []) && PiecesText([]) == [];
    ps := PiecesJoin(p, bytes, [], []);
    assert [p] + [] == [p] && bytes + [] == bytes && PieceText(p) + [] == PieceText(p);
  }

  /** Bytes as they are. */
  lemma {:induction false} RawPieces(bytes: seq<Byte>, fl: DumpFlags) returns (ps: seq<Piece>)
    requires Plain(bytes) && forall b | b in bytes :: (fl.escapeSlash ==> b != 0x2F) && (fl.ensureAscii ==> b < 0x80)
    ensures PiecesText(ps) == bytes && StringLaid(ps, bytes, fl)
  {
    if bytes == [] {
      ps := [];
      assert PiecesMean(ps, bytes);
    } else {
      assert bytes[0] in bytes && forall b | b in bytes[1..] :: b in bytes;
      var more := RawPieces(bytes[1..], fl);
      var first := [bytes[0]];
      ps := PiecesJoin(Byte1(bytes[0]), first, more, bytes[1..]);
      assert first + bytes[1..] == bytes;
      hide PiecesMean;
    }
  }

  lemma UpperDigit(d: nat)
    requires d < 16
    ensures HexDigit(d) == UPPER[d] && HexDigit(d) in UPPER && IsHex(HexDigit(d), d)
  {
  }

  lemma EscapeSpells(v: nat) returns (digits: seq<Byte>)
    requires v < 0x1_0000
    ensures UnicodeEscape(v) == [0x5C, 0x75] + digits && SpellsHex(digits, v) && UpperHex(digits)
  {
    var a, b, c, d := v / 0x1000, v / 0x100 % 16, v / 0x10 % 16, v % 16;
    digits := [HexDigit(a), HexDigit(b), HexDigit(c), HexDigit(d)];
    Nibbles(v);
    UpperDigit(a);
    UpperDigit(b);
    UpperDigit(c);
    UpperDigit(d);
    hide HexDigit, IsHex;
    assert IsHex(digits[0], a) && IsHex(digits[1], b) && IsHex(digits[2], c) && IsHex(digits[3], d);
    assert v == a * 0x1000 + b * 0x100 + c * 0x10 + d;
  }

  /** Digits spell one number. */
  lemma SpellsOne(digits: seq<Byte>, v: nat, w: nat)
    requires SpellsHex(digits, v) && SpellsHex(digits, w)
    ensures v == w
  {
    HexReads(digits, v, []);
    HexReads(digits, w, []);
  }

  lemma EscapedShort(cp: int, letter: Byte)
    requires Scalar(cp) && Shortcut(cp) == Some(letter)
    ensures EscapeText(cp) == [0x5C, letter] && PieceMeans(Short(letter), Encode(cp).value)
    ensures letter == 0x2F <==> cp == 0x2F
  {
    var i := if cp == 0x22 then 0 else if cp == 0x5C then 1 else if cp == 0x2F then 2 else if cp == 8 then 3
        else if cp == 12 then 4 else if cp == 10 then 5 else if cp == 13 then 6 else 7;
    assert SHORTS[i] == (letter, cp);
  }

  lemma EscapedHex(cp: int, fl: DumpFlags) returns (p: Piece)
    requires Scalar(cp) && cp < 0x1_0000 && Shortcut(cp).None? && Escaped(cp, fl)
    ensures Encode(cp).Some? && PieceText(p) == EscapeText(cp) && PieceMeans(p, Encode(cp).value) && Tidy(p, fl)
  {
    var digits := EscapeSpells(cp);
    p := Hex(digits);
    EncodeFirst(cp);
    assert HasShort(cp) ==> cp in {0x22, 0x5C, 0x2F, 8, 9, 10, 12, 13};
    hide SpellsHex, UpperHex, HasShort, UnicodeEscape, Encode;
    forall v: nat | SpellsHex(digits, v)
      ensures v == cp
    {
      SpellsOne(digits, v, cp);
    }
  }

  lemma PairPiece(cp: int, high: seq<Byte>, low: seq<Byte>, v: nat, w: nat)
    requires SpellsHex(high, v) && SpellsHex(low, w) && 0xD800 <= v <= 0xDBFF && 0xDC00 <= w <= 0xDFFF
    requires (v - 0xD800) * 0x400 + (w - 0xDC00) + 0x1_0000 == cp
    ensures Encode(cp).Some? && PieceMeans(Pair(high, low), Encode(cp).value)
  {
    assert cp == 0x1_0000 + (v - 0xD800) * 0x400 + (w - 0xDC00) && cp <= 0x10_FFFF;
    EncodeFirst(cp);
    hide SpellsHex, Encode;
    assert PairMeans(v, w, Encode(cp).value);
  }

  lemma EscapedPair(cp: int, fl: DumpFlags) returns (p: Piece)
    requires 0x1_0000 <= cp <= 0x10_FFFF && fl.ensureAscii
    ensures Encode(cp).Some? && PieceText(p) == EscapeText(cp) && PieceMeans(p, Encode(cp).value) && Tidy(p, fl)
  {
    var v, w := SplitPair(cp);
    var high := EscapeSpells(v);
    var low := EscapeSpells(w);
    p := Pair(high, low);
    hide *;
    PairPiece(cp, high, low, v, w);
    PairText(cp, high, low, v, w);
    PairTidy(high, low, fl);
  }

  lemma PairText(cp: int, high: seq<Byte>, low: seq<Byte>, v: nat, w: nat)
    requires 0x1_0000 <= cp <= 0x10_FFFF && v < 0x1_0000 && w < 0x1_0000
    requires v == 0xD800 + (cp - 0x1_0000) / 0x400 && w == 0xDC00 + (cp - 0x1_0000) % 0x400
    requires UnicodeEscape(v) == [0x5C, 0x75] + high && UnicodeEscape(w) == [0x5C, 0x75] + low
    ensures PieceText(Pair(high, low)) == EscapeText(cp)
  {
    hide UnicodeEscape;
  }

  lemma PairTidy(high: seq<Byte>, low: seq<Byte>, fl: DumpFlags)
    requires UpperHex(high) && UpperHex(low) && fl.ensureAscii
    ensures Tidy(Pair(high, low), fl)
  {
    hide UpperHex;
  }

  lemma RawBytes(cp: int, fl: DumpFlags)
    requires Scalar(cp) && !Escaped(cp, fl)
    ensures Encode(cp).Some? && Plain(Encode(cp).value)
    ensures forall b | b in Encode(cp).value :: (fl.escapeSlash ==> b != 0x2F) && (fl.ensureAscii ==> b < 0x80)
  {
  }

  /** How one code point is written. */
  lemma TextLaid(cp: int, fl: DumpFlags) returns (ps: seq<Piece>)
    requires Scalar(cp)
    ensures Encode(cp).Some? && PiecesText(ps) == Text(cp, fl) && StringLaid(ps, Encode(cp).value, fl)
  {
    EncodeFirst(cp);
    hide Encode, PieceMeans, PieceText, PiecesText, PiecesMean, EscapeText;
    if !Escaped(cp, fl) {
      RawBytes(cp, fl);
      ps := RawPieces(Encode(cp).value, fl);
    } else if Shortcut(cp).Some? {
      EscapedShort(cp, Shortcut(cp).value);
      ShortText(Shortcut(cp).value);
      ps := PieceAlone(Short(Shortcut(cp).value), Encode(cp).value);
    } else if cp < 0x1_0000 {
      var p := EscapedHex(cp, fl);
      hide Tidy;
      ps := PieceAlone(p, Encode(cp).value);
    } else {
      var p := EscapedPair(cp, fl);
      hide Tidy;
      ps := PieceAlone(p, Encode(cp).value);
    }
  }

  lemma ShortText(letter: Byte)
    ensures PieceText(Short(letter)) == [0x5C, letter]
  {
  }

  lemma LaidAppend(ps: seq<Piece>, qs: seq<Piece>, a: seq<Byte>, b: seq<Byte>, fl: DumpFlags)
    requires StringLaid(ps, a, fl) && StringLaid(qs, b, fl)
    ensures StringLaid(ps + qs, a + b, fl) && PiecesText(ps + qs) == PiecesText(ps) + PiecesText(qs)
  {
    PiecesAppend(ps, qs, a, b);
    hide PiecesMean, PiecesText, Tidy;
  }

  lemma EmptyLaid(fl: DumpFlags)
    ensures PiecesText([]) == Body([], [], fl) && StringLaid([], [], fl)
  {
  }

  lemma FirstText(s: seq<Byte>, fl: DumpFlags) returns (cp: int, a: seq<Byte>, b: seq<Byte>)
    requires Valid(s) && s != []
    ensures s == a + b && |b| < |s| && Scalar(cp) && Encode(cp) == Some(a) && Valid(b)
    ensures Body(s, [], fl) == Text(cp, fl) + Body(b, [], fl)
  {
    hide *;
    var count;
    cp, count := BodyFirst(s, fl);
    a, b := s[..count], s[count..];
  }

  lemma {:induction false} BodyLaid(s: seq<Byte>, fl: DumpFlags) returns (ps: seq<Piece>)
    requires Valid(s)
    ensures PiecesText(ps) == Body(s, [], fl) && StringLaid(ps, s, fl)
    decreases |s|
  {
    if s == [] {
      ps := [];
      EmptyLaid(fl);
    } else {
      hide *;
      var cp, a, b := FirstText(s, fl);
      var first := TextLaid(cp, fl);
      var more := BodyLaid(b, fl);
      LaidAppend(first, more, a, b, fl);
      ps := first + more;
    }
  }

  /** A string is written tidily and in quotes. */
  lemma DumpedString(s: seq<Byte>, fl: DumpFlags) returns (ps: seq<Piece>)
    requires Valid(s)
    ensures DumpString(s, fl) == StringText(ps) && StringLaid(ps, s, fl)
  {
    hide Body, Valid, PiecesText, StringLaid;
    ps := BodyLaid(s, fl);
  }

  // ---- Numbers and gaps ----

  lemma DumpedInteger(i: int) returns (number: Numeral)
    ensures IsNumeral(number) && !IsReal(number) && IntegerWorth(number) == i && (number.minus ==> i < 0)
    ensures NumeralText(number) == DumpInteger(i)
  {
    var m := if i < 0 then -i else i;
    DigitsAreWorth(m);
    number := Numeral(i < 0, Digits(m), [], []);
    hide Digits, Worth, AllDigits;
    assert NumeralText(number) == (if i < 0 then [0x2D] else []) + Digits(m);
    assert i >= 0 ==> [] + Digits(m) == Digits(m);
  }

  lemma {:induction false} SpacesAre(n: nat)
    ensures |Spaces(n)| == n
  {
    if n > 0 {
      SpacesAre(n - 1);
    }
  }

  lemma IndentIsGap(fl: DumpFlags, depth: nat, comma: bool)
    ensures Gap(Indent(fl, depth, comma), fl, depth, comma)
  {
    SpacesAre(depth * fl.indent);
    hide Spaces;
    var s := Spaces(depth * fl.indent);
    forall i | 1 <= i < 1 + |s|
      ensures ([0x0A] + s)[i] == 0x20
    {
      assert ([0x0A] + s)[i] == s[i - 1] && s[i - 1] in s;
    }
  }

  // ---- Values ----

  lemma ItemText1(item: Item, a: seq<Byte>, b: seq<Byte>, c: seq<Byte>)
    requires item.before == a && PhraseText(item.phrase) == b && item.after == c
    ensures ItemText(item) == a + b + c
  {
    hide PhraseText;
  }

  /** A dump is a value of the grammar, laid out as the flags ask. */
  lemma {:induction false} DumpLaid(v: Json, fl: DumpFlags, depth: nat) returns (x: Phrase)
    requires Proper(v)
    ensures PhraseText(x) == Dump(v, fl, depth) && Laid(x, v, fl, depth)
    decreases v, 1
  {
    match v
    case Integer(i) =>
      var number := DumpedInteger(i);
      x := Numeric(number);
    case Str(s) =>
      var ps := DumpedString(s, fl);
      x := Quoted(ps);
    case Arr(es) => x := ArrayLaid(es, fl, depth);
    case Obj(fs) => x := ObjectLaid(fs, fl, depth);
    case _ => x := Word(Dump(v, fl, depth));
  }

  lemma {:induction false} ArrayLaid(es: seq<Json>, fl: DumpFlags, depth: nat) returns (x: Phrase)
    requires forall e | e in es :: Proper(e)
    ensures PhraseText(x) == Dump(Arr(es), fl, depth) && Laid(x, Arr(es), fl, depth)
    decreases es, 1
  {
    hide *;
    if es == [] {
      x := Bracketed([], []);
      NothingLaid(fl, depth);
    } else {
      IndentIsGap(fl, depth + 1, false);
      var items := ElemsLaid(es, fl, depth, Indent(fl, depth + 1, false), true);
      x := Bracketed([], items);
      LaidArray(items, es, fl, depth);
    }
  }

  lemma NothingLaid(fl: DumpFlags, depth: nat)
    ensures PhraseText(Bracketed([], [])) == Dump(Arr([]), fl, depth) && Laid(Bracketed([], []), Arr([]), fl, depth)
    ensures PhraseText(Braced([], [])) == Dump(Obj([]), fl, depth) && Laid(Braced([], []), Obj([]), fl, depth)
  {
    var os: seq<Field> := [];
    assert multiset(os) == multiset([]) && InAskedOrder(os, [], fl) && EntriesLaid(Obj([]), [], os, fl, depth, true);
  }

  lemma LaidArray(items: seq<Item>, es: seq<Json>, fl: DumpFlags, depth: nat)
    requires es != [] && ItemsLaid(items, es, fl, depth, true)
    requires ItemsText(items) == Indent(fl, depth + 1, false) + DumpElems(es, fl, depth)
    ensures PhraseText(Bracketed([], items)) == Dump(Arr(es), fl, depth)
    ensures Laid(Bracketed([], items), Arr(es), fl, depth)
  {
    SameLength(items, es, fl, depth, true);
    hide *;
    ArrayIsLaid(items, es, fl, depth);
    BracketedText(items);
    DumpArray(es, fl, depth, []);
    var gap, text := Indent(fl, depth + 1, false), DumpElems(es, fl, depth);
    assert Dump(Arr(es), fl, depth) + [] == Dump(Arr(es), fl, depth);
    assert [0x5B] + (gap + text) + [0x5D] == [0x5B] + (gap + (text + ([0x5D] + [])));
  }

  lemma ArrayIsLaid(items: seq<Item>, es: seq<Json>, fl: DumpFlags, depth: nat)
    requires ItemsLaid(items, es, fl, depth, true)
    ensures Laid(Bracketed([], items), Arr(es), fl, depth)
  {
    hide ItemsLaid;
  }

  lemma BracketedText(items: seq<Item>)
    requires items != []
    ensures PhraseText(Bracketed([], items)) == [0x5B] + ItemsText(items) + [0x5D]
  {
    hide ItemsText;
  }

  lemma ItemsLaidCons(item: Item, items: seq<Item>, e: Json, es: seq<Json>, fl: DumpFlags, depth: nat, first: bool)
    requires Laid(item.phrase, e, fl, depth + 1) && Between(item.before, item.after, fl, depth, first, items == [])
    requires ItemsLaid(items, es, fl, depth, false)
    ensures ItemsLaid([item] + items, [e] + es, fl, depth, first)
    ensures ItemsText([item] + items) == ItemText(item) + if items == [] then [] else [0x2C] + ItemsText(items)
  {
    var all, vs := [item] + items, [e] + es;
    assert all[0] == item && all[1..] == items && vs[0] == e && vs[1..] == es && |es| == |items|;
    hide Laid, Between, ItemText;
  }

  lemma NoItemsLaid(fl: DumpFlags, depth: nat)
    ensures ItemsLaid([], [], fl, depth, false)
  {
  }

  /** The elements with what is written before the first of them. */
  lemma {:induction false} ElemsLaid(es: seq<Json>, fl: DumpFlags, depth: nat, before: seq<Byte>, first: bool)
      returns (items: seq<Item>)
    requires es != [] && (forall e | e in es :: Proper(e)) && Gap(before, fl, depth + 1, !first)
    ensures ItemsLaid(items, es, fl, depth, first) && ItemsText(items) == before + DumpElems(es, fl, depth)
    decreases es, 0
  {
    hide *;
    assert es[0] in es && forall e | e in es[1..] :: e in es;
    DumpElemsParts(es, fl, depth, []);
    assert es == [es[0]] + es[1..] && DumpElems(es, fl, depth) + [] == DumpElems(es, fl, depth);
    var x := DumpLaid(es[0], fl, depth + 1);
    var text := Dump(es[0], fl, depth + 1);
    if |es| == 1 {
      var after := Indent(fl, depth, false);
      IndentIsGap(fl, depth, false);
      var item := Item(before, x, after);
      LastBetween(before, after, fl, depth, first);
      ItemText1(item, before, text, after);
      NoItemsLaid(fl, depth);
      ItemsLaidCons(item, [], es[0], [], fl, depth, first);
      items := [item] + [];
      assert es == [es[0]] + [] && after + [] == after && ItemText(item) + [] == ItemText(item);
      assert before + text + after == before + (text + after);
    } else {
      var gap := Indent(fl, depth + 1, true);
      IndentIsGap(fl, depth + 1, true);
      var item := Item(before, x, []);
      MoreBetween(before, fl, depth, first);
      var more := ElemsLaid(es[1..], fl, depth, gap, false);
      SameLength(more, es[1..], fl, depth, false);
      ItemText1(item, before, text, []);
      ItemsLaidCons(item, more, es[0], es[1..], fl, depth, first);
      items := [item] + more;
      Spliced(before, text, gap, DumpElems(es[1..], fl, depth));
    }
  }

  lemma SameLength(items: seq<Item>, es: seq<Json>, fl: DumpFlags, depth: nat, first: bool)
    requires ItemsLaid(items, es, fl, depth, first)
    ensures |items| == |es|
  {
  }

  lemma LastBetween(before: seq<Byte>, after: seq<Byte>, fl: DumpFlags, depth: nat, first: bool)
    requires Gap(before, fl, depth + 1, !first) && Gap(after, fl, depth, false)
    ensures Between(before, after, fl, depth, first, true)
  {
    hide Gap;
  }

  lemma MoreBetween(before: seq<Byte>, fl: DumpFlags, depth: nat, first: bool)
    requires Gap(before, fl, depth + 1, !first)
    ensures Between(before, [], fl, depth, first, false)
  {
    hide Gap;
  }

  lemma Spliced(before: seq<Byte>, text: seq<Byte>, gap: seq<Byte>, more: seq<Byte>)
    ensures before + text + [] + ([0x2C] + (gap + more)) == before + (text + ([0x2C] + (gap + (more + []))))
  {
    assert more + [] == more;
  }

  lemma {:induction false} ObjectLaid(fs: seq<Field>, fl: DumpFlags, depth: nat) returns (x: Phrase)
    requires ProperFields(fs)
    ensures PhraseText(x) == Dump(Obj(fs), fl, depth) && Laid(x, Obj(fs), fl, depth)
    decreases Obj(fs), 0
  {
    hide *;
    if fs == [] {
      x := Braced([], []);
      NothingLaid(fl, depth);
    } else {
      var os := Ordered(fs, fl);
      OrderedProper(fs, fl);
      OrderedHolds(fs, fl);
      ProperKeys(os);
      OrderedAsAsked(fs, fl);
      DumpObject(fs, fl, depth, []);
      IndentIsGap(fl, depth + 1, false);
      var entries := FieldsLaid(Obj(fs), os, fl, depth, Indent(fl, depth + 1, false), true);
      x := Braced([], entries);
      LaidObject(entries, fs, os, fl, depth);
    }
  }

  lemma ProperKeys(fs: seq<Field>)
    requires ProperFields(fs)
    ensures DistinctKeys(fs)
  {
  }

  lemma LaidObject(entries: seq<Entry>, fs: seq<Field>, os: seq<Field>, fl: DumpFlags, depth: nat)
    requires fs != [] && os != [] && os == Ordered(fs, fl) && forall f | f in os :: f.value < Obj(fs)
    requires multiset(os) == multiset(fs) && InAskedOrder(os, fs, fl)
    requires EntriesLaid(Obj(fs), entries, os, fl, depth, true)
    requires EntriesText(entries) == Indent(fl, depth + 1, false) + DumpFields(Obj(fs), os, fl, depth)
    ensures PhraseText(Braced([], entries)) == Dump(Obj(fs), fl, depth)
    ensures Laid(Braced([], entries), Obj(fs), fl, depth)
  {
    hide *;
    LaidWitness(entries, fs, os, fl, depth);
    BracedText(entries);
    DumpObject(fs, fl, depth, []);
    var gap, text := Indent(fl, depth + 1, false), DumpFields(Obj(fs), os, fl, depth);
    assert Dump(Obj(fs), fl, depth) + [] == Dump(Obj(fs), fl, depth);
    assert [0x7B] + (gap + text) + [0x7D] == [0x7B] + (gap + (text + ([0x7D] + [])));
  }

  lemma BracedText(entries: seq<Entry>)
    requires entries != []
    ensures PhraseText(Braced([], entries)) == [0x7B] + EntriesText(entries) + [0x7D]
  {
    hide EntriesText;
  }

  lemma LaidWitness(entries: seq<Entry>, fs: seq<Field>, os: seq<Field>, fl: DumpFlags, depth: nat)
    requires os != [] && forall f | f in os :: f.value < Obj(fs)
    requires multiset(os) == multiset(fs) && InAskedOrder(os, fs, fl)
    requires EntriesLaid(Obj(fs), entries, os, fl, depth, true)
    ensures entries != [] && Laid(Braced([], entries), Obj(fs), fl, depth)
  {
    EntriesLength(Obj(fs), entries, os, fl, depth, true);
    hide EntriesLaid, InAskedOrder;
  }

  lemma EntriesLaidCons(v: Json, entry: Entry, entries: seq<Entry>, f: Field, os: seq<Field>, fl: DumpFlags, depth: nat,
      first: bool)
    requires f.value < v && (forall g | g in os :: g.value < v)
    requires StringLaid(entry.key, f.key, fl) && entry.middle == []
    requires entry.item.before == if fl.compact then [] else [0x20]
    requires Laid(entry.item.phrase, f.value, fl, depth + 1)
    requires Between(entry.before, entry.item.after, fl, depth, first, entries == [])
    requires EntriesLaid(v, entries, os, fl, depth, false)
    ensures forall g | g in [f] + os :: g.value < v
    ensures EntriesLaid(v, [entry] + entries, [f] + os, fl, depth, first)
    ensures EntriesText([entry] + entries) == EntryText(entry) + if entries == [] then []
        else [0x2C] + EntriesText(entries)
  {
    var all, fs := [entry] + entries, [f] + os;
    assert all[0] == entry && all[1..] == entries && fs[0] == f && fs[1..] == os && |os| == |entries|;
    hide Laid, Between, EntryText, StringLaid;
  }

  lemma NoEntriesLaid(v: Json, fl: DumpFlags, depth: nat)
    ensures EntriesLaid(v, [], [], fl, depth, false)
  {
  }

  lemma EntriesLength(v: Json, entries: seq<Entry>, os: seq<Field>, fl: DumpFlags, depth: nat,
      first: bool)
    requires (forall f | f in os :: f.value < v) && EntriesLaid(v, entries, os, fl, depth, first)
    ensures |entries| == |os|
  {
  }

  /** The separator is a colon and what is before the value. */
  lemma SeparatorIs(fl: DumpFlags)
    ensures Separator(fl) == [0x3A] + if fl.compact then [] else [0x20]
  {
  }

  lemma EntryText1(before: seq<Byte>, ps: seq<Piece>, x: Phrase, after: seq<Byte>, key: seq<Byte>, value: seq<Byte>,
      fl: DumpFlags) returns (entry: Entry)
    requires StringText(ps) == key && PhraseText(x) == value
    ensures entry == Entry(before, ps, [], Item(if fl.compact then [] else [0x20], x, after))
    ensures EntryText(entry) == before + (key + (Separator(fl) + (value + after)))
  {
    entry := Entry(before, ps, [], Item(if fl.compact then [] else [0x20], x, after));
    SeparatorIs(fl);
    hide StringText, PhraseText, Separator;
    var gap: seq<Byte> := if fl.compact then [] else [0x20];
    assert before + key + [] + [0x3A] + (gap + value + after) == before + (key + ([0x3A] + gap + (value + after)));
  }

  /** The fields in their order with what is written before the first of them. */
  lemma {:induction false} FieldsLaid(v: Json, os: seq<Field>, fl: DumpFlags, depth: nat, before: seq<Byte>,
      first: bool)
      returns (entries: seq<Entry>)
    requires os != [] && ProperFields(os) && (forall f | f in os :: f.value < v) && Gap(before, fl, depth + 1, !first)
    ensures EntriesLaid(v, entries, os, fl, depth, first)
    ensures EntriesText(entries) == before + DumpFields(v, os, fl, depth)
    decreases v, 0, |os|
  {
    hide *;
    assert os[0] in os;
    ProperFirst(os);
    DumpFieldsParts(v, os, fl, depth, []);
    assert os == [os[0]] + os[1..] && DumpFields(v, os, fl, depth) + [] == DumpFields(v, os, fl, depth);
    var ps := DumpedString(os[0].key, fl);
    var x := DumpLaid(os[0].value, fl, depth + 1);
    var key, value := DumpString(os[0].key, fl), Dump(os[0].value, fl, depth + 1);
    if |os| == 1 {
      var after := Indent(fl, depth, false);
      IndentIsGap(fl, depth, false);
      var entry := EntryText1(before, ps, x, after, key, value, fl);
      LastBetween(before, after, fl, depth, first);
      NoEntriesLaid(v, fl, depth);
      EntriesLaidCons(v, entry, [], os[0], [], fl, depth, first);
      entries := [entry] + [];
      assert os == [os[0]] + [] && after + [] == after && EntryText(entry) + [] == EntryText(entry);
    } else {
      var gap := Indent(fl, depth + 1, true);
      IndentIsGap(fl, depth + 1, true);
      var entry := EntryText1(before, ps, x, [], key, value, fl);
      MoreBetween(before, fl, depth, first);
      var more := FieldsLaid(v, os[1..], fl, depth, gap, false);
      EntriesLength(v, more, os[1..], fl, depth, false);
      EntriesLaidCons(v, entry, more, os[0], os[1..], fl, depth, first);
      entries := [entry] + more;
      SplicedField(before, key, Separator(fl), value, gap, DumpFields(v, os[1..], fl, depth));
    }
  }

  lemma SplicedField(before: seq<Byte>, key: seq<Byte>, sep: seq<Byte>, value: seq<Byte>, gap: seq<Byte>,
      more: seq<Byte>)
    ensures before + (key + (sep + (value + []))) + ([0x2C] + (gap + more))
         == before + (key + (sep + (value + ([0x2C] + (gap + (more + []))))))
  {
    assert more + [] == more && value + [] == value;
    Regroup(before, key, sep, value, [0x2C] + (gap + more));
  }

  lemma Regroup(a: seq<Byte>, b: seq<Byte>, c: seq<Byte>, d: seq<Byte>, e: seq<Byte>)
    ensures a + (b + (c + d)) + e == a + (b + (c + (d + e)))
  {
  }

  // ---- Nothing but ASCII ----

  ghost predicate AllAscii(s: seq<Byte>) {
    forall c | c in s :: c < 0x80
  }

  lemma PieceAscii(p: Piece, bytes: seq<Byte>, fl: DumpFlags)
    requires PieceMeans(p, bytes) && Tidy(p, fl) && fl.ensureAscii
    ensures AllAscii(PieceText(p))
  {
    hide HasShort, SpellsHex, PairMeans, Encode;
    assert AllAscii(UPPER);
  }

  lemma {:induction false} PiecesAscii(ps: seq<Piece>, s: seq<Byte>, fl: DumpFlags)
    requires PiecesMean(ps, s) && AllTidy(ps, fl) && fl.ensureAscii
    ensures AllAscii(PiecesText(ps))
    decreases |ps|
  {
    if ps != [] {
      var first, others := PiecesSplit(ps, s);
      assert ps[0] in ps && forall p | p in ps[1..] :: p in ps;
      hide PiecesMean, PieceMeans, PieceText, Tidy;
      PieceAscii(ps[0], first, fl);
      PiecesAscii(ps[1..], others, fl);
    }
  }

  lemma StringAscii(ps: seq<Piece>, s: seq<Byte>, fl: DumpFlags)
    requires StringLaid(ps, s, fl) && fl.ensureAscii
    ensures AllAscii(StringText(ps))
  {
    PiecesAscii(ps, s, fl);
    hide PiecesText;
  }

  lemma GapAscii(s: seq<Byte>, fl: DumpFlags, depth: nat, comma: bool)
    requires Gap(s, fl, depth, comma)
    ensures AllAscii(s)
  {
    forall c | c in s
      ensures c < 0x80
    {
      var i :| 0 <= i < |s| && s[i] == c;
    }
  }

  lemma BetweenAscii(before: seq<Byte>, after: seq<Byte>, fl: DumpFlags, depth: nat, first: bool, last: bool)
    requires Between(before, after, fl, depth, first, last)
    ensures AllAscii(before) && AllAscii(after)
  {
    hide Gap;
    GapAscii(before, fl, depth + 1, !first);
    if last {
      GapAscii(after, fl, depth, false);
    }
  }

  lemma NumeralAscii(x: Numeral)
    requires IsNumeral(x) && !IsReal(x)
    ensures AllAscii(NumeralText(x))
  {
    assert NumeralText(x) == (if x.minus then [0x2D] else []) + x.whole;
  }

  lemma {:induction false} LaidAscii(x: Phrase, v: Json, fl: DumpFlags, depth: nat)
    requires Laid(x, v, fl, depth) && fl.ensureAscii
    ensures AllAscii(PhraseText(x))
    decreases v, 1
  {
    hide StringText, StringLaid, NumeralText, IsNumeral, ItemsText, EntriesText, ItemsLaid, EntriesLaid, InAskedOrder;
    match v
    case Integer(_) => NumeralAscii(x.number);
    case Str(s) => StringAscii(x.pieces, s, fl);
    case Arr(es) => ItemsAscii(x.items, es, fl, depth, true);
    case Obj(fs) =>
      var os: seq<Field> :| multiset(os) == multiset(fs) && InAskedOrder(os, fs, fl)
          && (forall f | f in os :: f.value < v) && EntriesLaid(v, x.entries, os, fl, depth, true);
      EntriesAscii(v, x.entries, os, fl, depth, true);
    case _ =>
  }

  lemma {:induction false} ItemsAscii(items: seq<Item>, es: seq<Json>, fl: DumpFlags, depth: nat, first: bool)
    requires ItemsLaid(items, es, fl, depth, first) && fl.ensureAscii
    ensures AllAscii(ItemsText(items))
    decreases es, 0
  {
    if items != [] {
      hide Laid, Between, PhraseText;
      LaidAscii(items[0].phrase, es[0], fl, depth + 1);
      BetweenAscii(items[0].before, items[0].after, fl, depth, first, |items| == 1);
      ItemsAscii(items[1..], es[1..], fl, depth, false);
      hide ItemsLaid;
    }
  }

  lemma EntryAscii(e: Entry)
    requires AllAscii(e.before) && AllAscii(StringText(e.key)) && e.middle == []
    requires AllAscii(e.item.before) && AllAscii(PhraseText(e.item.phrase)) && AllAscii(e.item.after)
    ensures AllAscii(EntryText(e))
  {
    hide StringText, PhraseText;
    assert AllAscii(ItemText(e.item));
  }

  lemma MoreAscii(a: seq<Byte>, b: seq<Byte>)
    requires AllAscii(a) && AllAscii(b)
    ensures AllAscii(a + []) && AllAscii(a + ([0x2C] + b))
  {
  }

  lemma {:induction false} EntriesAscii(v: Json, entries: seq<Entry>, os: seq<Field>, fl: DumpFlags, depth: nat,
      first: bool)
    requires (forall f | f in os :: f.value < v) && EntriesLaid(v, entries, os, fl, depth, first) && fl.ensureAscii
    ensures AllAscii(EntriesText(entries))
    decreases v, 0, |os|
  {
    if entries != [] {
      var e := entries[0];
      assert e.middle == [] && AllAscii(e.item.before);
      hide Laid, Between, PhraseText, StringText, StringLaid, EntryText, AllAscii;
      StringAscii(e.key, os[0].key, fl);
      LaidAscii(e.item.phrase, os[0].value, fl, depth + 1);
      BetweenAscii(e.before, e.item.after, fl, depth, first, |entries| == 1);
      EntriesAscii(v, entries[1..], os[1..], fl, depth, false);
      hide EntriesLaid, AllAscii;
      EntryAscii(e);
      MoreAscii(EntryText(e), EntriesText(entries[1..]));
    }
  }

  /** With JSON_ENSURE_ASCII a dump has only bytes below 0x80. */
  lemma DumpAscii(v: Json, fl: DumpFlags, depth: nat)
    requires Proper(v) && fl.ensureAscii
    ensures forall c | c in Dump(v, fl, depth) :: c < 0x80
  {
    var x := DumpLaid(v, fl, depth);
    hide Dump, Laid, PhraseText;
    LaidAscii(x, v, fl, depth);
  }
}
