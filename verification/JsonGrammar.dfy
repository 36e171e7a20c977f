/**
 JSON text as a grammar, with what it means, apart from any way of reading it. A derivation says how a
 text is put together; libjansson/jansson-2.7/src/load.c accepts the texts that have one.
 */
module JsonGrammar {

  import opened JsonUtf8
  import opened JsonValue
  import opened JsonParser

  // ---- Strings ----

  /** A piece of a string: a byte as it is, a two-character escape, an escape in hexadecimal, or two of them
      for a code point above the basic plane. */
  datatype Piece = Byte1(b: Byte) | Short(letter: Byte) | Hex(digits: seq<Byte>) | Pair(high: seq<Byte>, low: seq<Byte>)

  function PieceText(p: Piece): seq<Byte> {
    match p
    case Byte1(b) => [b]
    case Short(letter) => [0x5C, letter]
    case Hex(digits) => [0x5C, 0x75] + digits
    case Pair(high, low) => [0x5C, 0x75] + high + ([0x5C, 0x75] + low)
  }

  /** `0123456789abcdef` and `0123456789ABCDEF` */
  const LOWER: seq<Byte> :=
    [0x30, 0x31, 0x32, 0x33, 0x34, 0x35, 0x36, 0x37, 0x38, 0x39, 0x61, 0x62, 0x63, 0x64, 0x65, 0x66]
  const UPPER: seq<Byte> :=
    [0x30, 0x31, 0x32, 0x33, 0x34, 0x35, 0x36, 0x37, 0x38, 0x39, 0x41, 0x42, 0x43, 0x44, 0x45, 0x46]

  predicate IsHex(c: Byte, d: nat) {
    d < 16 && (c == LOWER[d] || c == UPPER[d])
  }

  /** Four hexadecimal digits, in any mix of cases, spell the number. */
  ghost predicate SpellsHex(digits: seq<Byte>, v: nat) {
    |digits| == 4 && exists a: nat, b: nat, c: nat, d: nat ::
      && IsHex(digits[0], a) && IsHex(digits[1], b) && IsHex(digits[2], c) && IsHex(digits[3], d)
      && v == a * 0x1000 + b * 0x100 + c * 0x10 + d
  }

  /** The letters of the two-character escapes and what they stand for. */
  const SHORTS: seq<(Byte, Byte)> :=
    [(0x22, 0x22), (0x5C, 0x5C), (0x2F, 0x2F), (0x62, 0x08), (0x66, 0x0C), (0x6E, 0x0A), (0x72, 0x0D), (0x74, 0x09)]

  ghost predicate PieceMeans(p: Piece, bytes: seq<Byte>) {
    match p
    case Byte1(b) => b >= 0x20 && b != 0x22 && b != 0x5C && bytes == [b]
    case Short(letter) => exists i | 0 <= i < |SHORTS| :: SHORTS[i].0 == letter && bytes == [SHORTS[i].1]
    case Hex(digits) => exists v: nat :: SpellsHex(digits, v) && !(0xD800 <= v <= 0xDFFF) && Encode(v) == Some(bytes)
    case Pair(high, low) =>
      exists v: nat, w: nat :: SpellsHex(high, v) && SpellsHex(low, w) && PairMeans(v, w, bytes)
  }

  /** The halves of a surrogate pair and the encoding of the code point. */
  ghost predicate PairMeans(v: nat, w: nat, bytes: seq<Byte>) {
    && 0xD800 <= v <= 0xDBFF && 0xDC00 <= w <= 0xDFFF
    && Encode(0x1_0000 + (v - 0xD800) * 0x400 + (w - 0xDC00)) == Some(bytes)
  }

  function PiecesText(ps: seq<Piece>): seq<Byte> {
    if ps == [] then [] else PieceText(ps[0]) + PiecesText(ps[1..])
  }

  ghost predicate PiecesMean(ps: seq<Piece>, bytes: seq<Byte>)
    decreases |ps|
  {
    if ps == [] then bytes == []
    else exists n | 0 <= n <= |bytes| :: PieceMeans(ps[0], bytes[..n]) && PiecesMean(ps[1..], bytes[n..])
  }

  function StringText(ps: seq<Piece>): seq<Byte> {
    [0x22] + PiecesText(ps) + [0x22]
  }

  // ---- Numbers and words ----

  ghost predicate AllDigits(s: seq<Byte>) {
    s != [] && forall c | c in s :: 0x30 <= c <= 0x39
  }

  /** A number: an optional minus, digits without a needless zero in front, a fraction, an exponent. */
  datatype Numeral = Numeral(minus: bool, whole: seq<Byte>, fraction: seq<Byte>, exponent: seq<Byte>)

  function NumeralText(x: Numeral): seq<Byte> {
    (if x.minus then [0x2D] else []) + x.whole + x.fraction + x.exponent
  }

  ghost predicate IsNumeral(x: Numeral) {
    && AllDigits(x.whole) && (|x.whole| > 1 ==> x.whole[0] != 0x30)
    && (x.fraction != [] ==> x.fraction[0] == 0x2E && AllDigits(x.fraction[1..]))
    && (x.exponent != [] ==>
          && (x.exponent[0] == 0x45 || x.exponent[0] == 0x65)
          && (AllDigits(x.exponent[1..])
              || (|x.exponent| > 1 && (x.exponent[1] == 0x2B || x.exponent[1] == 0x2D) && AllDigits(x.exponent[2..]))))
  }

  predicate IsReal(x: Numeral) {
    x.fraction != [] || x.exponent != []
  }

  /** What may follow a number: nothing that would go on with it. */
  ghost predicate NumeralEnds(x: Numeral, rest: seq<Byte>) {
    rest != [] ==>
      && !(0x30 <= rest[0] <= 0x39)
      && (x.exponent == [] ==> rest[0] != 0x45 && rest[0] != 0x65)
      && (!IsReal(x) ==> rest[0] != 0x2E)
  }

  function Power10(n: nat): (p: nat)
    ensures p > 0
  {
    if n == 0 then 1 else 10 * Power10(n - 1)
  }

  /** What digits are worth, place by place. */
  function Worth(s: seq<Byte>): int {
    if s == [] then 0
    else
      var digit: int := s[0];
      (digit - 0x30) * Power10(|s| - 1) + Worth(s[1..])
  }

  function IntegerWorth(x: Numeral): int {
    if x.minus then -Worth(x.whole) else Worth(x.whole)
  }

  // ---- Values ----

  /** A value as it is written, with the spaces in it. */
  datatype Phrase = Word(letters: seq<Byte>) | Numeric(number: Numeral) | Quoted(pieces: seq<Piece>)
                  | Bracketed(gap: seq<Byte>, items: seq<Item>) | Braced(gap: seq<Byte>, entries: seq<Entry>)

  datatype Item = Item(before: seq<Byte>, phrase: Phrase, after: seq<Byte>)

  datatype Entry = Entry(before: seq<Byte>, key: seq<Piece>, middle: seq<Byte>, item: Item)

  /** `gap` is what an empty pair of brackets holds. */
  function PhraseText(x: Phrase): seq<Byte>
    decreases x, 1
  {
    match x
    case Word(letters) => letters
    case Numeric(number) => NumeralText(number)
    case Quoted(ps) => StringText(ps)
    case Bracketed(gap, items) => [0x5B] + (if items == [] then gap else ItemsText(items)) + [0x5D]
    case Braced(gap, entries) => [0x7B] + (if entries == [] then gap else EntriesText(entries)) + [0x7D]
  }

  function ItemText(item: Item): seq<Byte>
    decreases item, 2
  {
    item.before + PhraseText(item.phrase) + item.after
  }

  function ItemsText(items: seq<Item>): seq<Byte>
    decreases items, 0
  {
    if items == [] then [] else ItemText(items[0]) + if |items| == 1 then [] else [0x2C] + ItemsText(items[1..])
  }

  function EntryText(entry: Entry): seq<Byte>
    decreases entry, 2
  {
    entry.before + StringText(entry.key) + entry.middle + [0x3A] + ItemText(entry.item)
  }

  function EntriesText(entries: seq<Entry>): seq<Byte>
    decreases entries, 0
  {
    if entries == [] then []
    else EntryText(entries[0]) + if |entries| == 1 then [] else [0x2C] + EntriesText(entries[1..])
  }

  /** Spaces, tabs and line ends. */
  ghost predicate Blank(s: seq<Byte>) {
    forall c | c in s :: c == 0x20 || c == 0x09 || c == 0x0A || c == 0x0D
  }

  /** The value that is written so, under the flags. */
  ghost predicate Means(x: Phrase, v: Json, pf: ParseFlags)
    decreases x, 1
  {
    match x
    case Word(letters) =>
      || (v == True && letters == [0x74, 0x72, 0x75, 0x65])
      || (v == False && letters == [0x66, 0x61, 0x6C, 0x73, 0x65])
      || (v == Null && letters == [0x6E, 0x75, 0x6C, 0x6C])
    case Numeric(number) => NumeralValue(number, v)
    case Quoted(ps) => v.Str? && PiecesMean(ps, v.bytes) && (pf.allowNul || 0 !in v.bytes)
    case Bracketed(gap, items) => v.Arr? && Blank(gap) && ItemsMean(items, v.elems, pf)
    case Braced(gap, entries) =>
      && v.Obj? && Blank(gap)
      && exists keys, values ::
           EntriesMean(entries, keys, values, pf) && (pf.rejectDuplicates ==> Distinct(keys))
           && FieldsMean(v.fields, keys, values)
  }

  /** Integers fit 64 bits; a number with a fraction or an exponent is a real. */
  ghost predicate NumeralValue(x: Numeral, v: Json) {
    && IsNumeral(x)
    && if IsReal(x) then v == Real(NumeralText(x))
       else -0x8000_0000_0000_0000 <= IntegerWorth(x) <= 0x7FFF_FFFF_FFFF_FFFF && v == Integer(IntegerWorth(x))
  }

  ghost predicate ItemMeans(item: Item, v: Json, pf: ParseFlags)
    decreases item, 2
  {
    Blank(item.before) && Blank(item.after) && Means(item.phrase, v, pf)
  }

  ghost predicate ItemsMean(items: seq<Item>, vs: seq<Json>, pf: ParseFlags)
    decreases items, 0
  {
    |items| == |vs| && (items != [] ==> ItemMeans(items[0], vs[0], pf) && ItemsMean(items[1..], vs[1..], pf))
  }

  /** A key has no NUL, whatever the flags. */
  ghost predicate EntryMeans(entry: Entry, key: seq<Byte>, v: Json, pf: ParseFlags)
    decreases entry, 2
  {
    && Blank(entry.before) && Blank(entry.middle)
    && PiecesMean(entry.key, key) && 0 !in key && ItemMeans(entry.item, v, pf)
  }

  ghost predicate EntriesMean(entries: seq<Entry>, keys: seq<seq<Byte>>, values: seq<Json>, pf: ParseFlags)
    decreases entries, 0
  {
    && |entries| == |keys| == |values|
    && (entries != [] ==>
          EntryMeans(entries[0], keys[0], values[0], pf)
          && EntriesMean(entries[1..], keys[1..], values[1..], pf))
  }

  ghost predicate Distinct(keys: seq<seq<Byte>>) {
    forall i, j | 0 <= i < j < |keys| :: keys[i] != keys[j]
  }

  ghost predicate FirstAt(keys: seq<seq<Byte>>, i: nat) {
    i < |keys| && forall j | 0 <= j < i :: keys[j] != keys[i]
  }

  ghost predicate LastAt(keys: seq<seq<Byte>>, i: nat) {
    i < |keys| && forall j | i < j < |keys| :: keys[j] != keys[i]
  }

  /** What keys with values in that order come to: one field for each key, at the place of its first
      occurrence, which is also its serial number, with the value of its last one. */
  ghost predicate FieldsMean(fs: seq<Field>, keys: seq<seq<Byte>>, values: seq<Json>) {
    && |keys| == |values|
    && (forall i, j | 0 <= i < j < |fs| :: fs[i].serial < fs[j].serial)
    && (forall f | f in fs :: FirstAt(keys, f.serial) && keys[f.serial] == f.key)
    && (forall i: nat :: FirstAt(keys, i) ==> exists f :: f in fs && f.serial == i)
    && (forall f, i: nat | f in fs && LastAt(keys, i) && keys[i] == f.key :: f.value == values[i])
  }

  /** What may follow a value: nothing that would go on with it. */
  ghost predicate PhraseEnds(x: Phrase, rest: seq<Byte>) {
    match x
    case Word(_) => rest == [] || !(0x41 <= rest[0] <= 0x5A || 0x61 <= rest[0] <= 0x7A)
    case Numeric(number) => NumeralEnds(number, rest)
    case _ => true
  }

  predicate Composite(x: Phrase) {
    x.Bracketed? || x.Braced?
  }
}
