/**
 JSON strings: the text that libjansson/jansson-2.7/src/dump.c writes for one, and the two passes in
 which libjansson/jansson-2.7/src/load.c reads one (section 7 of RFC 8259).
 */
module JsonString {

  import opened JsonUtf8

  const QUOTE: Byte := 0x22
  const BACKSLASH: Byte := 0x5C
  const SLASH: Byte := 0x2F
  const LETTER_U: Byte := 0x75

  datatype DumpFlags = DumpFlags(indent: nat, compact: bool, ensureAscii: bool, sortKeys: bool, preserveOrder: bool,
      escapeSlash: bool)

  // ---- Writing ----

  /** The code points that are not written as they are. */
  predicate Escaped(cp: int, fl: DumpFlags) {
    || cp == BACKSLASH || cp == QUOTE || cp < 0x20
    || (fl.escapeSlash && cp == SLASH)
    || (fl.ensureAscii && cp > 0x7F)
  }

  /** One digit of `%X`. */
  function HexDigit(d: nat): Byte
    requires d < 16
  {
    if d < 10 then 0x30 + d else 0x41 + (d - 10)
  }

  /** `\u%04X` */
  function UnicodeEscape(v: nat): (r: seq<Byte>)
    requires v < 0x1_0000
  {
    [BACKSLASH, LETTER_U, HexDigit(v / 0x1000), HexDigit(v / 0x100 % 16), HexDigit(v / 0x10 % 16), HexDigit(v % 16)]
  }

  /** The letter of a two-character escape. */
  function Shortcut(cp: int): Option<Byte> {
    if cp == BACKSLASH then Some(BACKSLASH)
    else if cp == QUOTE then Some(QUOTE)
    else if cp == 8 then Some(0x62)
    else if cp == 12 then Some(0x66)
    else if cp == 10 then Some(0x6E)
    else if cp == 13 then Some(0x72)
    else if cp == 9 then Some(0x74)
    else if cp == SLASH then Some(SLASH)
    else None
  }

  /** The escape for a code point; a surrogate pair above the basic plane. */
  function EscapeText(cp: int): seq<Byte>
    requires Scalar(cp)
  {
    match Shortcut(cp)
    case Some(letter) => [BACKSLASH, letter]
    case None =>
      if cp < 0x1_0000 then UnicodeEscape(cp)
      else UnicodeEscape(0xD800 + (cp - 0x1_0000) / 0x400) + UnicodeEscape(0xDC00 + (cp - 0x1_0000) % 0x400)
  }

  /** What is written for the rest `s` of a string when the bytes of `run` were passed over but not yet
      written. They are lost when a byte that is no UTF-8 stops the writing. */
  function Body(s: seq<Byte>, run: seq<Byte>, fl: DumpFlags): seq<Byte>
    decreases |s|
  {
    match Iterate(s)
    case Nothing => run
    case Malformed => []
    case Char(cp, count) =>
      if Escaped(cp, fl) then
        IterateIffEncode(s, cp, count);
        run + EscapeText(cp) + Body(s[count..], [], fl)
      else Body(s[count..], run + s[..count], fl)
  }

  /** `dump_string`: everything it writes, also when it fails. */
  function DumpString(s: seq<Byte>, fl: DumpFlags): seq<Byte> {
    [QUOTE] + Body(s, [], fl) + if Valid(s) then [QUOTE] else []
  }

  /** How one code point is written. */
  function Text(cp: int, fl: DumpFlags): seq<Byte>
    requires Scalar(cp)
  {
    EncodeFirst(cp);
    if Escaped(cp, fl) then EscapeText(cp) else Encode(cp).value
  }

  lemma {:induction false} BodyRun(s: seq<Byte>, run: seq<Byte>, fl: DumpFlags)
    requires Valid(s)
    ensures Body(s, run, fl) == run + Body(s, [], fl)
    decreases |s|
  {
    if s == [] {
      assert run + [] == run;
    } else {
      var cp, count := DecodedFirst(s);
      if Escaped(cp, fl) {
        assert [] + EscapeText(cp) == EscapeText(cp);
        assert run + EscapeText(cp) + Body(s[count..], [], fl) == run + (EscapeText(cp) + Body(s[count..], [], fl));
      } else {
        BodyRun(s[count..], run + s[..count], fl);
        BodyRun(s[count..], [] + s[..count], fl);
        assert [] + s[..count] == s[..count];
        assert run + s[..count] + Body(s[count..], [], fl) == run + (s[..count] + Body(s[count..], [], fl));
      }
    }
  }

  /** A valid string is written code point by code point. */
  lemma BodyFirst(s: seq<Byte>, fl: DumpFlags) returns (cp: int, count: nat)
    requires Valid(s) && s != []
    ensures Scalar(cp) && 0 < count <= |s| && Encode(cp) == Some(s[..count]) && Valid(s[count..])
    ensures Body(s, [], fl) == Text(cp, fl) + Body(s[count..], [], fl)
  {
    cp, count := DecodedFirst(s);
    if Escaped(cp, fl) {
      assert [] + EscapeText(cp) == EscapeText(cp);
    } else {
      assert [] + s[..count] == s[..count];
      BodyRun(s[count..], s[..count], fl);
    }
  }

  // ---- Reading ----

  predicate IsHexDigit(c: Byte) {
    0x30 <= c <= 0x39 || 0x41 <= c <= 0x46 || 0x61 <= c <= 0x66
  }

  function HexValue(c: Byte): int {
    if 0x30 <= c <= 0x39 then c - 0x30
    else if 0x61 <= c <= 0x7A then c - 0x61 + 10
    else if 0x41 <= c <= 0x5A then c - 0x41 + 10
    else -1
  }

  predicate IsShortcut(c: Byte) {
    c in {QUOTE, BACKSLASH, SLASH, 0x62, 0x66, 0x6E, 0x72, 0x74}
  }

  /** How many bytes the first pass goes on by at once, when the text does not start with the closing
      quote; 0 when it fails. */
  function Unit(s: seq<Byte>): (n: nat)
    requires s != []
    ensures n <= |s|
  {
    if s[0] <= 0x1F then 0
    else if s[0] != BACKSLASH then 1
    else if |s| < 2 then 0
    else if s[1] == LETTER_U then
      if |s| >= 6 && IsHexDigit(s[2]) && IsHexDigit(s[3]) && IsHexDigit(s[4]) && IsHexDigit(s[5]) then 6 else 0
    else if IsShortcut(s[1]) then 2
    else 0
  }

  function Shift(n: nat, r: Option<nat>): Option<nat> {
    if r.Some? then Some(n + r.value) else None
  }

  function Prepend(bytes: seq<Byte>, r: Option<seq<Byte>>): Option<seq<Byte>> {
    if r.Some? then Some(bytes + r.value) else None
  }

  lemma PrependTwice(a: seq<Byte>, b: seq<Byte>, r: Option<seq<Byte>>)
    ensures Prepend(a, Prepend(b, r)) == Prepend(a + b, r) && Prepend([], r) == r
  {
    if r.Some? {
      assert a + (b + r.value) == a + b + r.value;
      assert [] + r.value == r.value;
    }
  }

  /** The first pass of `lex_scan_string`: where the closing quote is. */
  function StringEnd(s: seq<Byte>): (r: Option<nat>)
    ensures r.Some? ==> r.value < |s| && s[r.value] == QUOTE
    decreases |s|
  {
    if s == [] then None
    else if s[0] == QUOTE then Some(0)
    else if Unit(s) == 0 then None
    else Shift(Unit(s), StringEnd(s[Unit(s)..]))
  }

  /** `decode_unicode_escape` of the digits after `\u`. */
  function UnicodeValue(s: seq<Byte>): (v: int)
    requires |s| >= 6
    ensures IsHexDigit(s[2]) && IsHexDigit(s[3]) && IsHexDigit(s[4]) && IsHexDigit(s[5]) ==> 0 <= v < 0x1_0000
  {
    ((HexValue(s[2]) * 16 + HexValue(s[3])) * 16 + HexValue(s[4])) * 16 + HexValue(s[5])
  }

  function ShortcutValue(c: Byte): Byte {
    if c == 0x62 then 8 else if c == 0x66 then 12 else if c == 0x6E then 10
    else if c == 0x72 then 13 else if c == 0x74 then 9 else c
  }

  /** What the second pass makes of the first unit: the bytes it stores, and how far it goes; None for
      half a surrogate pair. */
  function Decoded1(s: seq<Byte>): Option<(seq<Byte>, nat)>
    requires s != [] && Unit(s) > 0
  {
    if s[0] != BACKSLASH then Some(([s[0]], 1))
    else if s[1] != LETTER_U then Some(([ShortcutValue(s[1])], 2))
    else
      var v := UnicodeValue(s);
      if 0xD800 <= v <= 0xDBFF then
        if |s| >= 8 && s[6] == BACKSLASH && s[7] == LETTER_U && Unit(s[6..]) == 6 then
          var w := UnicodeValue(s[6..]);
          if 0xDC00 <= w <= 0xDFFF then Some((Encode((v - 0xD800) * 0x400 + (w - 0xDC00) + 0x1_0000).value, 12))
              else None
        else None
      else if 0xDC00 <= v <= 0xDFFF then None
      else Some((Encode(v).value, 6))
  }

  /** The second pass over the text before the closing quote. */
  function Decode(s: seq<Byte>): Option<seq<Byte>>
    decreases |s|
  {
    if s == [] then Some([])
    else if Unit(s) == 0 then None
    else
      match Decoded1(s)
      case None => None
      case Some((bytes, n)) => Prepend(bytes, Decode(s[n..]))
  }

  /** A string after its opening quote: its value and the text behind it. */
  function ScanString(s: seq<Byte>): (r: Option<(seq<Byte>, seq<Byte>)>)
    ensures r.Some? ==> |r.value.1| < |s|
  {
    match StringEnd(s)
    case None => None
    case Some(n) =>
      match Decode(s[..n])
      case None => None
      case Some(value) => Some((value, s[n + 1..]))
  }

  // ---- A string up to its closing quote ----

  lemma UnitOf(s: seq<Byte>)
    requires s != [] && s[0] != QUOTE
    ensures StringEnd(s) == if Unit(s) == 0 then None else Shift(Unit(s), StringEnd(s[Unit(s)..]))
  {
    hide Unit;
  }

  /** A unit before the closing quote is the same without it. */
  lemma CutUnit(s: seq<Byte>)
    requires s != [] && s[0] != QUOTE && StringEnd(s + [QUOTE]) == Some(|s|)
    ensures Unit(s) > 0 && Unit(s + [QUOTE]) == Unit(s) && StringEnd(s[Unit(s)..] + [QUOTE]) == Some(|s| - Unit(s))
  {
    hide *;
    FirstAppend(s);
    CutAfter(s, s + [QUOTE], Unit(s + [QUOTE]));
  }

  lemma CutAfter(s: seq<Byte>, t: seq<Byte>, n: nat)
    requires s != [] && t == s + [QUOTE] && t[0] != QUOTE && n == Unit(t) && StringEnd(t) == Some(|s|)
    ensures 0 < n <= |s| && Unit(s) == n && StringEnd(s[n..] + [QUOTE]) == Some(|s| - n)
  {
    hide *;
    UnitOf(t);
    ShiftBound(n, StringEnd(t[n..]));
    SameUnit(s, t);
    DropAppend(s, n);
  }

  lemma FirstAppend(s: seq<Byte>)
    ensures s != [] ==> (s + [QUOTE])[0] == s[0]
  {
  }

  lemma ShiftBound(n: nat, r: Option<nat>)
    ensures Shift(n, r).Some? ==> n <= Shift(n, r).value && r == Some(Shift(n, r).value - n)
  {
  }

  lemma DropAppend(s: seq<Byte>, n: nat)
    requires n <= |s|
    ensures (s + [QUOTE])[n..] == s[n..] + [QUOTE]
  {
  }

  lemma SameUnit(s: seq<Byte>, t: seq<Byte>)
    requires s != [] && t == s + [QUOTE] && 0 < Unit(t) <= |s|
    ensures Unit(s) == Unit(t)
  {
  }

  /** One escape is decoded at once, or a pair of them. */
  lemma DecodedLength(s: seq<Byte>)
    requires s != [] && Unit(s) > 0 && Decoded1(s).Some?
    ensures var n := Decoded1(s).value.1;
            n == Unit(s) || (n == 12 && Unit(s) == 6 && |s| >= 8 && s[6] == BACKSLASH && Unit(s[6..]) == 6)
  {
    hide Encode, UnicodeValue;
  }

  // ---- Reading what was written ----

  lemma HexDigits(v: nat)
    requires v < 16
    ensures IsHexDigit(HexDigit(v)) && HexValue(HexDigit(v)) == v
  {
  }

  lemma Nibbles(v: nat)
    requires v < 0x1_0000
    ensures v / 0x1000 < 16 && v / 0x100 % 16 < 16 && v / 0x10 % 16 < 16 && v % 16 < 16
    ensures ((v / 0x1000 * 16 + v / 0x100 % 16) * 16 + v / 0x10 % 16) * 16 + v % 16 == v
  {
    assert v / 0x1000 == v / 0x100 / 16 && v / 0x100 == v / 0x10 / 16 && v / 0x10 == v / 16;
  }

  lemma UnicodeReads(v: nat, more: seq<Byte>)
    requires v < 0x1_0000
    ensures Unit(UnicodeEscape(v) + more) == 6 && UnicodeValue(UnicodeEscape(v) + more) == v
  {
    Nibbles(v);
    HexDigits(v / 0x1000);
    HexDigits(v / 0x100 % 16);
    HexDigits(v / 0x10 % 16);
    HexDigits(v % 16);
    hide HexDigit, HexValue, IsHexDigit;
    var t := UnicodeEscape(v) + more;
    assert t[0] == BACKSLASH && t[1] == LETTER_U;
    assert t[2] == HexDigit(v / 0x1000) && t[3] == HexDigit(v / 0x100 % 16) && t[4] == HexDigit(v / 0x10 % 16)
        && t[5] == HexDigit(v % 16);
  }

  /** How a text that stands for some bytes is read, whatever follows it. */
  ghost predicate Reads(text: seq<Byte>, bytes: seq<Byte>, more: seq<Byte>) {
    && StringEnd(text + more) == Shift(|text|, StringEnd(more))
    && Decode(text + more) == Prepend(bytes, Decode(more))
  }

  lemma UnitReads(text: seq<Byte>, bytes: seq<Byte>, more: seq<Byte>)
    requires text != [] && text[0] != QUOTE && Unit(text + more) == |text|
    requires Decoded1(text + more) == Some((bytes, |text|))
    ensures Reads(text, bytes, more)
  {
    hide Unit, Decoded1;
    assert (text + more)[|text|..] == more;
    assert (text + more)[0] == text[0];
  }

  lemma NothingReads(more: seq<Byte>)
    ensures Reads([], [], more)
  {
    hide StringEnd, Decode;
    assert [] + more == more;
    PrependTwice([], [], Decode(more));
  }

  lemma ReadsBoth(t: seq<Byte>, a: seq<Byte>, u: seq<Byte>, b: seq<Byte>, more: seq<Byte>)
    requires Reads(t, a, u + more) && Reads(u, b, more)
    ensures Reads(t + u, a + b, more)
  {
    hide StringEnd, Decode;
    assert t + u + more == t + (u + more);
    PrependTwice(a, b, Decode(more));
  }

  ghost predicate Plain(text: seq<Byte>) {
    forall c | c in text :: c > 0x1F && c != QUOTE && c != BACKSLASH
  }

  lemma {:induction false} PlainReads(text: seq<Byte>, more: seq<Byte>)
    requires Plain(text)
    ensures Reads(text, text, more)
  {
    if text == [] {
      NothingReads(more);
    } else {
      var c := text[0];
      assert forall d | d in text[1..] :: d in text;
      assert c in text;
      PlainReads(text[1..], more);
      UnitReads([c], [c], text[1..] + more);
      hide *;
      ReadsBoth([c], [c], text[1..], text[1..], more);
      assert [c] + text[1..] == text;
    }
  }

  lemma EscapeReads(cp: int, more: seq<Byte>)
    requires Scalar(cp) && (Shortcut(cp).Some? || cp < 0x1_0000)
    ensures Encode(cp).Some? && Reads(EscapeText(cp), Encode(cp).value, more)
  {
    EncodeFirst(cp);
    if Shortcut(cp).None? {
      UnicodeReads(cp, more);
    }
    UnitReads(EscapeText(cp), Encode(cp).value, more);
  }

  lemma SplitPair(cp: int) returns (high: nat, low: nat)
    requires 0x1_0000 <= cp <= 0x10_FFFF
    ensures high == 0xD800 + (cp - 0x1_0000) / 0x400 && low == 0xDC00 + (cp - 0x1_0000) % 0x400
    ensures 0xD800 <= high <= 0xDBFF && 0xDC00 <= low <= 0xDFFF
    ensures (high - 0xD800) * 0x400 + (low - 0xDC00) + 0x1_0000 == cp
  {
    high, low := 0xD800 + (cp - 0x1_0000) / 0x400, 0xDC00 + (cp - 0x1_0000) % 0x400;
  }

  lemma PairUnits(cp: int, high: nat, low: nat, more: seq<Byte>)
    requires 0xD800 <= high <= 0xDBFF && 0xDC00 <= low <= 0xDFFF
    requires (high - 0xD800) * 0x400 + (low - 0xDC00) + 0x1_0000 == cp
    ensures var t := UnicodeEscape(high) + UnicodeEscape(low) + more;
            && Unit(t) == 6 && Unit(t[6..]) == 6 && t[6..] == UnicodeEscape(low) + more && t[12..] == more
            && Encode(cp).Some? && Decoded1(t) == Some((Encode(cp).value, 12))
  {
    var a, b := UnicodeEscape(high), UnicodeEscape(low);
    assert a + b + more == a + (b + more);
    UnicodeReads(high, b + more);
    UnicodeReads(low, more);
    assert (a + (b + more))[6..] == b + more;
    hide UnicodeValue, Unit;
    assert (b + more)[0] == BACKSLASH && (b + more)[1] == LETTER_U && (a + (b + more))[0] == BACKSLASH
        && (a + (b + more))[1] == LETTER_U;
  }

  lemma PairReads(cp: int, more: seq<Byte>)
    requires 0x1_0000 <= cp <= 0x10_FFFF
    ensures Encode(cp).Some? && Reads(EscapeText(cp), Encode(cp).value, more)
  {
    var high, low := SplitPair(cp);
    var a, b := UnicodeEscape(high), UnicodeEscape(low);
    assert EscapeText(cp) == a + b && (a + b + more)[0] == BACKSLASH && (b + more)[0] == BACKSLASH;
    PairUnits(cp, high, low, more);
    hide Unit, Decoded1, UnicodeEscape, EscapeText, Encode;
    StringEndTwice(a + b + more);
  }

  lemma StringEndTwice(s: seq<Byte>)
    requires |s| >= 12 && s[0] == BACKSLASH && s[6] == BACKSLASH && Unit(s) == 6 && Unit(s[6..]) == 6
    ensures StringEnd(s) == Shift(12, StringEnd(s[12..]))
  {
    assert s[6..][6..] == s[12..];
    hide Unit;
    assert StringEnd(s[6..]) == Shift(6, StringEnd(s[12..]));
  }

  lemma EncodedIsPlain(cp: int, fl: DumpFlags)
    requires Scalar(cp) && !Escaped(cp, fl)
    ensures Encode(cp).Some? && Plain(Encode(cp).value)
  {
  }

  /** What was written for one code point is read as its encoding. */
  lemma TextReads(cp: int, fl: DumpFlags, more: seq<Byte>)
    requires Scalar(cp)
    ensures Encode(cp).Some? && Reads(Text(cp, fl), Encode(cp).value, more)
  {
    if !Escaped(cp, fl) {
      EncodedIsPlain(cp, fl);
      PlainReads(Encode(cp).value, more);
    } else if Shortcut(cp).Some? || cp < 0x1_0000 {
      EscapeReads(cp, more);
    } else {
      PairReads(cp, more);
    }
  }

  lemma QuoteEnds(rest: seq<Byte>, fl: DumpFlags)
    ensures StringEnd([QUOTE] + rest) == Some(0) && Decode([]) == Some([]) && Body([], [], fl) == []
  {
  }

  lemma {:induction false} BodyReads(s: seq<Byte>, fl: DumpFlags, rest: seq<Byte>)
    requires Valid(s)
    ensures StringEnd(Body(s, [], fl) + ([QUOTE] + rest)) == Some(|Body(s, [], fl)|)
    ensures Decode(Body(s, [], fl)) == Some(s)
    decreases |s|
  {
    hide *;
    var more := [QUOTE] + rest;
    if s == [] {
      assert [] + more == more;
      QuoteEnds(rest, fl);
    } else {
      var cp, count := BodyFirst(s, fl);
      var text, body := Text(cp, fl), Body(s[count..], [], fl);
      BodyReads(s[count..], fl, rest);
      TextReads(cp, fl, body + more);
      TextReads(cp, fl, body);
      ReadsMeans(text, s[..count], body + more);
      ReadsMeans(text, s[..count], body);
      assert text + body + more == text + (body + more);
      assert s == s[..count] + s[count..];
    }
  }

  lemma ReadsMeans(text: seq<Byte>, bytes: seq<Byte>, more: seq<Byte>)
    requires Reads(text, bytes, more)
    ensures StringEnd(more).Some? ==> StringEnd(text + more) == Some(|text| + StringEnd(more).value)
    ensures Decode(more).Some? ==> Decode(text + more) == Some(bytes + Decode(more).value)
    ensures Decode(more).None? ==> Decode(text + more).None?
  {
    hide StringEnd, Decode;
  }

  /** Scanning the output of `dump_string` returns the string, whatever the flags and whatever follows. */
  lemma StringRoundTrip(s: seq<Byte>, fl: DumpFlags, rest: seq<Byte>)
    requires Valid(s)
    ensures DumpString(s, fl) != [] && DumpString(s, fl)[0] == QUOTE
    ensures ScanString((DumpString(s, fl) + rest)[1..]) == Some((s, rest))
  {
    hide StringEnd, Decode, Body, Valid;
    var body := Body(s, [], fl);
    BodyReads(s, fl, rest);
    var text := body + ([QUOTE] + rest);
    assert DumpString(s, fl) == [QUOTE] + body + [QUOTE];
    assert (DumpString(s, fl) + rest)[1..] == text;
    assert text[..|body|] == body && text[|body| + 1..] == rest;
  }

  // ---- What is accepted ----

  /** The bytes stored for one unit are the encoding of a scalar value or a single byte, and are no
      longer than the text they stand for. */
  lemma DecodedUnit(s: seq<Byte>)
    requires s != [] && Unit(s) > 0 && Decoded1(s).Some?
    ensures var (bytes, n) := Decoded1(s).value;
            0 < n <= |s| && |bytes| <= n && (s[0] == BACKSLASH || s[0] == QUOTE ==> Valid(bytes))
  {
    if s[0] == QUOTE {
      assert [s[0]][1..] == [];
    }
    if s[0] == BACKSLASH {
      var (bytes, n) := Decoded1(s).value;
      if s[1] != LETTER_U {
        assert bytes[1..] == [];
      } else {
        var v := UnicodeValue(s);
        var cp := if n == 12 then (v - 0xD800) * 0x400 + (UnicodeValue(s[6..]) - 0xDC00) + 0x1_0000 else v;
        assert Scalar(cp) && Encode(cp).value == bytes;
        DecodeEncode(cp, []);
        assert bytes + [] == bytes && bytes[|bytes|..] == [];
      }
    }
  }

  lemma AsciiUnit(s: seq<Byte>)
    requires s != [] && Unit(s) > 0 && Decoded1(s).Some? && (s[0] == BACKSLASH || s[0] == QUOTE)
    ensures Decoded1(s).value.1 <= |s| && forall i | 0 <= i < Decoded1(s).value.1 :: s[i] < 0x80
  {
    if s[0] == BACKSLASH && s[1] == LETTER_U && Decoded1(s).value.1 == 12 {
      assert forall i | 0 <= i < 6 :: s[6..][i] == s[6 + i];
      assert forall i | 0 <= i < 6 :: s[6..][i] < 0x80;
      forall i | 6 <= i < 12
        ensures s[i] < 0x80
      {
        assert s[i] == s[6..][i - 6];
      }
    }
  }

  lemma CharIsPlain(s: seq<Byte>)
    requires Iterate(s).Char? && s[0] > 0x1F && s[0] != BACKSLASH && s[0] != QUOTE
    ensures Plain(s[..Iterate(s).count])
  {
    var count := Iterate(s).count;
    forall i | 0 <= i < count
      ensures s[i] > 0x1F && s[i] != QUOTE && s[i] != BACKSLASH
    {
      IterateBytes(s, i);
      assert CheckFirst(s[0]) == count;
    }
  }

  /** A decoded text is valid UTF-8 and no longer than the text before it was decoded: it fits. */
  lemma {:induction false} DecodeIsValid(s: seq<Byte>)
    requires Valid(s) && Decode(s).Some?
    ensures Valid(Decode(s).value) && |Decode(s).value| <= |s|
    decreases |s|
  {
    if s == [] {
      assert Decode(s) == Some([]);
    } else if s[0] == BACKSLASH || s[0] == QUOTE {
      var (bytes, n) := Decoded1(s).value;
      DecodedUnit(s);
      hide Decoded1, Iterate;
      AsciiUnit(s);
      AsciiTail(s, n);
      DecodeIsValid(s[n..]);
      ValidConcat(bytes, Decode(s[n..]).value);
    } else {
      var count := Iterate(s).count;
      CharIsPlain(s);
      hide Iterate;
      PlainReads(s[..count], s[count..]);
      assert s[..count] + s[count..] == s;
      ReadsMeans(s[..count], s[..count], s[count..]);
      DecodeIsValid(s[count..]);
      PrefixValid(s, count);
      ValidConcat(s[..count], Decode(s[count..]).value);
    }
  }

  lemma PrefixValid(s: seq<Byte>, count: nat)
    requires Valid(s) && Iterate(s).Char? && Iterate(s).count == count
    ensures Valid(s[..count])
  {
    var cp := Iterate(s).codepoint;
    IterateIffEncode(s, cp, count);
    DecodeEncode(cp, []);
    assert s[..count] + [] == s[..count] && s[..count][count..] == [];
  }

  /** What follows some ASCII bytes is valid by itself. */
  lemma {:induction false} AsciiTail(s: seq<Byte>, n: nat)
    requires Valid(s) && n <= |s| && forall i | 0 <= i < n :: s[i] < 0x80
    ensures Valid(s[n..])
  {
    if n == 0 {
      assert s[0..] == s;
    } else {
      AsciiTail(s[1..], n - 1);
      assert s[1..][n - 1..] == s[n..];
    }
  }
}
