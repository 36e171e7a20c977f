/**
 Strings: the lexer of libjansson/jansson-2.7/src/load.c reads exactly those of the grammar, and gives them the
 meaning that the grammar gives them.
 */
module JsonTokens {

  import opened JsonUtf8
  import opened JsonString
  import opened JsonGrammar

  // ---- Pieces of strings are read ----

  lemma HexMeans(c: Byte, d: nat)
    ensures IsHex(c, d) <==> IsHexDigit(c) && HexValue(c) == d
  {
  }

  /** An escape in hexadecimal is one unit, and its value is what the digits spell. */
  lemma HexReads(digits: seq<Byte>, v: nat, more: seq<Byte>)
    requires SpellsHex(digits, v)
    ensures var t := [BACKSLASH, LETTER_U] + digits + more; Unit(t) == 6 && UnicodeValue(t) == v
  {
    var t := [BACKSLASH, LETTER_U] + digits + more;
    assert t[0] == BACKSLASH && t[1] == LETTER_U;
    assert t[2] == digits[0] && t[3] == digits[1] && t[4] == digits[2] && t[5] == digits[3];
    var a: nat, b: nat, c: nat, d: nat :|
      && IsHex(digits[0], a) && IsHex(digits[1], b) && IsHex(digits[2], c) && IsHex(digits[3], d)
      && v == a * 0x1000 + b * 0x100 + c * 0x10 + d;
    HexMeans(digits[0], a);
    HexMeans(digits[1], b);
    HexMeans(digits[2], c);
    HexMeans(digits[3], d);
    hide HexValue, IsHexDigit, IsHex;
  }

  lemma PairUnitsRead(high: seq<Byte>, low: seq<Byte>, v: nat, w: nat, bytes: seq<Byte>, more: seq<Byte>)
    requires SpellsHex(high, v) && SpellsHex(low, w) && PairMeans(v, w, bytes)
    ensures var t := PieceText(Pair(high, low)) + more;
            && |t| >= 12 && t[0] == BACKSLASH && t[6] == BACKSLASH
            && Unit(t) == 6 && Unit(t[6..]) == 6 && t[12..] == more && Decoded1(t) == Some((bytes, 12))
  {
    var t := PieceText(Pair(high, low)) + more;
    PairParts(high, low, more);
    HexReads(high, v, [BACKSLASH, LETTER_U] + low + more);
    HexReads(low, w, more);
    hide *;
    PairDecoded(t, v, w, bytes);
  }

  lemma PairParts(high: seq<Byte>, low: seq<Byte>, more: seq<Byte>)
    requires |high| == |low| == 4
    ensures var t := PieceText(Pair(high, low)) + more;
            && |t| >= 12 && t[0] == t[6] == BACKSLASH && t[1] == t[7] == LETTER_U
            && t == [BACKSLASH, LETTER_U] + high + ([BACKSLASH, LETTER_U] + low + more)
            && t[6..] == [BACKSLASH, LETTER_U] + low + more && t[12..] == more
  {
  }

  lemma PairDecoded(t: seq<Byte>, v: nat, w: nat, bytes: seq<Byte>)
    requires |t| >= 12 && t[0] == t[6] == BACKSLASH && t[1] == t[7] == LETTER_U
    requires Unit(t) == 6 && Unit(t[6..]) == 6 && UnicodeValue(t) == v && UnicodeValue(t[6..]) == w
    requires PairMeans(v, w, bytes)
    ensures Decoded1(t) == Some((bytes, 12))
  {
    hide UnicodeValue, Unit;
    assert (v - 0xD800) * 0x400 + (w - 0xDC00) + 0x1_0000 == 0x1_0000 + (v - 0xD800) * 0x400 + (w - 0xDC00);
  }

  lemma PieceReads(p: Piece, bytes: seq<Byte>, more: seq<Byte>)
    requires PieceMeans(p, bytes)
    ensures Reads(PieceText(p), bytes, more)
  {
    match p
    case Byte1(b) => UnitReads([b], [b], more);
    case Short(letter) => UnitReads([0x5C, letter], bytes, more);
    case Hex(digits) =>
      var v: nat :| SpellsHex(digits, v) && !(0xD800 <= v <= 0xDFFF) && Encode(v) == Some(bytes);
      HexReads(digits, v, more);
      UnitReads(PieceText(p), bytes, more);
    case Pair(high, low) =>
      var v: nat, w: nat :| SpellsHex(high, v) && SpellsHex(low, w) && PairMeans(v, w, bytes);
      PairUnitsRead(high, low, v, w, bytes, more);
      hide Unit, Decoded1, PairMeans, SpellsHex;
      StringEndTwice(PieceText(p) + more);
  }

  lemma PiecesSplit(ps: seq<Piece>, bytes: seq<Byte>) returns (first: seq<Byte>, others: seq<Byte>)
    requires ps != [] && PiecesMean(ps, bytes)
    ensures PieceMeans(ps[0], first) && PiecesMean(ps[1..], others) && first + others == bytes
  {
    hide PieceMeans;
    var n :| 0 <= n <= |bytes| && PieceMeans(ps[0], bytes[..n]) && PiecesMean(ps[1..], bytes[n..]);
    first, others := bytes[..n], bytes[n..];
  }

  lemma {:induction false} PiecesRead(ps: seq<Piece>, bytes: seq<Byte>, more: seq<Byte>)
    requires PiecesMean(ps, bytes)
    ensures Reads(PiecesText(ps), bytes, more)
    decreases |ps|
  {
    if ps == [] {
      NothingReads(more);
    } else {
      var first, others := PiecesSplit(ps, bytes);
      PiecesConcat(ps);
      hide *;
      PiecesRead(ps[1..], others, more);
      PieceReads(ps[0], first, PiecesText(ps[1..]) + more);
      ReadsBoth(PieceText(ps[0]), first, PiecesText(ps[1..]), others, more);
    }
  }

  lemma PiecesConcat(ps: seq<Piece>)
    requires ps != []
    ensures PiecesText(ps) == PieceText(ps[0]) + PiecesText(ps[1..])
  {
  }

  /** A string of the grammar is scanned to its meaning, whatever follows. */
  lemma StringReads(ps: seq<Piece>, bytes: seq<Byte>, rest: seq<Byte>)
    requires PiecesMean(ps, bytes)
    ensures ScanString((StringText(ps) + rest)[1..]) == Some((bytes, rest))
  {
    var t := PiecesText(ps);
    hide *;
    PiecesRead(ps, bytes, [QUOTE] + rest);
    PiecesRead(ps, bytes, []);
    StringTail(ps, rest);
    StringCloses(t, bytes, rest);
  }

  lemma StringTail(ps: seq<Piece>, rest: seq<Byte>)
    ensures (StringText(ps) + rest)[1..] == PiecesText(ps) + ([QUOTE] + rest)
  {
    hide PiecesText;
  }

  lemma StringCloses(t: seq<Byte>, bytes: seq<Byte>, rest: seq<Byte>)
    requires Reads(t, bytes, [QUOTE] + rest) && Reads(t, bytes, [])
    ensures ScanString(t + ([QUOTE] + rest)) == Some((bytes, rest))
  {
    var more := [QUOTE] + rest;
    assert StringEnd(more) == Some(0) && Decode([]) == Some([]);
    ReadsMeans(t, bytes, more);
    ReadsMeans(t, bytes, []);
    hide Reads, StringEnd, Decode;
    assert t + [] == t && bytes + [] == bytes;
    assert (t + more)[..|t|] == t && (t + more)[|t| + 1..] == rest;
  }

  // ---- What is read is made of pieces ----

  lemma HexSpelled(s: seq<Byte>)
    requires |s| >= 6 && s[0] == BACKSLASH && s[1] == LETTER_U && Unit(s) > 0
    ensures Unit(s) == 6 && 0 <= UnicodeValue(s) && SpellsHex(s[2..6], UnicodeValue(s))
    ensures s[..6] == [0x5C, 0x75] + s[2..6]
  {
    var d := s[2..6];
    assert d[0] == s[2] && d[1] == s[3] && d[2] == s[4] && d[3] == s[5];
    HexMeans(d[0], HexValue(d[0]));
    HexMeans(d[1], HexValue(d[1]));
    HexMeans(d[2], HexValue(d[2]));
    HexMeans(d[3], HexValue(d[3]));
    hide HexValue, IsHex;
  }

  lemma ShortSpelled(c: Byte)
    requires IsShortcut(c)
    ensures PieceMeans(Short(c), [ShortcutValue(c)])
  {
    var i := if c == 0x22 then 0 else if c == 0x5C then 1 else if c == 0x2F then 2 else if c == 0x62 then 3
      else if c == 0x66 then 4 else if c == 0x6E then 5 else if c == 0x72 then 6 else 7;
    assert SHORTS[i] == (c, ShortcutValue(c));
  }

  /** What the second pass decodes at once is a piece. */
  lemma PieceSpelled(s: seq<Byte>) returns (p: Piece)
    requires s != [] && s[0] != QUOTE && Unit(s) > 0 && Decoded1(s).Some?
    ensures var (bytes, n) := Decoded1(s).value;
            0 < n <= |s| && PieceMeans(p, bytes) && PieceText(p) == s[..n]
  {
    var (bytes, n) := Decoded1(s).value;
    if s[0] != BACKSLASH {
      p := Byte1(s[0]);
    } else if s[1] != LETTER_U {
      p := Short(s[1]);
      ShortSpelled(s[1]);
    } else {
      HexSpelled(s);
      if n == 12 {
        p := PairSpelled(s);
      } else {
        p := Hex(s[2..6]);
      }
    }
  }

  lemma PairSpelled(s: seq<Byte>) returns (p: Piece)
    requires |s| >= 6 && s[0] == BACKSLASH && s[1] == LETTER_U && Unit(s) == 6
    requires Decoded1(s).Some? && Decoded1(s).value.1 == 12
    ensures |s| >= 12 && PieceMeans(p, Decoded1(s).value.0) && PieceText(p) == s[..12]
  {
    var more := s[6..];
    HexSpelled(s);
    HexSpelled(more);
    var v, w := UnicodeValue(s), UnicodeValue(more);
    assert (v - 0xD800) * 0x400 + (w - 0xDC00) + 0x1_0000 == 0x1_0000 + (v - 0xD800) * 0x400 + (w - 0xDC00);
    p := Pair(s[2..6], more[2..6]);
    hide UnicodeValue, Unit, SpellsHex;
    assert PairMeans(v, w, Decoded1(s).value.0);
    assert s[..12] == s[..6] + more[..6];
  }

  /** How far the first pass is when the second one has decoded a piece. */
  lemma PieceEnds(s: seq<Byte>)
    requires s != [] && s[0] != QUOTE && StringEnd(s + [QUOTE]) == Some(|s|)
    requires Unit(s) > 0 && Decoded1(s).Some?
    ensures var n := Decoded1(s).value.1; n <= |s| && StringEnd(s[n..] + [QUOTE]) == Some(|s| - n)
  {
    CutUnit(s);
    DecodedLength(s);
    hide *;
    if Decoded1(s).value.1 != Unit(s) {
      SecondEnds(s, s[6..]);
    }
  }

  lemma SecondEnds(s: seq<Byte>, t: seq<Byte>)
    requires |s| >= 8 && t == s[6..] && s[6] == BACKSLASH && Unit(t) == 6
    requires StringEnd(t + [QUOTE]) == Some(|s| - 6)
    ensures |s| >= 12 && StringEnd(s[12..] + [QUOTE]) == Some(|s| - 12)
  {
    hide StringEnd, Unit;
    assert t[0] == BACKSLASH;
    CutUnit(t);
    assert t[6..] == s[12..];
  }

  lemma DecodeSplit(s: seq<Byte>)
    requires s != [] && Decode(s).Some?
    ensures Unit(s) > 0 && Decoded1(s).Some?
    ensures var (first, n) := Decoded1(s).value;
            n <= |s| && Decode(s[n..]).Some? && Decode(s).value == first + Decode(s[n..]).value
  {
    DecodedUnit1(s);
    hide Unit, Decoded1;
  }

  lemma DecodedUnit1(s: seq<Byte>)
    requires s != [] && Unit(s) > 0 && Decoded1(s).Some?
    ensures Decoded1(s).value.1 <= |s|
  {
  }

  /** The first piece of a string and what is left. */
  lemma FirstPiece(s: seq<Byte>) returns (p: Piece, first: seq<Byte>, rest: seq<Byte>)
    requires s != [] && StringEnd(s + [QUOTE]) == Some(|s|) && Decode(s).Some?
    ensures s == PieceText(p) + rest && |rest| < |s| && PieceMeans(p, first)
    ensures StringEnd(rest + [QUOTE]) == Some(|rest|)
    ensures Decode(rest).Some? && Decode(s).value == first + Decode(rest).value
  {
    hide *;
    NotClosed(s);
    DecodeSplit(s);
    var n := Decoded1(s).value.1;
    p := PieceSpelled(s);
    PieceEnds(s);
    first, rest := Decoded1(s).value.0, s[n..];
    assert |rest| == |s| - n && s == s[..n] + rest;
  }

  lemma {:induction false} StringSpelled(s: seq<Byte>, bytes: seq<Byte>) returns (ps: seq<Piece>)
    requires StringEnd(s + [QUOTE]) == Some(|s|) && Decode(s) == Some(bytes)
    ensures PiecesText(ps) == s && PiecesMean(ps, bytes)
    decreases |s|
  {
    if s == [] {
      assert bytes == [];
      ps := [];
    } else {
      hide *;
      var p, first, rest := FirstPiece(s);
      var more := StringSpelled(rest, Decode(rest).value);
      ps := PiecesJoin(p, first, more, Decode(rest).value);
    }
  }

  lemma NotClosed(s: seq<Byte>)
    requires s != [] && StringEnd(s + [QUOTE]) == Some(|s|)
    ensures s[0] != QUOTE
  {
    assert (s + [QUOTE])[0] == s[0];
  }

  lemma PiecesJoin(p: Piece, first: seq<Byte>, more: seq<Piece>, others: seq<Byte>) returns (ps: seq<Piece>)
    requires PieceMeans(p, first) && PiecesMean(more, others)
    ensures ps == [p] + more && PiecesText(ps) == PieceText(p) + PiecesText(more) && PiecesMean(ps, first + others)
  {
    hide PieceMeans, PieceText;
    ps := [p] + more;
    assert ps[0] == p && ps[1..] == more;
    assert (first + others)[..|first|] == first && (first + others)[|first|..] == others;
  }

  /** What is scanned as a string is a string of the grammar. */
  lemma ScannedString(s: seq<Byte>) returns (ps: seq<Piece>)
    requires ScanString(s).Some?
    ensures PiecesMean(ps, ScanString(s).value.0) && [QUOTE] + s == StringText(ps) + ScanString(s).value.1
  {
    var n := ScanParts(s);
    EndBefore(s, n);
    hide *;
    ps := StringSpelled(s[..n], ScanString(s).value.0);
    StringWhole(ps, s[..n], ScanString(s).value.1);
  }

  lemma ScanParts(s: seq<Byte>) returns (n: nat)
    requires ScanString(s).Some?
    ensures n < |s| && StringEnd(s) == Some(n) && Decode(s[..n]) == Some(ScanString(s).value.0)
    ensures s == s[..n] + ([QUOTE] + ScanString(s).value.1)
  {
    n := StringEnd(s).value;
    hide StringEnd, Decode;
  }

  lemma StringWhole(ps: seq<Piece>, text: seq<Byte>, rest: seq<Byte>)
    requires PiecesText(ps) == text
    ensures [QUOTE] + (text + ([QUOTE] + rest)) == StringText(ps) + rest
  {
    hide PiecesText;
  }

  /** Where a string ends does not depend on what follows. */
  lemma {:induction false} EndBefore(s: seq<Byte>, n: nat)
    requires StringEnd(s) == Some(n)
    ensures n < |s| && StringEnd(s[..n] + [QUOTE]) == Some(n)
    decreases |s|
  {
    var t := s[..n] + [QUOTE];
    if n > 0 {
      var u := Unit(s);
      EndBefore(s[u..], n - u);
      assert s[u..][..n - u] == s[..n][u..];
      assert t[u..] == s[u..][..n - u] + [QUOTE];
      SameUnitEarly(s, t, n);
      hide Unit;
      assert t[0] == s[0];
    }
  }

  lemma SameUnitEarly(s: seq<Byte>, t: seq<Byte>, n: nat)
    requires n < |s| && t == s[..n] + [QUOTE] && 0 < Unit(s) <= n
    ensures Unit(t) == Unit(s)
  {
  }
}
