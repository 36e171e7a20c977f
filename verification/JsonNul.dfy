/**
 A NUL in the text of `json_loadb`. The stream takes the byte it is given back for the end of its buffer
 when that byte is a NUL (libjansson/jansson-2.7/src/load.c:158 and 227), so that one behind a number or a
 word disappears; anywhere else between tokens it is refused.
 */
module JsonNul {
  import opened JsonUtf8
  import opened JsonString
  import opened JsonParser

  /** A token that ends where the lexer reads a byte that is none of its own. */
  predicate EndsByPushBack(token: Token) {
    token.IntegerToken? || token.RealToken? || token.TrueToken? || token.FalseToken? || token.NullToken?
  }

  lemma {:induction false} CountsBeforeNul(s: seq<Byte>, rest: seq<Byte>)
    ensures CountDigits(s + [0] + rest) == CountDigits(s)
    ensures CountAlphas(s + [0] + rest) == CountAlphas(s)
    decreases |s|
  {
    if s == [] {
    } else {
      assert (s + [0] + rest)[1..] == s[1..] + [0] + rest;
      CountsBeforeNul(s[1..], rest);
    }
  }

  lemma PartsBeforeNul(s: seq<Byte>, rest: seq<Byte>)
    ensures s != [] ==> WholeDigits(s + [0] + rest) == WholeDigits(s)
    ensures Fraction(s + [0] + rest) == Fraction(s)
    ensures Exponent(s + [0] + rest) == Exponent(s)
  {
    var all := s + [0] + rest;
    CountsBeforeNul(s, rest);
    if s != [] {
      assert all[1..] == s[1..] + [0] + rest;
      CountsBeforeNul(s[1..], rest);
      if |s| > 1 {
        assert all[2..] == s[2..] + [0] + rest;
        CountsBeforeNul(s[2..], rest);
      }
    }
  }

  lemma {:induction false} SpacesBeforeNul(s: seq<Byte>, rest: seq<Byte>)
    ensures SkipSpaces(s + [0] + rest) == SkipSpaces(s) + [0] + rest
    decreases |s|
  {
    if s != [] && IsSpace(s[0]) {
      assert (s + [0] + rest)[1..] == s[1..] + [0] + rest;
      SpacesBeforeNul(s[1..], rest);
    }
  }

  function SignLength(s: seq<Byte>): nat
    requires s != []
  {
    if s[0] == 0x2D then 1 else 0
  }

  lemma WholeBeforeNul(s: seq<Byte>, rest: seq<Byte>)
    requires s != [] && WholeDigits(s[SignLength(s)..]) > 0
    ensures var sign, all := SignLength(s), s + [0] + rest;
            var whole := WholeDigits(s[sign..]);
            && WholeDigits(all[sign..]) == whole
            && all[sign..][..whole] == s[sign..][..whole]
            && all[sign + whole..] == s[sign + whole..] + [0] + rest
  {
    var sign, all := SignLength(s), s + [0] + rest;
    assert all[sign..] == s[sign..] + [0] + rest;
    PartsBeforeNul(s[sign..], rest);
  }

  lemma NothingLeft(s: seq<Byte>, n: nat)
    requires 0 !in s && n <= |s| && Unget(s[n..]) == []
    ensures n == |s|
  {
  }

  /** The fraction and the exponent of a number end with it. */
  lemma TailBeforeNul(s: seq<Byte>, rest: seq<Byte>)
    ensures Fraction(s + [0] + rest) == Fraction(s)
    ensures Fraction(s).Some? ==>
              var f := Fraction(s).value;
              Exponent((s + [0] + rest)[f..]) == Exponent(s[f..])
  {
    PartsBeforeNul(s, rest);
    if Fraction(s).Some? {
      var f := Fraction(s).value;
      assert (s + [0] + rest)[f..] == s[f..] + [0] + rest;
      PartsBeforeNul(s[f..], rest);
    }
  }

  predicate Continues(s: seq<Byte>, n: nat) {
    n < |s| && (s[n] == 0x2E || s[n] == 0x45 || s[n] == 0x65)
  }

  lemma IntegerShape(s: seq<Byte>, whole: nat)
    requires s != [] && (IsDigit(s[0]) || s[0] == 0x2D) && !Continues(s, SignLength(s) + whole)
    requires whole == WholeDigits(s[SignLength(s)..]) > 0 && ScanNumber(s).0 != InvalidToken
    ensures (forall c | c in s[SignLength(s)..][..whole] :: IsDigit(c))
    ensures ScanNumber(s)
         == (IntegerOf(s[0] == 0x2D, s[SignLength(s)..][..whole]), Unget(s[SignLength(s) + whole..]))
  {
    hide WholeDigits, Number;
  }

  lemma RealShape(s: seq<Byte>, n: nat, f: nat, e: nat)
    requires s != [] && (IsDigit(s[0]) || s[0] == 0x2D) && Continues(s, n)
    requires n - SignLength(s) == WholeDigits(s[SignLength(s)..]) > 0
    requires Fraction(s[n..]) == Some(f) && n + f <= |s| && Exponent(s[n + f..]) == Some(e)
    ensures n + f + e <= |s| && ScanNumber(s) == (RealToken(s[..n + f + e]), Unget(s[n + f + e..]))
  {
    hide WholeDigits, Fraction, Exponent, IntegerOf, CountDigits, Number, IsDigit, Unget;
    var sign := SignLength(s);
    assert n == sign + WholeDigits(s[sign..]);
  }

  lemma IntegerBeforeNul(s: seq<Byte>, rest: seq<Byte>)
    requires s != [] && 0 !in s && (IsDigit(s[0]) || s[0] == 0x2D)
    requires WholeDigits(s[SignLength(s)..]) > 0 && !Continues(s, SignLength(s) + WholeDigits(s[SignLength(s)..]))
    requires ScanNumber(s).0 != InvalidToken && ScanNumber(s).1 == []
    ensures ScanNumber(s + [0] + rest) == (ScanNumber(s).0, rest)
  {
    var all, whole := s + [0] + rest, WholeDigits(s[SignLength(s)..]);
    WholeBeforeNul(s, rest);
    IntegerShape(s, whole);
    NothingLeft(s, SignLength(s) + whole);
    assert all[SignLength(s) + whole..] == [0] + rest;
    hide WholeDigits, Number, IntegerOf;
  }

  lemma RealBeforeNul(s: seq<Byte>, rest: seq<Byte>, n: nat, f: nat, e: nat)
    requires s != [] && 0 !in s && (IsDigit(s[0]) || s[0] == 0x2D) && Continues(s, n)
    requires n - SignLength(s) == WholeDigits(s[SignLength(s)..]) > 0
    requires Fraction(s[n..]) == Some(f) && n + f <= |s| && Exponent(s[n + f..]) == Some(e)
    requires ScanNumber(s).1 == []
    ensures ScanNumber(s + [0] + rest) == (ScanNumber(s).0, rest)
  {
    hide WholeDigits, Fraction, Exponent, ScanNumber;
    var all := s + [0] + rest;
    WholeBeforeNul(s, rest);
    RealShape(s, n, f, e);
    TailBeforeNul(s[n..], rest);
    assert s[n..][f..] == s[n + f..] && all[n..][f..] == all[n + f..];
    NothingLeft(s, n + f + e);
    RealShape(all, n, f, e);
    assert all[..n + f + e] == s[..n + f + e] && all[n + f + e..] == [0] + rest;
  }

  lemma NumberBeforeNul(s: seq<Byte>, rest: seq<Byte>)
    requires s != [] && 0 !in s && (IsDigit(s[0]) || s[0] == 0x2D)
    requires ScanNumber(s).0 != InvalidToken && ScanNumber(s).1 == []
    ensures ScanNumber(s + [0] + rest) == (ScanNumber(s).0, rest)
  {
    var n := SignLength(s) + WholeDigits(s[SignLength(s)..]);
    if Continues(s, n) {
      var f := Fraction(s[n..]).value;
      RealBeforeNul(s, rest, n, f, Exponent(s[n + f..]).value);
    } else {
      IntegerBeforeNul(s, rest);
    }
  }

  lemma WordBeforeNul(s: seq<Byte>, rest: seq<Byte>)
    requires 0 !in s && Identifier(s[..CountAlphas(s)]) != InvalidToken && Unget(s[CountAlphas(s)..]) == []
    ensures var all := s + [0] + rest;
            var n := CountAlphas(all);
            Identifier(all[..n]) == Identifier(s[..CountAlphas(s)]) && Unget(all[n..]) == rest
  {
    var all, n := s + [0] + rest, CountAlphas(s);
    CountsBeforeNul(s, rest);
    assert s[n..] == [];
    assert all[..n] == s[..n] && all[n..] == [0] + rest;
  }

  /** What is read after a number or a word is pushed back, and comes again, unless it is a NUL: then it is
      skipped, and reading goes on as if it were not there. */
  lemma NulIsSkipped(text: seq<Byte>, rest: seq<Byte>, bad: bool)
    requires 0 !in text && EndsByPushBack(Scan(text, bad).0) && Scan(text, bad).1 == []
    ensures Scan(text + [0] + rest, bad) == (Scan(text, bad).0, rest)
  {
    var s := SkipSpaces(text);
    SpacesBeforeNul(text, rest);
    SpacesAreBytes(text);
    hide SkipSpaces, ScanNumber, CountAlphas, Identifier, ScanString;
    if IsDigit(s[0]) || s[0] == 0x2D {
      NumberBeforeNul(s, rest);
    } else {
      WordBeforeNul(s, rest);
    }
  }

  lemma {:induction false} SpacesAreBytes(s: seq<Byte>)
    ensures forall b | b in SkipSpaces(s) :: b in s
    decreases |s|
  {
    if s != [] && IsSpace(s[0]) {
      SpacesAreBytes(s[1..]);
    }
  }

  /** Everywhere else between tokens a NUL is what the next token begins with, and that is invalid. */
  lemma NulIsNoToken(spaces: seq<Byte>, rest: seq<Byte>, bad: bool)
    requires SkipSpaces(spaces) == []
    ensures Scan(spaces + [0] + rest, bad) == (InvalidToken, [])
  {
    SpacesBeforeNul(spaces, rest);
  }
}
