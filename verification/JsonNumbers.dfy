/**
 Numbers and words: what the lexer of libjansson/jansson-2.7/src/load.c reads is a numeral of the grammar with
 its worth, and every numeral that ends there is read.
 */
module JsonNumbers {

  import opened JsonUtf8
  import opened JsonValue
  import opened JsonParser
  import opened JsonRoundTrip
  import opened JsonNul
  import opened JsonGrammar

  // ---- What digits are worth ----

  lemma {:induction false} WorthAppend(s: seq<Byte>, c: Byte)
    ensures var digit: int := c; Worth(s + [c]) == Worth(s) * 10 + (digit - 0x30)
  {
    var t := s + [c];
    if s == [] {
      assert t[1..] == [] && Power10(0) == 1;
    } else {
      assert t[0] == s[0] && t[1..] == s[1..] + [c];
      WorthAppend(s[1..], c);
      var first: int := s[0];
      var p := Power10(|s| - 1);
      assert Power10(|t| - 1) == 10 * p;
      assert (first - 0x30) * (10 * p) == ((first - 0x30) * p) * 10;
    }
  }

  lemma {:induction false} NumberIsWorth(s: seq<Byte>)
    requires forall c | c in s :: IsDigit(c)
    ensures Number(s) == Worth(s)
  {
    if s != [] {
      var front := s[..|s| - 1];
      assert forall c | c in front :: c in s;
      assert s == front + [s[|s| - 1]] && s[|s| - 1] in s;
      NumberIsWorth(front);
      WorthAppend(front, s[|s| - 1]);
    }
  }

  /** The decimal text of a number is worth that number, and has no needless zero in front. */
  lemma DigitsAreWorth(n: nat)
    ensures AllDigits(Digits(n)) && Worth(Digits(n)) == n && (|Digits(n)| > 1 ==> Digits(n)[0] != 0x30)
  {
    DigitsRead(n);
    NumberIsWorth(Digits(n));
  }

  // ---- Numerals are read ----

  lemma DigitsStop(d: seq<Byte>, more: seq<Byte>)
    requires AllDigits(d) && (more == [] || !IsDigit(more[0]))
    ensures CountDigits(d + more) == |d|
  {
    CountsDigits(d, more);
  }

  lemma WholeStops(d: seq<Byte>, more: seq<Byte>)
    requires AllDigits(d) && (|d| > 1 ==> d[0] != 0x30) && (more == [] || !IsDigit(more[0]))
    ensures WholeDigits(d + more) == |d|
  {
    DigitsStop(d, more);
    assert (d + more)[0] == d[0] && d[0] in d;
    if |d| == 1 && more != [] {
      assert (d + more)[1] == more[0];
    }
  }

  lemma FractionStops(f: seq<Byte>, more: seq<Byte>)
    requires f != [] ==> f[0] == 0x2E && AllDigits(f[1..])
    requires more == [] || (!IsDigit(more[0]) && (f == [] ==> more[0] != 0x2E))
    ensures Fraction(f + more) == Some(|f|)
  {
    if f == [] {
      assert f + more == more;
    } else {
      assert (f + more)[0] == f[0] && (f + more)[1..] == f[1..] + more;
      DigitsStop(f[1..], more);
    }
  }

  ghost predicate IsExponent(e: seq<Byte>) {
    e != [] ==>
      && (e[0] == 0x45 || e[0] == 0x65)
      && (AllDigits(e[1..]) || (|e| > 1 && (e[1] == 0x2B || e[1] == 0x2D) && AllDigits(e[2..])))
  }

  lemma ExponentStops(e: seq<Byte>, more: seq<Byte>)
    requires IsExponent(e)
    requires more == [] || (!IsDigit(more[0]) && (e == [] ==> more[0] != 0x45 && more[0] != 0x65))
    ensures Exponent(e + more) == Some(|e|)
  {
    var t := e + more;
    if e == [] {
      assert t == more;
    } else {
      assert t[0] == e[0] && t[1] == e[1] && t[1..] == e[1..] + more;
      if AllDigits(e[1..]) {
        assert e[1..][0] in e[1..];
        DigitsStop(e[1..], more);
      } else {
        assert t[2..] == e[2..] + more;
        DigitsStop(e[2..], more);
      }
    }
  }

  lemma Skip(s: seq<Byte>, a: seq<Byte>, b: seq<Byte>, k: nat, n: nat)
    requires s == a + b && k <= |b| && n == |a| + k
    ensures n <= |s| && s[n..] == b[k..]
  {
  }

  lemma Peel(a: seq<Byte>, b: seq<Byte>)
    ensures (a + b)[|a|..] == b && (a + b)[..|a|] == a
  {
  }

  /** Where the parts of a number are in its text. */
  ghost predicate Placed(s: seq<Byte>, minus: seq<Byte>, whole: seq<Byte>, f: seq<Byte>, e: seq<Byte>,
      rest: seq<Byte>)
  {
    var n := |minus| + |whole|;
    var ok :=
      && |minus| <= |s| && s[|minus|..] == whole + (f + (e + rest)) && s[|minus|..][..|whole|] == whole
      && n + |f| + |e| <= |s| && s[n..] == f + (e + rest) && s[n + |f|..] == e + rest
      && s[n + |f| + |e|..] == rest && s[..n + |f| + |e|] == minus + whole + f + e;
    ok
  }

  lemma PartsAt(s: seq<Byte>, minus: seq<Byte>, whole: seq<Byte>, f: seq<Byte>, e: seq<Byte>, rest: seq<Byte>)
    requires s == minus + (whole + (f + (e + rest)))
    ensures Placed(s, minus, whole, f, e, rest)
  {
    var n := |minus| + |whole|;
    Peel(minus, whole + (f + (e + rest)));
    Peel(whole, f + (e + rest));
    Peel(f, e + rest);
    Peel(e, rest);
    Skip(s, minus, whole + (f + (e + rest)), |whole|, n);
    Regrouped(s, minus, whole, f, e, rest);
    Skip(s, minus + whole, f + (e + rest), |f|, n + |f|);
    Skip(s, minus + whole + f, e + rest, |e|, n + |f| + |e|);
    Peel(minus + whole + f + e, rest);
  }

  lemma Regrouped(s: seq<Byte>, minus: seq<Byte>, whole: seq<Byte>, f: seq<Byte>, e: seq<Byte>, rest: seq<Byte>)
    requires s == minus + (whole + (f + (e + rest)))
    ensures s == minus + whole + (f + (e + rest)) && s == minus + whole + f + (e + rest)
    ensures s == minus + whole + f + e + rest
  {
  }

  /** What follows the digits of a numeral. */
  lemma MoreBegins(x: Numeral, rest: seq<Byte>)
    requires IsNumeral(x) && NumeralEnds(x, rest)
    ensures var more := x.fraction + (x.exponent + rest);
            && (more == [] || !IsDigit(more[0]))
            && ((more != [] && (more[0] == 0x2E || more[0] == 0x45 || more[0] == 0x65)) <==> IsReal(x))
    ensures var more := x.exponent + rest; more == [] || (!IsDigit(more[0]) && (x.fraction == [] ==> more[0] != 0x2E))
    ensures IsExponent(x.exponent)
  {
    var more := x.fraction + (x.exponent + rest);
    assert x.fraction != [] ==> more[0] == x.fraction[0];
    assert x.fraction == [] && x.exponent != [] ==> more[0] == x.exponent[0];
    assert x.fraction == [] && x.exponent == [] ==> more == rest;
    assert x.exponent == [] ==> x.exponent + rest == rest;
  }

  function Minus(x: Numeral): seq<Byte> {
    if x.minus then [0x2D] else []
  }

  lemma NumeralBegins(x: Numeral, s: seq<Byte>, more: seq<Byte>)
    requires IsNumeral(x) && s == Minus(x) + (x.whole + more)
    ensures s != [] && (IsDigit(s[0]) || s[0] == 0x2D) && SignLength(s) == |Minus(x)| && (s[0] == 0x2D <==> x.minus)
  {
    assert x.whole[0] in x.whole && s[|Minus(x)|] == x.whole[0];
  }

  /** A numeral that ends there is read as what it is worth, or with its text if it is not an integer; an
      integer that does not fit 64 bits is refused. */
  lemma NumeralReads(x: Numeral, rest: seq<Byte>)
    requires IsNumeral(x) && NumeralEnds(x, rest) && Unget(rest) == rest
    ensures var s := NumeralText(x) + rest;
            && s != [] && (IsDigit(s[0]) || s[0] == 0x2D)
            && ScanNumber(s) ==
                 if IsReal(x) then (RealToken(NumeralText(x)), rest)
                 else if INT_MIN <= IntegerWorth(x) <= INT_MAX then (IntegerToken(IntegerWorth(x)), rest)
                 else (InvalidToken, [])
  {
    var s, f, e := NumeralText(x) + rest, x.fraction, x.exponent;
    Associated(Minus(x), x.whole, f, e, rest);
    NumeralBegins(x, s, f + (e + rest));
    MoreBegins(x, rest);
    WholeStops(x.whole, f + (e + rest));
    FractionStops(f, e + rest);
    ExponentStops(e, rest);
    assert NumeralText(x) == Minus(x) + x.whole + f + e;
    assert !IsReal(x) ==> f + (e + rest) == rest;
    NumberIsWorth(x.whole);
    hide *;
    PartsAt(s, Minus(x), x.whole, f, e, rest);
    NumeralScanned(x, s, rest);
  }

  lemma NumeralScanned(x: Numeral, s: seq<Byte>, rest: seq<Byte>)
    requires s != [] && (IsDigit(s[0]) || s[0] == 0x2D) && SignLength(s) == |Minus(x)| && (s[0] == 0x2D <==> x.minus)
    requires AllDigits(x.whole) && Number(x.whole) == Worth(x.whole)
    requires Placed(s, Minus(x), x.whole, x.fraction, x.exponent, rest) && Unget(rest) == rest
    requires NumeralText(x) == Minus(x) + x.whole + x.fraction + x.exponent
    requires var more := x.fraction + (x.exponent + rest);
             && WholeDigits(x.whole + more) == |x.whole| && Fraction(more) == Some(|x.fraction|)
             && Exponent(x.exponent + rest) == Some(|x.exponent|)
             && ((more != [] && (more[0] == 0x2E || more[0] == 0x45 || more[0] == 0x65)) <==> IsReal(x))
             && (!IsReal(x) ==> more == rest)
    ensures ScanNumber(s) ==
              if IsReal(x) then (RealToken(NumeralText(x)), rest)
              else if INT_MIN <= IntegerWorth(x) <= INT_MAX then (IntegerToken(IntegerWorth(x)), rest)
              else (InvalidToken, [])
  {
    hide Placed, WholeDigits, Fraction, Exponent, ScanNumber, NumeralText, Minus, Unget, IntegerWorth;
    if IsReal(x) {
      RealNumeral(x, s, x.fraction, x.exponent, rest, x.fraction + (x.exponent + rest));
    } else {
      WholeNumeral(x, s, rest);
    }
  }

  lemma Associated(minus: seq<Byte>, whole: seq<Byte>, f: seq<Byte>, e: seq<Byte>, rest: seq<Byte>)
    ensures minus + whole + f + e + rest == minus + (whole + (f + (e + rest)))
  {
  }

  lemma RealNumeral(x: Numeral, s: seq<Byte>, f: seq<Byte>, e: seq<Byte>, rest: seq<Byte>, more: seq<Byte>)
    requires s != [] && (IsDigit(s[0]) || s[0] == 0x2D) && SignLength(s) == |Minus(x)| && x.whole != []
    requires Placed(s, Minus(x), x.whole, f, e, rest) && more == f + (e + rest)
    requires WholeDigits(x.whole + more) == |x.whole| && Fraction(more) == Some(|f|) && Exponent(e + rest) == Some(|e|)
    requires more != [] && (more[0] == 0x2E || more[0] == 0x45 || more[0] == 0x65)
    ensures ScanNumber(s) == (RealToken(Minus(x) + x.whole + f + e), Unget(rest))
  {
    hide WholeDigits, Fraction, Exponent, Unget, ScanNumber, Minus;
    var n := |Minus(x)| + |x.whole|;
    assert s[n..] == more;
    assert s[n] == more[0];
    RealShape(s, n, |f|, |e|);
  }

  lemma WholeNumeral(x: Numeral, s: seq<Byte>, rest: seq<Byte>)
    requires s != [] && (IsDigit(s[0]) || s[0] == 0x2D) && SignLength(s) == |Minus(x)| && (s[0] == 0x2D <==> x.minus)
    requires AllDigits(x.whole) && Number(x.whole) == Worth(x.whole)
    requires Placed(s, Minus(x), x.whole, [], [], rest) && WholeDigits(x.whole + rest) == |x.whole|
    requires rest == [] || (rest[0] != 0x2E && rest[0] != 0x45 && rest[0] != 0x65)
    ensures ScanNumber(s) ==
              if INT_MIN <= IntegerWorth(x) <= INT_MAX then (IntegerToken(IntegerWorth(x)), Unget(rest))
              else (InvalidToken, [])
  {
    hide WholeDigits, Unget, ScanNumber, Minus, Worth, Number;
    var n := |Minus(x)| + |x.whole|;
    assert [] + ([] + rest) == rest;
    assert n < |s| ==> s[n] == rest[0];
    WholeShape(s, x.whole, rest);
  }

  /** A number without fraction and exponent. */
  lemma WholeShape(s: seq<Byte>, d: seq<Byte>, rest: seq<Byte>)
    requires s != [] && (IsDigit(s[0]) || s[0] == 0x2D) && (forall c | c in d :: IsDigit(c)) && d != []
    requires WholeDigits(s[SignLength(s)..]) == |d| && s[SignLength(s)..][..|d|] == d
    requires SignLength(s) + |d| <= |s| && s[SignLength(s) + |d|..] == rest && !Continues(s, SignLength(s) + |d|)
    ensures var token := IntegerOf(s[0] == 0x2D, d);
            ScanNumber(s) == (token, if token == InvalidToken then [] else Unget(rest))
  {
    hide WholeDigits, Number, IntegerOf;
  }

  // ---- What is read is a numeral ----

  lemma {:induction false} CountStops(t: seq<Byte>)
    ensures CountDigits(t) < |t| ==> !IsDigit(t[CountDigits(t)])
  {
    if t != [] && IsDigit(t[0]) {
      CountStops(t[1..]);
    }
  }

  lemma WholeSpelled(t: seq<Byte>, k: nat)
    requires WholeDigits(t) == k > 0
    ensures k <= |t| && AllDigits(t[..k]) && (k > 1 ==> t[..k][0] != 0x30)
    ensures k < |t| ==> !IsDigit(t[k])
  {
    CountStops(t);
    forall c | c in t[..k]
      ensures IsDigit(c)
    {
      var i :| 0 <= i < k && t[..k][i] == c;
      assert IsDigit(t[i]);
    }
  }

  lemma DigitsSpelled(t: seq<Byte>, k: nat)
    requires CountDigits(t) == k > 0
    ensures k <= |t| && AllDigits(t[..k]) && (k < |t| ==> !IsDigit(t[k]))
  {
    CountStops(t);
    forall c | c in t[..k]
      ensures IsDigit(c)
    {
      var i :| 0 <= i < k && t[..k][i] == c;
      assert IsDigit(t[i]);
    }
  }

  ghost predicate IsFraction(f: seq<Byte>) {
    f != [] ==> f[0] == 0x2E && AllDigits(f[1..])
  }

  lemma FractionSpelled(t: seq<Byte>, k: nat)
    requires Fraction(t) == Some(k)
    ensures k <= |t| && IsFraction(t[..k])
    ensures k == 0 <==> t == [] || t[0] != 0x2E
    ensures 0 < k < |t| ==> !IsDigit(t[k])
  {
    if k > 0 {
      DigitsSpelled(t[1..], k - 1);
      assert t[..k][1..] == t[1..][..k - 1];
    }
  }

  lemma ExponentSpelled(t: seq<Byte>, k: nat)
    requires Exponent(t) == Some(k)
    ensures k <= |t| && IsExponent(t[..k])
    ensures k == 0 <==> t == [] || (t[0] != 0x45 && t[0] != 0x65)
    ensures 0 < k < |t| ==> !IsDigit(t[k])
  {
    if k > 0 {
      var sign := if |t| > 1 && (t[1] == 0x2B || t[1] == 0x2D) then 1 else 0;
      DigitsSpelled(t[1 + sign..], k - 1 - sign);
      hide CountDigits;
      assert t[..k][1 + sign..] == t[1 + sign..][..k - 1 - sign];
      assert t[..k][0] == t[0] && t[..k][1] == t[1];
    }
  }

  /** The token that a numeral stands for. */
  ghost predicate NumeralMeans(x: Numeral, token: Token) {
    && IsNumeral(x)
    && if IsReal(x) then token == RealToken(NumeralText(x))
       else INT_MIN <= IntegerWorth(x) <= INT_MAX && token == IntegerToken(IntegerWorth(x))
  }

  lemma WholeFound(s: seq<Byte>)
    requires s != [] && (IsDigit(s[0]) || s[0] == 0x2D) && ScanNumber(s).0 != InvalidToken
    ensures WholeDigits(s[SignLength(s)..]) > 0
  {
    hide WholeDigits;
  }

  lemma Split(s: seq<Byte>, n: nat) returns (a: seq<Byte>, b: seq<Byte>)
    requires n <= |s|
    ensures a == s[..n] && b == s[n..] && s == a + b && |a| == n
  {
    a, b := s[..n], s[n..];
  }

  lemma DropTwice(s: seq<Byte>, i: nat, j: nat, n: nat)
    requires i <= n <= |s| && j == n - i
    ensures s[i..][j..] == s[n..]
  {
  }

  /** The sign and what follows it. */
  lemma SplitSign(s: seq<Byte>) returns (x: Numeral, t: seq<Byte>)
    requires s != [] && (IsDigit(s[0]) || s[0] == 0x2D)
    ensures |Minus(x)| == SignLength(s) && (s[0] == 0x2D <==> x.minus) && t == s[SignLength(s)..] && s == Minus(x) + t
  {
    x, t := Numeral(s[0] == 0x2D, [], [], []), s[SignLength(s)..];
  }

  /** What is scanned as a number is a numeral. */
  lemma ScannedNumber(s: seq<Byte>) returns (x: Numeral, rest: seq<Byte>)
    requires s != [] && (IsDigit(s[0]) || s[0] == 0x2D) && ScanNumber(s).0 != InvalidToken
    ensures NumeralMeans(x, ScanNumber(s).0) && s == NumeralText(x) + rest && ScanNumber(s).1 == Unget(rest)
    ensures NumeralEnds(x, rest)
  {
    WholeFound(s);
    hide *;
    var y, t := SplitSign(s);
    WholeSpelled(t, WholeDigits(t));
    var whole, u := Split(t, WholeDigits(t));
    DropTwice(s, SignLength(s), |whole|, SignLength(s) + |whole|);
    ContinuesIn(s, t, SignLength(s), u);
    if !Continues(s, SignLength(s) + |whole|) {
      x := ScannedWhole(s, y.minus, whole, u);
      rest := u;
    } else {
      x, rest := ScannedReal(s, y.minus, whole, u);
    }
  }

  lemma ContinuesIn(s: seq<Byte>, t: seq<Byte>, i: nat, u: seq<Byte>)
    requires i <= |s| && t == s[i..] && |u| <= |t|
    requires var k := |t| - |u|; u == t[k..] && (k < |t| ==> !IsDigit(t[k]))
    ensures var n := i + |t| - |u|;
            if Continues(s, n) then u != [] && !IsDigit(u[0]) && (u[0] == 0x2E || u[0] == 0x45 || u[0] == 0x65)
            else AtDelimiter(u)
  {
  }

  function Sign(minus: bool): seq<Byte> {
    if minus then [0x2D] else []
  }

  ghost predicate AtDelimiter(rest: seq<Byte>) {
    rest == [] || (!IsDigit(rest[0]) && rest[0] != 0x2E && rest[0] != 0x45 && rest[0] != 0x65)
  }

  lemma ScannedWhole(s: seq<Byte>, minus: bool, whole: seq<Byte>, rest: seq<Byte>) returns (x: Numeral)
    requires s != [] && (IsDigit(s[0]) || s[0] == 0x2D) && ScanNumber(s).0 != InvalidToken
    requires SignLength(s) == |Sign(minus)| && (s[0] == 0x2D <==> minus) && s == Sign(minus) + (whole + rest)
    requires AllDigits(whole) && (|whole| > 1 ==> whole[0] != 0x30) && WholeDigits(whole + rest) == |whole|
    requires AtDelimiter(rest)
    ensures NumeralMeans(x, ScanNumber(s).0) && s == NumeralText(x) + rest && ScanNumber(s).1 == Unget(rest)
    ensures NumeralEnds(x, rest)
  {
    hide *;
    x := WholeNumeralOf(minus, whole, rest);
    MeansDigits(whole);
    NumberIsWorth(whole);
    PartsAt(s, Minus(x), whole, [], [], rest);
    DelimiterMeans(rest);
    WholeNumeral(x, s, rest);
    WholeMeans(x, ScanNumber(s), rest);
  }

  lemma DelimiterMeans(rest: seq<Byte>)
    requires AtDelimiter(rest)
    ensures rest == [] || (rest[0] != 0x2E && rest[0] != 0x45 && rest[0] != 0x65)
  {
  }

  lemma WholeNumeralOf(minus: bool, whole: seq<Byte>, rest: seq<Byte>) returns (x: Numeral)
    requires AllDigits(whole) && (|whole| > 1 ==> whole[0] != 0x30)
    ensures x == Numeral(minus, whole, [], []) && IsNumeral(x) && !IsReal(x) && Minus(x) == Sign(minus)
    ensures [] + ([] + rest) == rest && Sign(minus) + (whole + rest) == Minus(x) + (whole + ([] + ([] + rest)))
    ensures Sign(minus) + (whole + rest) == NumeralText(x) + rest && (AtDelimiter(rest) ==> NumeralEnds(x, rest))
  {
    x := Numeral(minus, whole, [], []);
    hide AllDigits;
    assert NumeralText(x) == Sign(minus) + whole;
    assert Sign(minus) + whole + rest == Sign(minus) + (whole + rest);
  }

  lemma MeansDigits(d: seq<Byte>)
    requires AllDigits(d)
    ensures d != [] && forall c | c in d :: IsDigit(c)
  {
  }

  lemma WholeMeans(x: Numeral, scanned: (Token, seq<Byte>), rest: seq<Byte>)
    requires IsNumeral(x) && !IsReal(x) && scanned.0 != InvalidToken
    requires scanned ==
               if INT_MIN <= IntegerWorth(x) <= INT_MAX then (IntegerToken(IntegerWorth(x)), Unget(rest))
               else (InvalidToken, [])
    ensures NumeralMeans(x, scanned.0) && scanned.1 == Unget(rest)
  {
    hide IsNumeral, IsReal, IntegerWorth, Unget;
  }

  lemma ScannedReal(s: seq<Byte>, minus: bool, whole: seq<Byte>, u: seq<Byte>) returns (x: Numeral, rest: seq<Byte>)
    requires s != [] && (IsDigit(s[0]) || s[0] == 0x2D) && ScanNumber(s).0 != InvalidToken
    requires SignLength(s) == |Sign(minus)| && (s[0] == 0x2D <==> minus) && s == Sign(minus) + (whole + u)
    requires u == s[SignLength(s) + |whole|..] && whole + u == s[SignLength(s)..]
    requires AllDigits(whole) && (|whole| > 1 ==> whole[0] != 0x30) && WholeDigits(whole + u) == |whole|
    requires u != [] && (u[0] == 0x2E || u[0] == 0x45 || u[0] == 0x65)
    ensures NumeralMeans(x, ScanNumber(s).0) && s == NumeralText(x) + rest && ScanNumber(s).1 == Unget(rest)
    ensures NumeralEnds(x, rest)
  {
    var n := SignLength(s) + |whole|;
    assert whole != [] && Continues(s, n);
    RealHasParts(s, n, u);
    hide *;
    FractionSpelled(u, Fraction(u).value);
    var f, w := Split(u, Fraction(u).value);
    ExponentSpelled(w, Exponent(w).value);
    var e, r := Split(w, Exponent(w).value);
    rest := r;
    x := Numeral(minus, whole, f, e);
    SomethingFollows(u, w, f, e, rest);
    RealFinish(x, s, f, e, rest);
  }

  /** A fraction or an exponent, and nothing that goes on with it. */
  ghost predicate RealTail(f: seq<Byte>, e: seq<Byte>, rest: seq<Byte>) {
    && (f != [] || e != [])
    && (rest != [] ==> !IsDigit(rest[0]) && (e == [] ==> rest[0] != 0x45 && rest[0] != 0x65))
  }

  lemma SomethingFollows(u: seq<Byte>, w: seq<Byte>, f: seq<Byte>, e: seq<Byte>, rest: seq<Byte>)
    requires u != [] && (u[0] == 0x2E || u[0] == 0x45 || u[0] == 0x65)
    requires Fraction(u) == Some(|f|) && u == f + w && Exponent(w) == Some(|e|) && w == e + rest
    ensures RealTail(f, e, rest)
  {
    FractionParts(u, f, w);
    ExponentParts(w, e, rest);
    hide Fraction, Exponent, IsDigit;
  }

  lemma FractionParts(u: seq<Byte>, f: seq<Byte>, w: seq<Byte>)
    requires u == f + w && Fraction(u) == Some(|f|)
    ensures f == [] ==> u == w && (w == [] || w[0] != 0x2E)
    ensures f != [] && w != [] ==> !IsDigit(w[0])
  {
    FractionSpelled(u, |f|);
    hide Fraction, IsFraction, IsDigit;
    assert w != [] ==> u[|f|] == w[0];
  }

  lemma ExponentParts(w: seq<Byte>, e: seq<Byte>, rest: seq<Byte>)
    requires w == e + rest && Exponent(w) == Some(|e|)
    ensures e == [] ==> w == rest && (w == [] || (w[0] != 0x45 && w[0] != 0x65))
    ensures e != [] && rest != [] ==> !IsDigit(rest[0])
  {
    ExponentSpelled(w, |e|);
    hide Exponent, IsExponent, IsDigit;
    assert rest != [] ==> w[|e|] == rest[0];
  }

  lemma RealFinish(x: Numeral, s: seq<Byte>, f: seq<Byte>, e: seq<Byte>, rest: seq<Byte>)
    requires s != [] && (IsDigit(s[0]) || s[0] == 0x2D) && SignLength(s) == |Sign(x.minus)|
    requires x == Numeral(x.minus, x.whole, f, e) && s == Sign(x.minus) + (x.whole + (f + (e + rest)))
    requires AllDigits(x.whole) && (|x.whole| > 1 ==> x.whole[0] != 0x30) && IsFraction(f) && IsExponent(e)
    requires WholeDigits(x.whole + (f + (e + rest))) == |x.whole|
    requires Fraction(f + (e + rest)) == Some(|f|) && Exponent(e + rest) == Some(|e|) && RealTail(f, e, rest)
    ensures NumeralMeans(x, ScanNumber(s).0) && s == NumeralText(x) + rest && ScanNumber(s).1 == Unget(rest)
    ensures NumeralEnds(x, rest)
  {
    var more := f + (e + rest);
    assert f != [] ==> more[0] == f[0];
    assert f == [] ==> more == e + rest && more[0] == e[0];
    assert IsNumeral(x) && IsReal(x) && NumeralEnds(x, rest) && NumeralText(x) == Minus(x) + x.whole + f + e;
    assert Minus(x) == Sign(x.minus) && x.whole != [];
    Associated(Minus(x), x.whole, f, e, rest);
    hide WholeDigits, Fraction, Exponent, ScanNumber, NumeralText, IsNumeral, Minus, Sign, AllDigits, IsExponent;
    PartsAt(s, Minus(x), x.whole, f, e, rest);
    hide Placed;
    RealNumeral(x, s, f, e, rest, more);
  }

  lemma RealHasParts(s: seq<Byte>, n: nat, u: seq<Byte>)
    requires s != [] && (IsDigit(s[0]) || s[0] == 0x2D) && ScanNumber(s).0 != InvalidToken
    requires n - SignLength(s) == WholeDigits(s[SignLength(s)..]) > 0 && Continues(s, n) && u == s[n..]
    ensures Fraction(u).Some? && Fraction(u).value <= |u| && Exponent(u[Fraction(u).value..]).Some?
  {
    hide WholeDigits, Fraction, Exponent, Unget;
    var f := Fraction(u).value;
    DropTwice(s, n, f, n + f);
  }
}
