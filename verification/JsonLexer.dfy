/**
 The lexer and the parser of libjansson/jansson-2.7/src/load.c: loops over a stream that is changed by
 every byte they get or push back, proved to compute the tokens and values of JsonParser.
 */
module JsonLexer {

  import opened JsonUtf8
  import opened JsonString
  import opened JsonValue
  import opened JsonParser
  import opened JsonStream

  /** The char that reading delivers when `s` is what remains. */
  function CharOf(s: seq<Byte>, bad: bool): int {
    if s == [] then (if bad then ERROR else EOF) else Signed(s[0])
  }

  function Tail(s: seq<Byte>): seq<Byte> {
    if s == [] then [] else s[1..]
  }

  /** `c` is byte `k` of the text `s0`, or its end, and everything up to it was saved behind `base`. */
  ghost predicate ReadUpTo(s0: seq<Byte>, k: nat, base: seq<Byte>, c: int, text: seq<Byte>, saved: seq<Byte>,
      bad: bool)
  {
    && k <= |s0| && c == CharOf(s0[k..], bad) && text == Tail(s0[k..])
    && saved == base + s0[..if k < |s0| then k + 1 else k] && (k < |s0| ==> IsByte(c))
  }

  lemma ReadFirst(s0: seq<Byte>, base: seq<Byte>, c: int, text: seq<Byte>, saved: seq<Byte>, bad: bool)
    requires c == CharOf(s0, bad) && (s0 != [] ==> IsByte(c)) && text == Tail(s0)
        && saved == base + (if s0 == [] then [] else [s0[0]])
    ensures ReadUpTo(s0, 0, base, c, text, saved, bad)
  {
    assert s0[0..] == s0;
    assert s0 != [] ==> s0[..1] == [s0[0]];
    assert s0[..0] == [];
  }

  lemma ReadNext(s0: seq<Byte>, k: nat, base: seq<Byte>, text: seq<Byte>, saved: seq<Byte>, c: int, text': seq<Byte>,
      saved': seq<Byte>, bad: bool)
    requires k < |s0| && text == Tail(s0[k..]) && saved == base + s0[..k + 1]
    requires c == CharOf(text, bad) && (text != [] ==> IsByte(c)) && text' == Tail(text)
        && saved' == saved + (if text == [] then [] else [text[0]])
    ensures ReadUpTo(s0, k + 1, base, c, text', saved', bad)
  {
    assert text == s0[k + 1..];
    if k + 1 < |s0| {
      assert s0[..k + 2] == s0[..k + 1] + [s0[k + 1]];
    } else {
      assert saved + [] == saved;
    }
  }

  predicate Xdigit(c: int) {
    0x30 <= c <= 0x39 || 0x41 <= c <= 0x46 || 0x61 <= c <= 0x66
  }

  /** The first pass over one unit. */
  lemma UnitPassed(s0: seq<Byte>, k: nat)
    requires k < |s0| && s0[k] != QUOTE && StringEnd(s0) == Shift(k, StringEnd(s0[k..]))
    ensures var unit := Unit(s0[k..]);
            && k + unit <= |s0|
            && StringEnd(s0) == if unit == 0 then None else Shift(k + unit, StringEnd(s0[k + unit..]))
  {
    hide StringEnd, Unit, Shift;
    var s, unit := s0[k..], Unit(s0[k..]);
    ShiftNone(k);
    assert s[unit..] == s0[k + unit..];
    UnitOf(s);
    ShiftTwice(k, unit, StringEnd(s[unit..]));
  }

  lemma ShiftNone(a: nat)
    ensures Shift(a, None) == None
  {
  }

  lemma ShiftTwice(a: nat, b: nat, r: Option<nat>)
    ensures Shift(a, Shift(b, r)) == Shift(a + b, r)
  {
  }

  lemma UngetIs(c: int, text: seq<Byte>)
    requires IsByte(c)
    ensures Unget([Unsigned(c)] + text) == (if c == 0 then [] else [Unsigned(c)]) + text
  {
    assert ([Unsigned(c)] + text)[1..] == text;
  }

  lemma LastParts(s0: seq<Byte>, k: nat)
    requires k <= |s0|
    ensures k < |s0| ==> [s0[k]] + s0[k + 1..] == s0[k..] && ([] + s0[..k + 1])[..k] == s0[..k]
    ensures k == |s0| ==> [] + s0 == s0 == s0[..k] && s0[k..] == []
  {
  }

  class Lexer {
    const stream: Stream
    /** `saved_text` */
    var saved: seq<Byte>
    /** The token with its value. */
    var token: Token

    /** `lex_init` */
    constructor (input: seq<Byte>)
      ensures Valid() && fresh(stream) && fresh(stream.buffer)
      ensures Text() == input[..Decodable(input)] && stream.input == input
    {
      stream := new Stream(input);
      saved, token := [], InvalidToken;
    }

    ghost predicate Valid()
      reads stream, stream.buffer
    {
      stream.Valid()
    }

    ghost predicate Bad() {
      stream.Bad()
    }

    /** What remains to be read. */
    ghost function Text(): seq<Byte>
      requires Valid()
      reads stream, stream.buffer
    {
      stream.Remaining()
    }

    /** `c` can be pushed back. */
    ghost predicate JustRead(c: int)
      reads stream, stream.buffer
    {
      || c == EOF || c == ERROR
      || (IsByte(c) && stream.state == StateOk && 0 < stream.bufferPos <= stream.buffer.Length
          && stream.buffer[stream.bufferPos - 1] == Unsigned(c))
    }

    /** `lex_get` */
    method Get() returns (c: int)
      requires Valid()
      modifies stream, stream.buffer
      ensures Valid() && JustRead(c)
      ensures c == CharOf(old(Text()), Bad()) && Text() == Tail(old(Text()))
      ensures old(Text()) != [] ==> IsByte(c) && Unsigned(c) == old(Text())[0]
    {
      c := stream.Get();
    }

    /** `lex_get_save` */
    method GetSave() returns (c: int)
      requires Valid()
      modifies stream, stream.buffer, this`saved
      ensures Valid() && JustRead(c)
      ensures c == CharOf(old(Text()), Bad()) && Text() == Tail(old(Text()))
      ensures old(Text()) != [] ==> IsByte(c) && Unsigned(c) == old(Text())[0]
      ensures saved == old(saved) + (if old(Text()) == [] then [] else [old(Text())[0]])
    {
      c := stream.Get();
      if c != EOF && c != ERROR {
        saved := saved + [Unsigned(c)];
      } else {
        assert saved + [] == saved;
      }
    }

    /** Byte `k` of the text `s0` was read last; all of them so far were saved behind `base`. */
    ghost predicate Reading(s0: seq<Byte>, k: nat, base: seq<Byte>, c: int)
      reads this`saved, stream, stream.buffer
    {
      Valid() && JustRead(c) && ReadUpTo(s0, k, base, c, Text(), saved, Bad())
    }

    lemma ReadingMeans(s0: seq<Byte>, k: nat, base: seq<Byte>, c: int)
      requires Reading(s0, k, base, c)
      ensures Valid() && JustRead(c) && k <= |s0|
      ensures k == |s0| ==> (c == if Bad() then ERROR else EOF) && Text() == [] && saved == base + s0
      ensures k < |s0| ==>
                && IsByte(c) && Unsigned(c) == s0[k] && c == Signed(s0[k]) && Text() == s0[k + 1..]
                && saved == base + s0[..k + 1] && saved != [] && saved[|saved| - 1] == Unsigned(c)
    {
      ReadMeans(s0, k, base, c, Text(), saved, Bad());
    }

    lemma MakeReading(s0: seq<Byte>, k: nat, base: seq<Byte>, c: int)
      requires Valid() && JustRead(c) && ReadUpTo(s0, k, base, c, Text(), saved, Bad())
      ensures Reading(s0, k, base, c)
    {
    }

    /** `lex_get_save` in the middle of a token. */
    method GetNext(ghost s0: seq<Byte>, ghost k: nat, ghost base: seq<Byte>, ghost was: int) returns (c: int)
      requires Reading(s0, k, base, was) && k < |s0|
      modifies stream, stream.buffer, this`saved
      ensures Reading(s0, k + 1, base, c)
    {
      ghost var text, before := Text(), saved;
      c := GetSave();
      ReadNext(s0, k, base, text, before, c, Text(), saved, Bad());
    }

    /** `lex_get_save` at the beginning of a text. */
    method GetFirst(ghost s0: seq<Byte>, ghost base: seq<Byte>) returns (c: int)
      requires Valid() && s0 == Text() && base == saved
      modifies stream, stream.buffer, this`saved
      ensures Reading(s0, 0, base, c)
    {
      c := GetSave();
      ReadFirst(s0, base, c, Text(), saved, Bad());
    }

    /** `lex_unget_unsave` */
    method UngetUnsave(c: int)
      requires Valid() && JustRead(c)
      requires IsByte(c) ==> saved != [] && saved[|saved| - 1] == Unsigned(c)
      modifies stream`bufferPos, stream`line, stream`column, stream`position, this`saved
      ensures Valid()
      ensures IsByte(c) ==> Text() == Unget([Unsigned(c)] + old(Text())) && saved == old(saved)[..|old(saved)| - 1]
      ensures !IsByte(c) ==> Text() == old(Text()) && saved == old(saved)
    {
      if IsByte(c) {
        UngetIs(c, Text());
      }
      hide Sound, Rest, Upcoming, Decodable, JsonUtf8.Valid, Unsigned, Unget;
      if c != EOF && c != ERROR {
        stream.Unget(c);
        saved := saved[..|saved| - 1];
      }
    }

    /** The four digits of `\u`, which was read as far as the letter. */
    method GetHexDigits(ghost s0: seq<Byte>, ghost k: nat, ghost was: int) returns (ok: bool, c: int)
      requires Reading(s0, k + 1, [QUOTE], was) && k + 1 < |s0| && HexUpTo(s0[k..], 0)
      modifies stream, stream.buffer, this`saved
      ensures Valid() && (ok <==> Unit(s0[k..]) > 0)
      ensures ok ==> k + 6 <= |s0| && HexUpTo(s0[k..], 4) && Reading(s0, k + 6, [QUOTE], c)
    {
      hide Decodable, Valid, Reading, Unit, JustRead, Unsigned, Text, Bad;
      c := GetNext(s0, k + 1, [QUOTE], was);
      for i := 0 to 4
        invariant k + 2 + i <= |s0| && Reading(s0, k + 2 + i, [QUOTE], c) && HexUpTo(s0[k..], i)
      {
        ReadingMeans(s0, k + 2 + i, [QUOTE], c);
        if !Xdigit(c) {
          HexMissing(s0[k..], i);
          return false, c;
        }
        c := GetNext(s0, k + 2 + i, [QUOTE], c);
        ReadingMeans(s0, k + 3 + i, [QUOTE], c);
      }
      HexUnit(s0[k..]);
      ReadingMeans(s0, k + 6, [QUOTE], c);
      return true, c;
    }

    /** An escape, which was read as far as the backslash. */
    method GetEscape(ghost s0: seq<Byte>, ghost k: nat, ghost was: int) returns (ok: bool, c: int)
      requires Reading(s0, k, [QUOTE], was) && k < |s0| && s0[k] == BACKSLASH
      modifies stream, stream.buffer, this`saved
      ensures Valid() && (ok <==> Unit(s0[k..]) > 0)
      ensures ok ==> k + Unit(s0[k..]) <= |s0| && Reading(s0, k + Unit(s0[k..]), [QUOTE], c)
    {
      hide Decodable, Valid, Reading, Unit, JustRead, IsHexDigit;
      c := GetNext(s0, k, [QUOTE], was);
      ReadingMeans(s0, k + 1, [QUOTE], c);
      if c == 0x75 {
        ok, c := GetHexDigits(s0, k, c);
        if ok {
          HexUnit(s0[k..]);
        }
        return ok, c;
      } else if c == 0x22 || c == 0x5C || c == 0x2F || c == 0x62 || c == 0x66 || c == 0x6E || c == 0x72 || c == 0x74 {
        ShortcutUnit(s0[k..]);
        c := GetNext(s0, k + 1, [QUOTE], c);
        ReadingMeans(s0, k + 2, [QUOTE], c);
        return true, c;
      } else {
        NoUnit(s0[k..]);
        return false, c;
      }
    }

    /** The first loop of `lex_scan_string`: goes on to the closing quote. */
    method FindStringEnd() returns (ok: bool)
      requires Valid() && saved == [QUOTE]
      modifies stream, stream.buffer, this`saved
      ensures Valid() && (ok <==> StringEnd(old(Text())).Some?)
      ensures ok ==> Reading(old(Text()), StringEnd(old(Text())).value, [QUOTE], 0x22)
    {
      hide Decodable, Valid, Reading, StringEnd, Unit, JustRead, IsHexDigit, Shift;
      ghost var s0, k := Text(), 0;
      var c := GetFirst(s0, [QUOTE]);
      StartPass(s0);
      while c != 0x22
        invariant k <= |s0| && Reading(s0, k, [QUOTE], c)
        invariant StringEnd(s0) == Shift(k, StringEnd(s0[k..]))
        decreases |s0| - k
      {
        ReadingMeans(s0, k, [QUOTE], c);
        if c == ERROR || c == EOF {
          NoStringEnd(s0, k);
          return false;
        }
        UnitPassed(s0, k);
        ghost var unit := Unit(s0[k..]);
        if 0 <= c <= 0x1F {
          ControlUnit(s0[k..]);
          UngetUnsave(c);
          return false;
        } else if c == 0x5C {
          var ok;
          ok, c := GetEscape(s0, k, c);
          if !ok {
            return false;
          }
        } else {
          PlainUnit(s0[k..]);
          c := GetNext(s0, k, [QUOTE], c);
        }
        k := k + unit;
      }
      ReadingMeans(s0, k, [QUOTE], c);
      QuoteFound(s0, k);
      assert c == 0x22;
      return true;
    }

    /** The part of the second loop of `lex_scan_string` for an escape whose letter is at `p`: its code
        point, which may take two escapes, and where it ends. */
    method DecodeUnicode(p: nat, ghost body: seq<Byte>, ghost q: nat) returns (value: Option<int>, end: nat)
      requires saved == [QUOTE] + body + [QUOTE] && p == q + 2 && q < |body|
      requires body[q] == BACKSLASH && StringEnd(body[q..] + [QUOTE]) == Some(|body| - q)
      requires p < |saved| && saved[p] == LETTER_U
      ensures value.None? ==> Decoded1(body[q..]).None?
      ensures value.Some? ==>
          q + 1 <= end && Encode(value.value).Some?
          && Decoded1(body[q..]) == Some((Encode(value.value).value, end - 1 - q))
    {
      hide StringEnd, Decode, Decoded1, Unit, Encode, UnicodeValue, HexValue;
      EscapeValues(saved, body, q);
      var v := EscapeValue(saved, p);
      end := p + 5;
      if 0xD800 <= v <= 0xDBFF {
        SecondEscape(saved, body, q);
        if saved[end] == BACKSLASH && saved[end + 1] == LETTER_U {
          var w := EscapeValue(saved, end + 1);
          end := end + 6;
          if 0xDC00 <= w <= 0xDFFF {
            value := Some((v - 0xD800) * 0x400 + (w - 0xDC00) + 0x1_0000);
          } else {
            value := None;
          }
        } else {
          value := None;
        }
      } else if 0xDC00 <= v <= 0xDFFF {
        SingleDecoded(body, q);
        value := None;
      } else {
        SingleDecoded(body, q);
        value := Some(v);
      }
    }

    /** The second loop of `lex_scan_string`: decodes the saved text between the quotes into a buffer
        of its length and one byte, which is never overrun. */
    method DecodeSaved(ghost body: seq<Byte>) returns (r: Option<seq<Byte>>)
      requires saved == [QUOTE] + body + [QUOTE] && StringEnd(body + [QUOTE]) == Some(|body|)
      ensures r == Decode(body)
    {
      hide StringEnd, Decode, Decoded1, Unit, Encode, UnicodeValue, Passing;
      var val := new Byte[|saved| + 1];
      var p, t := 1, 0;
      PassStarts(body);
      assert val[..0] == [];
      while saved[p] != QUOTE
        invariant 1 <= p <= |body| + 1 && 0 <= t <= p - 1
        invariant Passing(body, p - 1, val[..t])
        decreases |body| + 1 - p
      {
        ghost var q, before := p - 1, val[..t];
        PassMeans(saved, body, q, before);
        if saved[p] == BACKSLASH {
          EscapeComplete(saved, body, q);
          p := p + 1;
          if saved[p] == LETTER_U {
            var value, end := DecodeUnicode(p, body, q);
            if value.None? {
              PassFails(body, q, before);
              return None;
            }
            PassOn(body, q, before, Encode(value.value).value, end - 1 - q);
            t := Store(val, t, Encode(value.value).value);
            p := end;
          } else {
            ShortcutDecoded(body, q);
            PassOn(body, q, before, [ShortcutValue(saved[p])], 2);
            t := Store(val, t, [ShortcutValue(saved[p])]);
            p := p + 1;
          }
        } else {
          PlainDecoded(body, q);
          PassOn(body, q, before, [saved[p]], 1);
          t := Store(val, t, [saved[p]]);
          p := p + 1;
        }
      }
      val[t] := 0;
      PassEnds(saved, body, p - 1, val[..t]);
      return Some(val[..t]);
    }

    /** `utf8_encode` into the buffer. */
    method Store(val: array<Byte>, t: nat, bytes: seq<Byte>) returns (t': nat)
      requires t + |bytes| <= val.Length
      modifies val
      ensures t' == t + |bytes| && val[..t'] == old(val[..t]) + bytes
    {
      for j := 0 to |bytes|
        invariant val[..t + j] == old(val[..t]) + bytes[..j]
      {
        val[t + j] := bytes[j];
        assert val[..t + j + 1] == val[..t + j] + [bytes[j]];
      }
      assert bytes[..|bytes|] == bytes;
      return t + |bytes|;
    }

    /** `lex_scan_string` */
    method ScanStringRest()
      requires Valid() && saved == [QUOTE]
      modifies stream, stream.buffer, this`saved, this`token
      ensures Valid()
      ensures match ScanString(old(Text()))
              case None => token == InvalidToken
              case Some((value, rest)) => token == StringToken(value) && Text() == rest
    {
      hide Decodable, Valid, Reading, StringEnd, Decode, JustRead;
      ghost var s0 := Text();
      token := InvalidToken;
      var found := FindStringEnd();
      if found {
        ghost var n := StringEnd(s0).value;
        ReadingMeans(s0, n, [QUOTE], 0x22);
        CutAtEnd(s0, n);
        assert s0[..n + 1] == s0[..n] + [QUOTE];
        assert [QUOTE] + (s0[..n] + [QUOTE]) == [QUOTE] + s0[..n] + [QUOTE];
        var value := DecodeSaved(s0[..n]);
        if value.Some? {
          token := StringToken(value.value);
        }
      }
    }

    /** `lex_unget_unsave` at the end of a token. */
    method UngetLast(ghost s0: seq<Byte>, ghost k: nat, c: int)
      requires Reading(s0, k, [], c)
      modifies stream`bufferPos, stream`line, stream`column, stream`position, this`saved
      ensures Valid() && k <= |s0| && Text() == Unget(s0[k..]) && saved == s0[..k]
    {
      hide Decodable, Valid, Reading, JustRead, ReadUpTo;
      ReadingMeans(s0, k, [], c);
      LastParts(s0, k);
      UngetUnsave(c);
    }

    /** `while(l_isdigit(c)) c = lex_get_save(lex, error);` */
    method GetDigits(ghost s0: seq<Byte>, ghost k0: nat, was: int) returns (c: int, ghost k: nat)
      requires Reading(s0, k0, [], was)
      modifies stream, stream.buffer, this`saved
      ensures k0 <= |s0| && k == k0 + CountDigits(s0[k0..]) <= |s0| && Reading(s0, k, [], c)
    {
      hide Decodable, Valid, Reading, JustRead, CountDigits;
      c, k := was, k0;
      ReadingMeans(s0, k, [], c);
      while 0x30 <= c <= 0x39
        invariant k0 <= k <= |s0| && Reading(s0, k, [], c)
        invariant k + CountDigits(s0[k..]) == k0 + CountDigits(s0[k0..])
        decreases |s0| - k
      {
        ReadingMeans(s0, k, [], c);
        OneDigit(s0, k);
        c := GetNext(s0, k, [], c);
        k := k + 1;
        ReadingMeans(s0, k, [], c);
      }
      ReadingMeans(s0, k, [], c);
      NoDigit(s0, k);
    }

    /** `lex_unget` */
    method PushBack(c: int)
      requires Valid() && JustRead(c)
      modifies stream
      ensures Valid()
    {
      stream.Unget(c);
    }

    /** The digit that has to follow the point: got, and pushed back or saved. */
    method GetDigit(ghost s0: seq<Byte>, ghost n: nat, was: int) returns (ok: bool, c: int)
      requires Reading(s0, n, [], was) && n < |s0|
      modifies stream, stream.buffer, this`saved
      ensures Valid() && (ok <==> n + 1 < |s0| && IsDigit(s0[n + 1]))
      ensures ok ==> Reading(s0, n + 1, [], c)
    {
      hide Decodable, Valid, Reading, JustRead, ReadUpTo;
      ReadingMeans(s0, n, [], was);
      ghost var text, before := Text(), saved;
      c := Get();
      FirstOf(s0, n + 1, c, Bad());
      ok := 0x30 <= c <= 0x39;
      if !ok {
        PushBack(c);
      } else {
        saved := saved + [Unsigned(c)];
        DigitSaved(s0, n, text, before, c, Text(), saved, Bad());
        MakeReading(s0, n + 1, [], c);
      }
    }

    /** The fraction of a number, read as far as the point. */
    method GetFraction(ghost s0: seq<Byte>, ghost n: nat, was: int) returns (ok: bool, c: int, ghost k: nat)
      requires Reading(s0, n, [], was) && n < |s0| && s0[n] == 0x2E
      modifies stream, stream.buffer, this`saved
      ensures Valid() && (ok <==> Fraction(s0[n..]).Some?)
      ensures ok ==> k == n + Fraction(s0[n..]).value <= |s0| && Reading(s0, k, [], c)
    {
      hide Decodable, Valid, Reading, JustRead, CountDigits, Fraction;
      FractionOf(s0, n);
      k := n + 1;
      ok, c := GetDigit(s0, n, was);
      if !ok {
        NoDigit(s0, n + 1);
        return;
      }
      OneDigit(s0, n + 1);
      c := GetNext(s0, n + 1, [], c);
      c, k := GetDigits(s0, n + 2, c);
      ReadingMeans(s0, k, [], c);
    }

    /** The exponent of a number, read as far as its letter. */
    method GetExponent(ghost s0: seq<Byte>, ghost n: nat, was: int) returns (ok: bool, c: int, ghost k: nat)
      requires Reading(s0, n, [], was) && n < |s0| && (s0[n] == 0x45 || s0[n] == 0x65)
      modifies stream, stream.buffer, this`saved
      ensures Valid() && (ok <==> Exponent(s0[n..]).Some?)
      ensures ok ==> k == n + Exponent(s0[n..]).value <= |s0| && Reading(s0, k, [], c)
    {
      hide Decodable, Valid, Reading, JustRead, CountDigits, Exponent, Unsigned, Text, Bad;
      c := GetNext(s0, n, [], was);
      k := n + 1;
      ReadingMeans(s0, k, [], c);
      if c == 0x2B || c == 0x2D {
        c := GetNext(s0, k, [], c);
        k := k + 1;
        ReadingMeans(s0, k, [], c);
      }
      ExponentOf(s0, n, k - n - 1);
      if !(0x30 <= c <= 0x39) {
        NoDigit(s0, k);
        UngetLast(s0, k, c);
        return false, c, k;
      }
      OneDigit(s0, k);
      c := GetNext(s0, k, [], c);
      c, k := GetDigits(s0, k + 1, c);
      ReadingMeans(s0, k, [], c);
      return true, c, k;
    }

    /** The sign and the digits before a fraction or an exponent. */
    method GetWhole(first: int, ghost s0: seq<Byte>, ghost sign: nat) returns (ok: bool, c: int, ghost k: nat)
      requires s0 != [] && Reading(s0, 0, [], first) && (IsDigit(s0[0]) || s0[0] == 0x2D)
      requires sign == if s0[0] == 0x2D then 1 else 0
      modifies stream, stream.buffer, this`saved
      ensures Valid() && (ok <==> WholeDigits(s0[sign..]) > 0)
      ensures ok ==> k == sign + WholeDigits(s0[sign..]) <= |s0| && Reading(s0, k, [], c)
    {
      hide Decodable, Valid, Reading, JustRead, CountDigits, WholeDigits;
      c := first;
      ReadingMeans(s0, 0, [], c);
      if c == 0x2D {
        c := GetNext(s0, 0, [], c);
      }
      ok, c, k := GetUnsigned(c, s0, sign);
    }

    /** The digits behind the sign. */
    method GetUnsigned(first: int, ghost s0: seq<Byte>, ghost sign: nat) returns (ok: bool, c: int, ghost k: nat)
      requires sign <= |s0| && Reading(s0, sign, [], first)
      modifies stream, stream.buffer, this`saved
      ensures Valid() && (ok <==> WholeDigits(s0[sign..]) > 0)
      ensures ok ==> k == sign + WholeDigits(s0[sign..]) <= |s0| && Reading(s0, k, [], c)
    {
      hide Decodable, Valid, Reading, JustRead, CountDigits, WholeDigits;
      c, k := first, sign;
      ReadingMeans(s0, k, [], c);
      if c == 0x30 {
        c := GetNext(s0, k, [], c);
        k := k + 1;
        ReadingMeans(s0, k, [], c);
        LeadingZero(s0, sign);
        if 0x30 <= c <= 0x39 {
          UngetLast(s0, k, c);
          return false, c, k;
        }
      } else if 0x30 <= c <= 0x39 {
        c := GetNext(s0, k, [], c);
        c, k := GetDigits(s0, k + 1, c);
        MoreDigits(s0, sign);
        ReadingMeans(s0, k, [], c);
      } else {
        NoDigits(s0, sign);
        UngetLast(s0, k, c);
        return false, c, k;
      }
      return true, c, k;
    }

    /** A fraction, an exponent, or both. */
    method GetReal(ghost s0: seq<Byte>, ghost n: nat, was: int) returns (ok: bool, c: int, ghost k: nat)
      requires Reading(s0, n, [], was) && n < |s0|
      modifies stream, stream.buffer, this`saved
      ensures Valid() && (ok <==> Fraction(s0[n..]).Some? && Exponent(s0[n + Fraction(s0[n..]).value..]).Some?)
      ensures ok ==>
          k == n + Fraction(s0[n..]).value + Exponent(s0[n + Fraction(s0[n..]).value..]).value <= |s0|
          && Reading(s0, k, [], c)
    {
      hide Decodable, Valid, Reading, JustRead, Fraction, Exponent;
      ok, c, k := true, was, n;
      ReadingMeans(s0, n, [], c);
      NoFraction(s0, n);
      if c == 0x2E {
        ok, c, k := GetFraction(s0, n, c);
        if !ok {
          return;
        }
        ReadingMeans(s0, k, [], c);
      }
      NoExponent(s0, k);
      if c == 0x45 || c == 0x65 {
        ok, c, k := GetExponent(s0, k, c);
      }
    }

    /** `lex_scan_number`, which was read as far as its first byte. */
    method ScanNumberRest(first: int, ghost s0: seq<Byte>)
      requires s0 != [] && Reading(s0, 0, [], first) && (IsDigit(s0[0]) || s0[0] == 0x2D)
      modifies stream, stream.buffer, this`saved, this`token
      ensures Valid() && token == ScanNumber(s0).0
      ensures token != InvalidToken ==> Text() == ScanNumber(s0).1
    {
      hide Decodable, Valid, Reading, JustRead, WholeDigits, Fraction, Exponent, IntegerOf, IntegerText, Unget,
          ScanNumber;
      token := InvalidToken;
      ghost var sign := if s0[0] == 0x2D then 1 else 0;
      var ok, c;
      ghost var k;
      ok, c, k := GetWhole(first, s0, sign);
      if !ok {
        NoWhole(s0, sign);
        return;
      }
      ReadingMeans(s0, k, [], c);
      if c != 0x2E && c != 0x45 && c != 0x65 {
        UngetLast(s0, k, c);
        IsWhole(s0, sign, k);
        token := IntegerText(saved);
        return;
      }
      IsReal(s0, sign, k);
      ok, c, k := GetReal(s0, k, c);
      if !ok {
        return;
      }
      UngetLast(s0, k, c);
      token := RealToken(saved);
    }

    /** The rest of an identifier, which was read as far as its first letter. */
    method ScanIdentifier(first: int, ghost s0: seq<Byte>)
      requires s0 != [] && Reading(s0, 0, [], first) && IsAlpha(s0[0])
      modifies stream, stream.buffer, this`saved, this`token
      ensures Valid() && token == Identifier(s0[..CountAlphas(s0)])
      ensures token != InvalidToken ==> Text() == Unget(s0[CountAlphas(s0)..])
    {
      hide Decodable, Valid, Reading, JustRead, CountAlphas, Unget;
      ghost var k := 1;
      ReadingMeans(s0, 0, [], first);
      var c := GetNext(s0, 0, [], first);
      ReadingMeans(s0, 1, [], c);
      OneAlpha(s0, 0);
      assert s0[0..] == s0;
      while 0x41 <= c <= 0x5A || 0x61 <= c <= 0x7A
        invariant k <= |s0| && Reading(s0, k, [], c)
        invariant k + CountAlphas(s0[k..]) == CountAlphas(s0)
        decreases |s0| - k
      {
        ReadingMeans(s0, k, [], c);
        OneAlpha(s0, k);
        c := GetNext(s0, k, [], c);
        k := k + 1;
        ReadingMeans(s0, k, [], c);
      }
      ReadingMeans(s0, k, [], c);
      NoAlpha(s0, k);
      UngetLast(s0, k, c);
      token := Identifier(saved);
    }

    /** Skips white space; the byte behind it was read. */
    method SkipSpace() returns (c: int, ghost s: seq<Byte>)
      requires Valid()
      modifies stream, stream.buffer
      ensures Valid() && s == SkipSpaces(old(Text()))
      ensures c == CharOf(s, Bad()) && Text() == Tail(s) && JustRead(c)
          && (s != [] ==> IsByte(c) && Unsigned(c) == s[0])
    {
      hide Decodable, Valid, JustRead, SkipSpaces;
      s := Text();
      c := Get();
      while c == 0x20 || c == 0x09 || c == 0x0A || c == 0x0D
        invariant Valid() && SkipSpaces(s) == SkipSpaces(old(Text()))
        invariant c == CharOf(s, Bad()) && Text() == Tail(s) && JustRead(c)
            && (s != [] ==> IsByte(c) && Unsigned(c) == s[0])
        decreases |s|
      {
        OneSpace(s);
        s := Tail(s);
        c := Get();
      }
      NoSpace(s);
    }

    /** `lex_scan` */
    method LexScan()
      requires Valid()
      modifies stream, stream.buffer, this`saved, this`token
      ensures Valid() && token == Scan(old(Text()), Bad()).0
      ensures token != InvalidToken ==> Text() == Scan(old(Text()), Bad()).1
      ensures token != InvalidToken && token != EofToken ==> |Text()| < |old(Text())|
    {
      hide Decodable, Valid, JustRead, Reading, SkipSpaces, ScanString, ScanNumber, Unget, Identifier, CountAlphas;
      ghost var text := Text();
      saved := [];
      var c;
      ghost var s;
      c, s := SkipSpace();
      ScanIs(text, s, Bad());
      if c == EOF {
        token := EofToken;
        return;
      }
      if c == ERROR {
        token := InvalidToken;
        return;
      }
      saved := saved + [Unsigned(c)];
      assert s[..1] == [s[0]] && [] + s[..1] == saved;
      assert s[0..] == s;
      MakeReading(s, 0, [], c);
      if c == 0x7B || c == 0x7D || c == 0x5B || c == 0x5D || c == 0x3A || c == 0x2C {
        token := Punct(Unsigned(c));
      } else if c == 0x22 {
        ScanStringRest();
      } else if 0x30 <= c <= 0x39 || c == 0x2D {
        ScanNumberRest(c, s);
      } else if 0x41 <= c <= 0x5A || 0x61 <= c <= 0x7A {
        ScanIdentifier(c, s);
      } else {
        token := InvalidToken;
      }
    }

    // ---- The parser ----

    /** `parse_value` */
    method ReadValue(pf: ParseFlags) returns (value: Option<Json>)
      requires Valid()
      modifies stream, stream.buffer, this`saved, this`token
      ensures Valid() && Agrees(value, ParseValue(old(token), old(Text()), Bad(), pf))
      decreases if token == InvalidToken then 0 else |Text()| + 1, 1
    {
      hide Decodable, Valid, Scan;
      match token
      case StringToken(bytes) =>
        if !pf.allowNul && 0 in bytes {
          return None;
        }
        return Some(Str(bytes));
      case IntegerToken(i) => return Some(Integer(i));
      case RealToken(text) => return Some(Real(text));
      case TrueToken => return Some(True);
      case FalseToken => return Some(False);
      case NullToken => return Some(Null);
      case Punct(c) =>
        if c == 0x7B {
          value := ReadObject(pf);
        } else if c == 0x5B {
          value := ReadArray(pf);
        } else {
          value := None;
        }
      case _ => return None;
    }

    /** What was read is what the specification says, and so is what remains. */
    ghost predicate Agrees(value: Option<Json>, spec: Parsed)
      requires Valid()
      reads stream, stream.buffer
    {
      match spec
      case None => value == None
      case Some((v, rest)) => value == Some(v) && Text() == rest
    }

    /** `parse_array` */
    method ReadArray(pf: ParseFlags) returns (value: Option<Json>)
      requires Valid()
      modifies stream, stream.buffer, this`saved, this`token
      ensures Valid() && Agrees(value, ParseArray(old(Text()), Bad(), pf))
      decreases |Text()| + 1, 0
    {
      hide Decodable, Valid, Scan, ParseValue, ParseElems;
      var elems := [];
      ghost var text := Text();
      ghost var spec := ParseArray(text, Bad(), pf);
      LexScan();
      if token == Punct(0x5D) {
        return Some(Arr([]));
      }
      NoElems(token, Bad(), pf, elems);
      while token != EofToken
        invariant Valid() && (token != InvalidToken && token != EofToken ==> |Text()| < |text|)
        invariant spec == if token == EofToken then None else ParseElems(token, Text(), Bad(), pf, elems)
        invariant token != Punct(0x5D) || token == EofToken || spec == None
        decreases if token == InvalidToken then 0 else |Text()| + 1
      {
        ghost var t, s := token, Text();
        var elem := ReadValue(pf);
        ElemsRound(t, s, Bad(), pf, elems);
        ValueOf(t, Bad(), pf);
        if elem.None? {
          return None;
        }
        elems := elems + [elem.value];
        LexScan();
        if token != Punct(0x2C) {
          break;
        }
        LexScan();
        NoElems(token, Bad(), pf, elems);
      }
      if token != Punct(0x5D) {
        return None;
      }
      return Some(Arr(elems));
    }

    /** `parse_object` */
    method ReadObject(pf: ParseFlags) returns (value: Option<Json>)
      requires Valid()
      modifies stream, stream.buffer, this`saved, this`token
      ensures Valid() && Agrees(value, ParseObject(old(Text()), Bad(), pf))
      decreases |Text()| + 1, 0
    {
      hide Decodable, Valid, Scan, ParseValue, ParseFields, SetField, FindField, MemberOf;
      var fields, serial := [], 0;
      ghost var text := Text();
      ghost var spec := ParseObject(text, Bad(), pf);
      LexScan();
      if token == Punct(0x7D) {
        return Some(Obj([]));
      }
      NoFields(token, Bad(), pf, fields, serial);
      while true
        invariant Valid() && (token != InvalidToken && token != EofToken ==> |Text()| < |text|)
        invariant spec == ParseFields(token, Text(), Bad(), pf, fields, serial)
        decreases if token == InvalidToken then 0 else |Text()| + 1
      {
        if !token.StringToken? {
          NoFields(token, Bad(), pf, fields, serial);
          return None;
        }
        var key := token.bytes;
        ghost var s := Text();
        FieldsRound(key, s, Bad(), pf, fields, serial);
        if 0 in key {
          return None;
        }
        if pf.rejectDuplicates && FindField(fields, key).Some? {
          return None;
        }
        var member := ReadMember(pf);
        if member.None? {
          return None;
        }
        fields := SetField(fields, key, serial, member.value);
        serial := serial + 1;
        LexScan();
        if token != Punct(0x2C) {
          break;
        }
        LexScan();
        NoFields(token, Bad(), pf, fields, serial);
      }
      if token != Punct(0x7D) {
        return None;
      }
      return Some(Obj(fields));
    }

    /** The part of `parse_object` behind a key: the colon and the value. */
    method ReadMember(pf: ParseFlags) returns (value: Option<Json>)
      requires Valid()
      modifies stream, stream.buffer, this`saved, this`token
      ensures Valid() && Agrees(value, MemberOf(old(Text()), Bad(), pf))
      decreases |Text()| + 1, 0
    {
      hide Decodable, Valid, Scan, ParseValue;
      LexScan();
      if token != Punct(0x3A) {
        return None;
      }
      LexScan();
      ValueOf(token, Bad(), pf);
      value := ReadValue(pf);
    }

    /** `parse_json` */
    method ReadJson(pf: ParseFlags) returns (value: Option<Json>)
      requires Valid()
      modifies stream, stream.buffer, this`saved, this`token
      ensures Valid() && value == ParseJson(old(Text()), Bad(), pf)
    {
      hide Decodable, Valid, Scan, ParseValue;
      LexScan();
      ValueOf(token, Bad(), pf);
      if !pf.decodeAny {
        if token != Punct(0x5B) && token != Punct(0x7B) {
          return None;
        }
      }
      value := ReadValue(pf);
      if value.None? {
        return None;
      }
      if !pf.disableEofCheck {
        LexScan();
        if token != EofToken {
          return None;
        }
      }
    }
  }

  lemma ReadMeans(s0: seq<Byte>, k: nat, base: seq<Byte>, c: int, text: seq<Byte>, saved: seq<Byte>, bad: bool)
    requires ReadUpTo(s0, k, base, c, text, saved, bad)
    ensures k <= |s0| && (k == |s0| ==> (c == if bad then ERROR else EOF) && text == [] && saved == base + s0)
    ensures k < |s0| ==>
        IsByte(c) && Unsigned(c) == s0[k] && c == Signed(s0[k]) && text == s0[k + 1..]
        && saved == base + s0[..k + 1]
    ensures k < |s0| ==> saved != [] && saved[|saved| - 1] == Unsigned(c)
  {
    assert s0[..|s0|] == s0;
  }

  lemma QuoteFound(s0: seq<Byte>, k: nat)
    requires k < |s0| && s0[k] == QUOTE && StringEnd(s0) == Shift(k, StringEnd(s0[k..]))
    ensures StringEnd(s0) == Some(k)
  {
  }

  lemma NoStringEnd(s0: seq<Byte>, k: nat)
    requires k == |s0| && StringEnd(s0) == Shift(k, StringEnd(s0[k..]))
    ensures StringEnd(s0) == None
  {
  }

  lemma StartPass(s0: seq<Byte>)
    ensures s0[0..] == s0 && StringEnd(s0) == Shift(0, StringEnd(s0[0..]))
  {
    hide StringEnd;
    assert s0[0..] == s0;
  }

  lemma ControlUnit(s: seq<Byte>)
    requires s != [] && s[0] <= 0x1F
    ensures Unit(s) == 0
  {
  }

  lemma PlainUnit(s: seq<Byte>)
    requires s != [] && s[0] > 0x1F && s[0] != BACKSLASH
    ensures Unit(s) == 1
  {
  }

  lemma ShortcutUnit(s: seq<Byte>)
    requires |s| >= 2 && s[0] == BACKSLASH && IsShortcut(s[1])
    ensures Unit(s) == 2
  {
  }

  lemma NoUnit(s: seq<Byte>)
    requires s != [] && s[0] == BACKSLASH && (|s| > 1 ==> s[1] != LETTER_U && !IsShortcut(s[1]))
    ensures Unit(s) == 0
  {
  }

  /** The first `i` digits of an escape. */
  ghost predicate HexUpTo(s: seq<Byte>, i: nat) {
    && |s| >= 2 + i && s[0] == BACKSLASH && s[1] == LETTER_U
    && forall j | 2 <= j < 2 + i :: IsHexDigit(s[j])
  }

  lemma HexUnit(s: seq<Byte>)
    requires HexUpTo(s, 4)
    ensures Unit(s) == 6
  {
  }

  lemma HexMissing(s: seq<Byte>, i: nat)
    requires HexUpTo(s, i) && i < 4
    requires |s| > 2 + i ==> !IsHexDigit(s[2 + i])
    ensures Unit(s) == 0
  {
  }

  // ---- The second pass ----

  /** `decode_unicode_escape`, with `p` at the letter. */
  function EscapeValue(saved: seq<Byte>, p: nat): int
    requires p + 4 < |saved|
  {
    ((HexValue(saved[p + 1]) * 16 + HexValue(saved[p + 2])) * 16 + HexValue(saved[p + 3])) * 16 + HexValue(saved[p + 4])
  }

  /** The text before `q` was decoded to `done`. */
  ghost predicate Passing(body: seq<Byte>, q: nat, done: seq<Byte>) {
    && q <= |body|
    && Decode(body) == Prepend(done, Decode(body[q..]))
    && StringEnd(body[q..] + [QUOTE]) == Some(|body| - q)
  }

  lemma PassStarts(body: seq<Byte>)
    requires StringEnd(body + [QUOTE]) == Some(|body|)
    ensures Passing(body, 0, [])
  {
    hide StringEnd, Decode;
    assert body[0..] == body;
    PrependTwice([], [], Decode(body));
  }

  lemma SavedByte(saved: seq<Byte>, body: seq<Byte>, q: nat)
    requires saved == [QUOTE] + body + [QUOTE] && q <= |body|
    ensures saved[q + 1] == if q < |body| then body[q] else QUOTE
  {
  }

  lemma PassMeans(saved: seq<Byte>, body: seq<Byte>, q: nat, done: seq<Byte>)
    requires saved == [QUOTE] + body + [QUOTE] && Passing(body, q, done) && saved[q + 1] != QUOTE
    ensures q < |body| && body[q] == saved[q + 1] && body[q] != QUOTE
    ensures StringEnd(body[q..] + [QUOTE]) == Some(|body| - q)
    ensures Unit(body[q..]) > 0
  {
    SavedByte(saved, body, q);
    CutUnit(body[q..]);
  }

  lemma PassEnds(saved: seq<Byte>, body: seq<Byte>, q: nat, done: seq<Byte>)
    requires saved == [QUOTE] + body + [QUOTE] && Passing(body, q, done) && saved[q + 1] == QUOTE
    ensures Decode(body) == Some(done)
  {
    SavedByte(saved, body, q);
    QuoteIsEnd(body[q..]);
    assert done + [] == done;
  }

  lemma QuoteIsEnd(s: seq<Byte>)
    requires StringEnd(s + [QUOTE]) == Some(|s|)
    ensures s != [] ==> s[0] != QUOTE
  {
  }

  /** One unit is decoded. */
  lemma PassOn(body: seq<Byte>, q: nat, done: seq<Byte>, bytes: seq<Byte>, n: nat)
    requires Passing(body, q, done) && q < |body| && body[q] != QUOTE && Unit(body[q..]) > 0
    requires Decoded1(body[q..]) == Some((bytes, n))
    ensures 0 < n <= |body| - q && |bytes| <= n && Passing(body, q + n, done + bytes)
  {
    var s := body[q..];
    DecodedUnit(s);
    CutPassed(s, n);
    DecodeStep(s, bytes, n);
    hide *;
    assert body[q + n..] == s[n..];
    PassStep(body, q, done, bytes, s, q + n, s[n..]);
  }

  lemma PassStep(body: seq<Byte>, q: nat, done: seq<Byte>, bytes: seq<Byte>, s: seq<Byte>, next: nat, rest: seq<Byte>)
    requires Passing(body, q, done) && s == body[q..] && q <= next <= |body| && rest == body[next..]
    requires Decode(s) == Prepend(bytes, Decode(rest)) && StringEnd(rest + [QUOTE]) == Some(|rest|)
    ensures Passing(body, next, done + bytes)
  {
    hide StringEnd, Decode, Prepend;
    PrependTwice(done, bytes, Decode(rest));
  }

  lemma DecodeStep(s: seq<Byte>, bytes: seq<Byte>, n: nat)
    requires s != [] && Unit(s) > 0 && Decoded1(s) == Some((bytes, n)) && n <= |s|
    ensures Decode(s) == Prepend(bytes, Decode(s[n..]))
  {
    hide Unit, Decoded1;
  }

  lemma PassFails(body: seq<Byte>, q: nat, done: seq<Byte>)
    requires Passing(body, q, done) && q < |body| && Unit(body[q..]) > 0 && Decoded1(body[q..]).None?
    ensures Decode(body) == None
  {
    hide Unit, Decoded1;
  }

  lemma CutPassed(s: seq<Byte>, n: nat)
    requires s != [] && s[0] != QUOTE && StringEnd(s + [QUOTE]) == Some(|s|)
    requires Unit(s) > 0 && Decoded1(s).Some? && Decoded1(s).value.1 == n
    ensures n <= |s| && StringEnd(s[n..] + [QUOTE]) == Some(|s| - n)
  {
    hide StringEnd, Unit, Decoded1;
    DecodedLength(s);
    CutUnit(s);
    if n != Unit(s) {
      assert s[6..][0] == BACKSLASH;
      CutUnit(s[6..]);
      assert s[6..][6..] == s[12..];
    }
  }

  lemma EscapeComplete(saved: seq<Byte>, body: seq<Byte>, q: nat)
    requires saved == [QUOTE] + body + [QUOTE] && q < |body| && body[q] == BACKSLASH && Unit(body[q..]) > 0
    ensures q + 1 < |body| && saved[q + 2] == body[q + 1]
  {
    assert body[q..][0] == body[q];
  }

  lemma EscapeValues(saved: seq<Byte>, body: seq<Byte>, q: nat)
    requires saved == [QUOTE] + body + [QUOTE] && q < |body| && body[q] == BACKSLASH
    requires StringEnd(body[q..] + [QUOTE]) == Some(|body| - q) && saved[q + 2] == LETTER_U
    ensures q + 6 <= |body| && body[q + 1] == LETTER_U && Unit(body[q..]) == 6
    ensures EscapeValue(saved, q + 2) == UnicodeValue(body[q..])
    ensures StringEnd(body[q + 6..] + [QUOTE]) == Some(|body| - q - 6)
  {
    var s := body[q..];
    CutUnit(s);
    EscapeComplete(saved, body, q);
    assert s[1] == LETTER_U;
    assert s[6..] == body[q + 6..];
    assert s[2] == saved[q + 3] && s[3] == saved[q + 4] && s[4] == saved[q + 5] && s[5] == saved[q + 6];
  }

  /** After the first half of a pair. */
  lemma SecondEscape(saved: seq<Byte>, body: seq<Byte>, q: nat)
    requires saved == [QUOTE] + body + [QUOTE] && q + 6 <= |body| && body[q] == BACKSLASH && body[q + 1] == LETTER_U
    requires Unit(body[q..]) == 6 && 0xD800 <= UnicodeValue(body[q..]) <= 0xDBFF
    requires StringEnd(body[q + 6..] + [QUOTE]) == Some(|body| - q - 6)
    ensures saved[q + 7] == BACKSLASH ==> q + 8 < |saved|
    ensures saved[q + 7] == BACKSLASH && saved[q + 8] == LETTER_U ==>
              && q + 12 <= |body|
              && var (v, w) := (UnicodeValue(body[q..]), EscapeValue(saved, q + 8));
              && (0xDC00 <= w <= 0xDFFF ==> Encode((v - 0xD800) * 0x400 + (w - 0xDC00) + 0x1_0000).Some?)
              && Decoded1(body[q..]) == if 0xDC00 <= w <= 0xDFFF
                  then Some((Encode((v - 0xD800) * 0x400 + (w - 0xDC00) + 0x1_0000).value, 12)) else None
    ensures !(saved[q + 7] == BACKSLASH && saved[q + 8] == LETTER_U) ==> Decoded1(body[q..]).None?
  {
    hide UnicodeValue, HexValue, StringEnd, EscapeValue;
    var s := body[q..];
    SavedByte(saved, body, q + 6);
    if saved[q + 7] == BACKSLASH {
      assert s[6..] == body[q + 6..] && s[6] == body[q + 6];
      CutUnit(s[6..]);
      assert s[6..][0] == BACKSLASH;
      assert |s| >= 8 && s[7] == body[q + 7] == saved[q + 8];
      if saved[q + 8] == LETTER_U {
        EscapeValues(saved, body, q + 6);
      }
    }
  }

  lemma PlainDecoded(body: seq<Byte>, q: nat)
    requires q < |body| && body[q] != BACKSLASH && Unit(body[q..]) > 0
    ensures Decoded1(body[q..]) == Some(([body[q]], 1))
  {
  }

  lemma ShortcutDecoded(body: seq<Byte>, q: nat)
    requires q + 1 < |body| && body[q] == BACKSLASH && body[q + 1] != LETTER_U && Unit(body[q..]) > 0
    ensures Decoded1(body[q..]) == Some(([ShortcutValue(body[q + 1])], 2))
  {
  }

  lemma SingleDecoded(body: seq<Byte>, q: nat)
    requires q + 6 <= |body| && body[q] == BACKSLASH && body[q + 1] == LETTER_U && Unit(body[q..]) > 0
    requires !(0xD800 <= UnicodeValue(body[q..]) <= 0xDBFF)
    ensures var v := UnicodeValue(body[q..]);
            Encode(v).Some? && Decoded1(body[q..]) == if 0xDC00 <= v <= 0xDFFF then None else Some((Encode(v).value, 6))
  {
  }

  lemma CutAtEnd(s0: seq<Byte>, n: nat)
    requires StringEnd(s0) == Some(n)
    ensures StringEnd(s0[..n] + [QUOTE]) == Some(n)
    decreases |s0|
  {
    var t := s0[..n] + [QUOTE];
    if s0[0] == QUOTE {
      assert t[0] == QUOTE;
    } else {
      var unit := Unit(s0);
      CutAtEnd(s0[unit..], n - unit);
      SameUnitBefore(s0, n, unit);
      hide StringEnd, Unit;
      assert t[0] == s0[0];
      assert t[unit..] == s0[unit..][..n - unit] + [QUOTE];
      UnitOf(t);
    }
  }

  lemma SameUnitBefore(s0: seq<Byte>, n: nat, unit: nat)
    requires s0 != [] && unit == Unit(s0) && 0 < unit <= n <= |s0|
    ensures Unit(s0[..n] + [QUOTE]) == unit
  {
  }

  lemma OneDigit(s: seq<Byte>, k: nat)
    requires k < |s| && IsDigit(s[k])
    ensures CountDigits(s[k..]) == 1 + CountDigits(s[k + 1..])
  {
    assert s[k..][1..] == s[k + 1..];
  }

  lemma NoDigit(s: seq<Byte>, k: nat)
    requires k <= |s| && (k < |s| ==> !IsDigit(s[k]))
    ensures CountDigits(s[k..]) == 0
  {
  }

  // ---- Numbers ----

  /** `strtoll` of the saved text. */
  function IntegerText(saved: seq<Byte>): Token
    requires saved != [] && (IsDigit(saved[0]) || saved[0] == 0x2D) && forall i | 1 <= i < |saved| :: IsDigit(saved[i])
  {
    if saved[0] == 0x2D then
      assert forall c | c in saved[1..] :: IsDigit(c);
      IntegerOf(true, saved[1..])
    else IntegerOf(false, saved)
  }

  lemma LeadingZero(s: seq<Byte>, sign: nat)
    requires sign < |s| && s[sign] == 0x30
    ensures WholeDigits(s[sign..]) == if |s| > sign + 1 && IsDigit(s[sign + 1]) then 0 else 1
  {
  }

  lemma MoreDigits(s: seq<Byte>, sign: nat)
    requires sign < |s| && IsDigit(s[sign]) && s[sign] != 0x30
    ensures WholeDigits(s[sign..]) == 1 + CountDigits(s[sign + 1..])
  {
    assert s[sign..][1..] == s[sign + 1..];
  }

  lemma NoDigits(s: seq<Byte>, sign: nat)
    requires sign <= |s| && (sign < |s| ==> !IsDigit(s[sign]))
    ensures WholeDigits(s[sign..]) == 0
  {
  }

  lemma NoWhole(s: seq<Byte>, sign: nat)
    requires s != [] && (IsDigit(s[0]) || s[0] == 0x2D) && sign == (if s[0] == 0x2D then 1 else 0)
    requires WholeDigits(s[sign..]) == 0
    ensures ScanNumber(s).0 == InvalidToken
  {
  }

  lemma IsWhole(s: seq<Byte>, sign: nat, n: nat)
    requires s != [] && (IsDigit(s[0]) || s[0] == 0x2D) && sign == (if s[0] == 0x2D then 1 else 0)
    requires WholeDigits(s[sign..]) > 0 && n == sign + WholeDigits(s[sign..])
    requires n < |s| ==> s[n] != 0x2E && s[n] != 0x45 && s[n] != 0x65
    ensures n <= |s| && s[..n] != [] && (IsDigit(s[..n][0]) || s[..n][0] == 0x2D)
        && forall i | 1 <= i < n :: IsDigit(s[..n][i])
    ensures ScanNumber(s).0 == IntegerText(s[..n])
    ensures ScanNumber(s).0 != InvalidToken ==> ScanNumber(s).1 == Unget(s[n..])
  {
    forall i | sign <= i < n
      ensures IsDigit(s[i])
    {
      assert s[i] == s[sign..][i - sign];
    }
    assert s[..n][sign..] == s[sign..][..n - sign];
  }

  lemma FirstOf(s0: seq<Byte>, k: nat, c: int, bad: bool)
    requires k <= |s0| && c == CharOf(s0[k..], bad)
    ensures k < |s0| ==> c == Signed(s0[k])
    ensures k == |s0| ==> c < 0
  {
  }

  lemma DigitSaved(s0: seq<Byte>, n: nat, text: seq<Byte>, before: seq<Byte>, c: int, text': seq<Byte>,
      saved: seq<Byte>, bad: bool)
    requires n < |s0| && text == s0[n + 1..] && before == [] + s0[..n + 1]
    requires c == CharOf(text, bad) && text' == Tail(text) && 0x30 <= c <= 0x39 && saved == before + [Unsigned(c)]
    ensures text != [] && ReadUpTo(s0, n + 1, [], c, text', saved, bad)
  {
    assert text == Tail(s0[n..]);
    ReadNext(s0, n, [], text, before, c, text', saved, bad);
  }

  lemma FractionOf(s0: seq<Byte>, n: nat)
    requires n < |s0| && s0[n] == 0x2E
    ensures Fraction(s0[n..]) == if CountDigits(s0[n + 1..]) == 0 then None else Some(1 + CountDigits(s0[n + 1..]))
  {
    assert s0[n..][1..] == s0[n + 1..];
  }

  lemma NoFraction(s0: seq<Byte>, n: nat)
    requires n <= |s0|
    ensures (n < |s0| && s0[n] == 0x2E) || Fraction(s0[n..]) == Some(0)
  {
  }

  lemma ExponentOf(s0: seq<Byte>, n: nat, sign: nat)
    requires n < |s0| && (s0[n] == 0x45 || s0[n] == 0x65)
    requires sign == if n + 1 < |s0| && (s0[n + 1] == 0x2B || s0[n + 1] == 0x2D) then 1 else 0
    ensures n + 1 + sign <= |s0|
    ensures var d := CountDigits(s0[n + 1 + sign..]);
            Exponent(s0[n..]) == if d == 0 then None else Some(1 + sign + d)
  {
    assert s0[n..][1 + sign..] == s0[n + 1 + sign..];
  }

  lemma NoExponent(s0: seq<Byte>, n: nat)
    requires n <= |s0|
    ensures (n < |s0| && (s0[n] == 0x45 || s0[n] == 0x65)) || Exponent(s0[n..]) == Some(0)
  {
  }

  lemma IsReal(s: seq<Byte>, sign: nat, n: nat)
    requires s != [] && (IsDigit(s[0]) || s[0] == 0x2D) && sign == (if s[0] == 0x2D then 1 else 0)
    requires WholeDigits(s[sign..]) > 0 && n == sign + WholeDigits(s[sign..])
    requires n < |s| && (s[n] == 0x2E || s[n] == 0x45 || s[n] == 0x65)
    ensures ScanNumber(s) == match Fraction(s[n..])
                             case None => (InvalidToken, [])
                             case Some(f) =>
                               match Exponent(s[n + f..])
                               case None => (InvalidToken, [])
                               case Some(e) => (RealToken(s[..n + f + e]), Unget(s[n + f + e..]))
  {
    hide WholeDigits, Fraction, Exponent, Unget;
  }

  // ---- The other tokens ----

  lemma OneAlpha(s: seq<Byte>, k: nat)
    requires k < |s| && IsAlpha(s[k])
    ensures CountAlphas(s[k..]) == 1 + CountAlphas(s[k + 1..])
  {
    assert s[k..][1..] == s[k + 1..];
  }

  lemma NoAlpha(s: seq<Byte>, k: nat)
    requires k <= |s| && (k < |s| ==> !IsAlpha(s[k]))
    ensures CountAlphas(s[k..]) == 0
  {
  }

  lemma OneSpace(s: seq<Byte>)
    requires s != [] && IsSpace(s[0])
    ensures SkipSpaces(s) == SkipSpaces(Tail(s))
  {
  }

  lemma NoSpace(s: seq<Byte>)
    requires s == [] || !IsSpace(s[0])
    ensures SkipSpaces(s) == s
  {
  }

  /** The token behind white space. */
  lemma ScanIs(text: seq<Byte>, s: seq<Byte>, bad: bool)
    requires s == SkipSpaces(text)
    ensures Scan(text, bad) ==
              if s == [] then (if bad then InvalidToken else EofToken, [])
              else if IsPunct(s[0]) then (Punct(s[0]), s[1..])
              else if s[0] == QUOTE then
                match ScanString(s[1..])
                case None => (InvalidToken, [])
                case Some((bytes, rest)) => (StringToken(bytes), rest)
              else if IsDigit(s[0]) || s[0] == 0x2D then ScanNumber(s)
              else if IsAlpha(s[0]) then
                var n := CountAlphas(s);
                var token := Identifier(s[..n]);
                (token, if token == InvalidToken then [] else Unget(s[n..]))
              else (InvalidToken, [])
  {
  }

  lemma NoElems(token: Token, bad: bool, pf: ParseFlags, done: seq<Json>)
    ensures token == InvalidToken || token == Punct(0x5D) ==> forall s :: ParseElems(token, s, bad, pf, done) == None
  {
    hide Scan;
  }

  /** What the loop of `parse_array` does after an element. */
  function AfterElem(parsed: Parsed, bad: bool, pf: ParseFlags, done: seq<Json>): Parsed {
    if parsed.None? then None
    else
      var all := done + [parsed.value.0];
      var (t1, s2) := Scan(parsed.value.1, bad);
      if t1 == Punct(0x5D) then Some((Arr(all), s2))
      else if t1 != Punct(0x2C) then None
      else
        var (t2, s3) := Scan(s2, bad);
        if t2 == EofToken then None else ParseElems(t2, s3, bad, pf, all)
  }

  lemma ElemsRound(token: Token, s: seq<Byte>, bad: bool, pf: ParseFlags, done: seq<Json>)
    ensures ParseElems(token, s, bad, pf, done) == AfterElem(ParseValue(token, s, bad, pf), bad, pf, done)
    ensures ParseValue(token, s, bad, pf).Some? ==> |ParseValue(token, s, bad, pf).value.1| <= |s|
  {
    hide Scan, ParseValue;
  }

  lemma NoFields(token: Token, bad: bool, pf: ParseFlags, done: seq<Field>, serial: nat)
    ensures !token.StringToken? ==> forall s :: ParseFields(token, s, bad, pf, done, serial) == None
  {
    hide Scan;
  }

  /** No value begins with an invalid token or the end. */
  lemma ValueOf(token: Token, bad: bool, pf: ParseFlags)
    ensures token == InvalidToken ==> forall s :: ParseValue(token, s, bad, pf) == None
  {
  }

  /** The colon and the value behind a key. */
  function MemberOf(s: seq<Byte>, bad: bool, pf: ParseFlags): (r: Parsed)
    ensures r.Some? ==> |r.value.1| <= |s|
  {
    if Scan(s, bad).0 != Punct(0x3A) then None
    else
      var (t2, s2) := Scan(Scan(s, bad).1, bad);
      ParseValue(t2, s2, bad, pf)
  }

  /** What the loop of `parse_object` does with a key. */
  function WithKey(key: seq<Byte>, s: seq<Byte>, bad: bool, pf: ParseFlags, done: seq<Field>, serial: nat): Parsed {
    if 0 in key || (pf.rejectDuplicates && FindField(done, key).Some?) then None
    else
      var parsed := MemberOf(s, bad, pf);
      if parsed.None? then None
      else
        var all := SetField(done, key, serial, parsed.value.0);
        var (t3, s4) := Scan(parsed.value.1, bad);
        if t3 == Punct(0x7D) then Some((Obj(all), s4))
        else if t3 != Punct(0x2C) then None
        else
          var (t4, s5) := Scan(s4, bad);
          ParseFields(t4, s5, bad, pf, all, serial + 1)
  }

  lemma FieldsRound(key: seq<Byte>, s: seq<Byte>, bad: bool, pf: ParseFlags, done: seq<Field>, serial: nat)
    ensures ParseFields(StringToken(key), s, bad, pf, done, serial) == WithKey(key, s, bad, pf, done, serial)
  {
    hide Scan, ParseValue, SetField, FindField;
  }

  /** `json_loadb` */
  method LoadBuffer(input: seq<Byte>, pf: ParseFlags) returns (value: Option<Json>)
    ensures value == JsonParser.LoadBuffer(input, pf)
  {
    var lexer := new Lexer(input);
    value := lexer.ReadJson(pf);
  }
}
