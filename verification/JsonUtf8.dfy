/**
 UTF-8 as libjansson/jansson-2.7/src/utf.c reads and writes it (sections 3 and 4 of RFC 3629). The
 masks and shifts of the source are written as remainders and quotients.
 */
module JsonUtf8 {

  type Byte = b: nat | b < 256

  datatype Option<+T> = None | Some(value: T)

  /** The code points that UTF-8 encodes: all but the UTF-16 surrogate halves. */
  predicate Scalar(cp: int) {
    0 <= cp < 0xD800 || 0xE000 <= cp <= 0x10FFFF
  }

  /** `utf8_encode`, which does not refuse surrogate halves. */
  function Encode(cp: int): Option<seq<Byte>> {
    if cp < 0 then None
    else if cp < 0x80 then Some([cp])
    else if cp < 0x800 then Some([0xC0 + cp / 0x40, 0x80 + cp % 0x40])
    else if cp < 0x1_0000 then Some([0xE0 + cp / 0x1000, 0x80 + cp / 0x40 % 0x40, 0x80 + cp % 0x40])
    else if cp <= 0x10_FFFF then
      Some([0xF0 + cp / 0x4_0000, 0x80 + cp / 0x1000 % 0x40, 0x80 + cp / 0x40 % 0x40, 0x80 + cp % 0x40])
    else None
  }

  /** `utf8_check_first`: how long a sequence is that starts with this byte; 0 if none does. */
  function CheckFirst(u: Byte): nat {
    if u < 0x80 then 1
    else if 0x80 <= u <= 0xBF then 0
    else if u == 0xC0 || u == 0xC1 then 0
    else if 0xC2 <= u <= 0xDF then 2
    else if 0xE0 <= u <= 0xEF then 3
    else if 0xF0 <= u <= 0xF4 then 4
    else 0
  }

  /** The bits of the first byte that belong to the code point. */
  function LeadBits(u: Byte, size: nat): nat {
    if size == 2 then u % 0x20 else if size == 3 then u % 0x10 else u % 8
  }

  predicate Continuation(u: Byte) {
    0x80 <= u <= 0xBF
  }

  /** The code point that the lead bits and some continuation bytes spell. */
  function Spelled(value: nat, tail: seq<Byte>): nat {
    if tail == [] then value
    else
      var u: nat := tail[|tail| - 1];
      Spelled(value, tail[..|tail| - 1]) * 0x40 + u % 0x40
  }

  /** The code point of a multi-byte sequence: in range, no surrogate half, not overlong. */
  function Full(s: seq<Byte>): Option<int> {
    if 2 <= |s| <= 4 && forall i | 1 <= i < |s| :: Continuation(s[i]) then
      var value := Spelled(LeadBits(s[0], |s|), s[1..]);
      if value > 0x10_FFFF || 0xD800 <= value <= 0xDFFF then None
      else if (|s| == 2 && value < 0x80) || (|s| == 3 && value < 0x800) || (|s| == 4 && value < 0x1_0000) then None
      else Some(value)
    else None
  }

  lemma SpelledMore(value: nat, s: seq<Byte>, i: nat)
    requires 1 <= i < |s|
    ensures Spelled(value, s[1..i + 1]) == Spelled(value, s[1..i]) * 0x40 + s[i] % 0x40
  {
    assert s[1..i + 1][..i - 1] == s[1..i] && s[1..i + 1][i - 1] == s[i];
  }

  lemma NotFull(s: seq<Byte>, i: nat)
    requires 1 <= i < |s| && !Continuation(s[i])
    ensures Full(s) == None
  {
  }

  /** `utf8_check_full` */
  method CheckFull(buffer: seq<Byte>) returns (codepoint: Option<int>)
    requires buffer != []
    ensures codepoint == Full(buffer)
  {
    var size := |buffer|;
    var value: nat;
    if size == 2 {
      value := buffer[0] % 0x20;
    } else if size == 3 {
      value := buffer[0] % 0x10;
    } else if size == 4 {
      value := buffer[0] % 8;
    } else {
      return None;
    }
    assert buffer[1..1] == [];
    for i := 1 to size
      invariant forall j | 1 <= j < i :: Continuation(buffer[j])
      invariant value == Spelled(LeadBits(buffer[0], size), buffer[1..i])
    {
      hide Spelled, Full, LeadBits;
      var u: nat := buffer[i];
      if u < 0x80 || u > 0xBF {
        NotFull(buffer, i);
        return None;
      }
      SpelledMore(LeadBits(buffer[0], size), buffer, i);
      value := value * 0x40 + u % 0x40;
    }
    hide Spelled, LeadBits;
    assert buffer[1..size] == buffer[1..];
    if value > 0x10_FFFF {
      return None;
    } else if 0xD800 <= value <= 0xDFFF {
      return None;
    } else if (size == 2 && value < 0x80) || (size == 3 && value < 0x800) || (size == 4 && value < 0x1_0000) {
      return None;
    }
    return Some(value);
  }

  /** What comes first in a buffer: nothing, no code point, or a code point and its length. */
  datatype First = Nothing | Malformed | Char(codepoint: int, count: nat)

  /** `utf8_iterate` */
  function Iterate(s: seq<Byte>): (r: First)
    ensures r.Char? ==> 0 < r.count <= |s|
  {
    if s == [] then Nothing
    else
      var count := CheckFirst(s[0]);
      if count == 0 then Malformed
      else if count == 1 then Char(s[0], 1)
      else if count > |s| then Malformed
      else
        match Full(s[..count])
        case None => Malformed
        case Some(value) => Char(value, count)
  }

  /** Code point after code point to the end. */
  predicate Valid(s: seq<Byte>)
    decreases |s|
  {
    match Iterate(s)
    case Nothing => true
    case Malformed => false
    case Char(_, count) => Valid(s[count..])
  }

  /** `utf8_check_string` */
  method CheckString(s: seq<Byte>) returns (ok: bool)
    ensures ok <==> Valid(s)
  {
    var i := 0;
    while i < |s|
      invariant 0 <= i <= |s|
      invariant Valid(s) <==> Valid(s[i..])
    {
      var count := CheckFirst(s[i]);
      if count == 0 {
        return false;
      } else if count > 1 {
        if count > |s| - i {
          return false;
        }
        assert s[i..][..count] == s[i..i + count];
        var value := CheckFull(s[i..i + count]);
        if value.None? {
          return false;
        }
        assert s[i..][count..] == s[i + count..];
        i := i + (count - 1);
      } else {
        assert s[i..][1..] == s[i + 1..];
      }
      i := i + 1;
    }
    return true;
  }

  // ---- Encoding and decoding are inverse ----

  lemma Spell2(value: nat, a: Byte)
    ensures Spelled(value, [a]) == value * 0x40 + a % 0x40
  {
    assert [a][..0] == [];
  }

  lemma Spell3(value: nat, a: Byte, b: Byte)
    ensures Spelled(value, [a, b]) == (value * 0x40 + a % 0x40) * 0x40 + b % 0x40
  {
    assert [a, b][..1] == [a];
    Spell2(value, a);
  }

  lemma Spell4(value: nat, a: Byte, b: Byte, c: Byte)
    ensures Spelled(value, [a, b, c]) == ((value * 0x40 + a % 0x40) * 0x40 + b % 0x40) * 0x40 + c % 0x40
  {
    assert [a, b, c][..2] == [a, b];
    Spell3(value, a, b);
  }

  lemma Digits2(cp: nat, a: nat, b: nat)
    requires b < 0x40
    ensures cp == a * 0x40 + b <==> cp / 0x40 == a && cp % 0x40 == b
  {
  }

  lemma Digits3(cp: nat, a: nat, b: nat, c: nat)
    requires b < 0x40 && c < 0x40
    ensures cp == (a * 0x40 + b) * 0x40 + c <==> cp / 0x1000 == a && cp / 0x40 % 0x40 == b && cp % 0x40 == c
  {
    Digits2(cp, a * 0x40 + b, c);
    Digits2(cp / 0x40, a, b);
    assert cp / 0x40 / 0x40 == cp / 0x1000;
  }

  lemma Digits4(cp: nat, a: nat, b: nat, c: nat, d: nat)
    requires b < 0x40 && c < 0x40 && d < 0x40
    ensures cp == ((a * 0x40 + b) * 0x40 + c) * 0x40 + d
            <==> cp / 0x4_0000 == a && cp / 0x1000 % 0x40 == b && cp / 0x40 % 0x40 == c && cp % 0x40 == d
  {
    Digits2(cp, (a * 0x40 + b) * 0x40 + c, d);
    Digits3(cp / 0x40, a, b, c);
    assert cp / 0x40 / 0x1000 == cp / 0x4_0000 && cp / 0x40 / 0x40 == cp / 0x1000;
  }

  /** The first byte and the continuation bytes in terms of the code point, and back. */
  lemma FullIsEncode(s: seq<Byte>, cp: int)
    requires 2 <= |s| <= 4 && CheckFirst(s[0]) == |s|
    ensures Full(s) == Some(cp) <==> cp >= 0x80 && Scalar(cp) && Encode(cp) == Some(s)
  {
    if |s| == 2 {
      Full2(s, cp);
    } else if |s| == 3 {
      Full3(s, cp);
    } else {
      Full4(s, cp);
    }
  }

  lemma Bits(u: nat, base: nat)
    ensures base <= u < base + 0x40 && base % 0x40 == 0 ==> u % 0x40 == u - base
  {
  }

  function Less(u: int, base: int): int {
    u - base
  }

  lemma Value2(s: seq<Byte>)
    requires |s| == 2 && CheckFirst(s[0]) == 2 && Continuation(s[1])
    ensures Spelled(LeadBits(s[0], 2), s[1..]) == Less(s[0], 0xC0) * 0x40 + Less(s[1], 0x80)
  {
    assert s[1..] == [s[1]];
    Spell2(LeadBits(s[0], 2), s[1]);
    Bits(s[1], 0x80);
  }

  lemma Encode2(s: seq<Byte>, cp: nat)
    requires |s| == 2
    ensures Encode(cp) == Some(s) <==>
            0x80 <= cp < 0x800 && Less(s[0], 0xC0) == cp / 0x40 && Less(s[1], 0x80) == cp % 0x40
  {
    assert s == [s[0], s[1]];
  }

  lemma Full2(s: seq<Byte>, cp: int)
    requires |s| == 2 && CheckFirst(s[0]) == 2
    ensures Full(s) == Some(cp) <==> cp >= 0x80 && Scalar(cp) && Encode(cp) == Some(s)
  {
    if cp >= 0 {
      Encode2(s, cp);
      if Continuation(s[1]) {
        Value2(s);
        Digits2(cp, Less(s[0], 0xC0), Less(s[1], 0x80));
        hide Spelled, Encode, LeadBits;
        assert Full(s) == Some(cp) <==> Scalar(cp) && Encode(cp) == Some(s);
      }
    }
  }

  lemma Value3(s: seq<Byte>)
    requires |s| == 3 && CheckFirst(s[0]) == 3 && Continuation(s[1]) && Continuation(s[2])
    ensures Spelled(LeadBits(s[0], 3), s[1..]) == (Less(s[0], 0xE0) * 0x40 + Less(s[1], 0x80)) * 0x40 + Less(s[2], 0x80)
  {
    assert s[1..] == [s[1], s[2]];
    Spell3(LeadBits(s[0], 3), s[1], s[2]);
    assert LeadBits(s[0], 3) == Less(s[0], 0xE0);
    Bits(s[1], 0x80);
    Bits(s[2], 0x80);
  }

  lemma Encode3(s: seq<Byte>, cp: nat)
    requires |s| == 3
    ensures Encode(cp) == Some(s) <==>
            && 0x800 <= cp < 0x1_0000
            && Less(s[0], 0xE0) == cp / 0x1000 && Less(s[1], 0x80) == cp / 0x40 % 0x40 && Less(s[2], 0x80) == cp % 0x40
  {
    assert s == [s[0], s[1], s[2]];
  }

  lemma Full3(s: seq<Byte>, cp: int)
    requires |s| == 3 && CheckFirst(s[0]) == 3
    ensures Full(s) == Some(cp) <==> cp >= 0x80 && Scalar(cp) && Encode(cp) == Some(s)
  {
    if cp >= 0 {
      Encode3(s, cp);
      if Continuation(s[1]) && Continuation(s[2]) {
        Value3(s);
        Digits3(cp, Less(s[0], 0xE0), Less(s[1], 0x80), Less(s[2], 0x80));
        hide Spelled, Encode, LeadBits;
        assert Full(s) == Some(cp) <==> Scalar(cp) && Encode(cp) == Some(s);
      }
    }
  }

  lemma Value4(s: seq<Byte>)
    requires |s| == 4 && CheckFirst(s[0]) == 4 && Continuation(s[1]) && Continuation(s[2]) && Continuation(s[3])
    ensures Spelled(LeadBits(s[0], 4), s[1..])
         == ((Less(s[0], 0xF0) * 0x40 + Less(s[1], 0x80)) * 0x40 + Less(s[2], 0x80)) * 0x40 + Less(s[3], 0x80)
  {
    assert s[1..] == [s[1], s[2], s[3]];
    Spell4(LeadBits(s[0], 4), s[1], s[2], s[3]);
    assert LeadBits(s[0], 4) == Less(s[0], 0xF0);
    Bits(s[1], 0x80);
    Bits(s[2], 0x80);
    Bits(s[3], 0x80);
  }

  lemma Encode4(s: seq<Byte>, cp: nat)
    requires |s| == 4
    ensures Encode(cp) == Some(s) <==>
            && 0x1_0000 <= cp <= 0x10_FFFF
            && Less(s[0], 0xF0) == cp / 0x4_0000 && Less(s[1], 0x80) == cp / 0x1000 % 0x40
            && Less(s[2], 0x80) == cp / 0x40 % 0x40 && Less(s[3], 0x80) == cp % 0x40
  {
    assert s == [s[0], s[1], s[2], s[3]];
  }

  lemma Full4(s: seq<Byte>, cp: int)
    requires |s| == 4 && CheckFirst(s[0]) == 4
    ensures Full(s) == Some(cp) <==> cp >= 0x80 && Scalar(cp) && Encode(cp) == Some(s)
  {
    if cp >= 0 {
      Encode4(s, cp);
      if Continuation(s[1]) && Continuation(s[2]) && Continuation(s[3]) {
        Value4(s);
        Digits4(cp, Less(s[0], 0xF0), Less(s[1], 0x80), Less(s[2], 0x80), Less(s[3], 0x80));
        hide Spelled, Encode, LeadBits;
        assert Full(s) == Some(cp) <==> Scalar(cp) && Encode(cp) == Some(s);
      }
    }
  }

  /** What is recognized at the front of a buffer is a scalar value in the one encoding it has. */
  lemma IterateIffEncode(s: seq<Byte>, cp: int, count: nat)
    ensures Iterate(s) == Char(cp, count) <==> Scalar(cp) && 0 < count <= |s| && Encode(cp) == Some(s[..count])
  {
    if s != [] {
      if Scalar(cp) && 0 < count <= |s| && Encode(cp) == Some(s[..count]) {
        EncodeFirst(cp);
        assert s[..count][0] == s[0];
        if count > 1 {
          FullIsEncode(s[..count], cp);
        }
      }
      if Iterate(s) == Char(cp, count) {
        if count > 1 {
          FullIsEncode(s[..count], cp);
        } else {
          assert s[..1] == [s[0]];
        }
      }
    }
  }

  lemma EncodeFirst(cp: int)
    requires Scalar(cp)
    ensures Encode(cp).Some? && Encode(cp).value != [] && CheckFirst(Encode(cp).value[0]) == |Encode(cp).value|
    ensures |Encode(cp).value| == 1 <==> cp < 0x80
  {
  }

  /** What `utf8_encode` wrote is read back, whatever follows it. */
  lemma DecodeEncode(cp: int, rest: seq<Byte>)
    requires Scalar(cp)
    ensures Encode(cp).Some? && Iterate(Encode(cp).value + rest) == Char(cp, |Encode(cp).value|)
  {
    EncodeFirst(cp);
    var e := Encode(cp).value;
    assert (e + rest)[..|e|] == e;
    IterateIffEncode(e + rest, cp, |e|);
  }

  // ---- Strings ----

  function EncodeAll(cps: seq<int>): seq<Byte>
    requires forall cp | cp in cps :: Scalar(cp)
  {
    if cps == [] then []
    else
      EncodeFirst(cps[0]);
      Encode(cps[0]).value + EncodeAll(cps[1..])
  }

  /** The code points that `utf8_iterate` delivers one after the other. */
  function Decoded(s: seq<Byte>): seq<int>
    requires Valid(s)
    decreases |s|
  {
    match Iterate(s)
    case Nothing => []
    case Malformed => []
    case Char(cp, count) => [cp] + Decoded(s[count..])
  }

  lemma EncodeAllCons(cp: int, cps: seq<int>)
    requires Scalar(cp) && forall c | c in cps :: Scalar(c)
    ensures forall c | c in [cp] + cps :: Scalar(c)
    ensures Encode(cp).Some? && EncodeAll([cp] + cps) == Encode(cp).value + EncodeAll(cps)
  {
    EncodeFirst(cp);
    assert ([cp] + cps)[1..] == cps;
  }

  lemma DecodedFirst(s: seq<Byte>) returns (cp: int, count: nat)
    requires Valid(s) && s != []
    ensures Iterate(s) == Char(cp, count) && Scalar(cp) && 0 < count <= |s| && Encode(cp) == Some(s[..count])
    ensures Valid(s[count..]) && Decoded(s) == [cp] + Decoded(s[count..])
  {
    cp, count := Iterate(s).codepoint, Iterate(s).count;
    IterateIffEncode(s, cp, count);
  }

  lemma {:induction false} DecodedEncodes(s: seq<Byte>)
    requires Valid(s)
    ensures forall cp | cp in Decoded(s) :: Scalar(cp)
    ensures EncodeAll(Decoded(s)) == s
    decreases |s|
  {
    if s == [] {
      assert Decoded(s) == [];
    } else {
      var cp, count := DecodedFirst(s);
      hide *;
      DecodedEncodes(s[count..]);
      EncodeAllCons(cp, Decoded(s[count..]));
      assert s == s[..count] + s[count..];
    }
  }

  lemma {:induction false} EncodedDecodes(cps: seq<int>)
    requires forall cp | cp in cps :: Scalar(cp)
    ensures Valid(EncodeAll(cps)) && Decoded(EncodeAll(cps)) == cps
  {
    if cps != [] {
      var rest := EncodeAll(cps[1..]);
      DecodeEncode(cps[0], rest);
      EncodedDecodes(cps[1..]);
      var e := Encode(cps[0]).value;
      assert (e + rest)[|e|..] == rest;
    }
  }

  /** `utf8_check_string` accepts exactly the concatenations of encodings of scalar values. */
  lemma ValidIffEncoded(s: seq<Byte>)
    ensures Valid(s) <==> exists cps: seq<int> :: (forall cp | cp in cps :: Scalar(cp)) && EncodeAll(cps) == s
  {
    if Valid(s) {
      DecodedEncodes(s);
    }
    if cps: seq<int> :| (forall cp | cp in cps :: Scalar(cp)) && EncodeAll(cps) == s {
      EncodedDecodes(cps);
    }
  }

  lemma {:induction false} ValidConcat(a: seq<Byte>, b: seq<Byte>)
    requires Valid(a)
    ensures Valid(a + b) <==> Valid(b)
    decreases |a|
  {
    if a == [] {
      assert a + b == b;
    } else {
      var cp, count := Iterate(a).codepoint, Iterate(a).count;
      IterateIffEncode(a, cp, count);
      assert (a + b)[..count] == a[..count] && (a + b)[count..] == a[count..] + b;
      IterateIffEncode(a + b, cp, count);
      ValidConcat(a[count..], b);
    }
  }

  lemma {:induction false} IterateBytes(s: seq<Byte>, i: nat)
    requires Iterate(s).Char? && i < Iterate(s).count
    ensures s[i] != 0xFE && s[i] != 0xFF
    ensures Iterate(s).count > 1 ==> s[i] >= 0x80
  {
    var cp, count := Iterate(s).codepoint, Iterate(s).count;
    IterateIffEncode(s, cp, count);
    assert s[..count][i] == s[i];
  }

  /** No byte of valid UTF-8 is 0xFE or 0xFF: none is read as -2 or -1 when a char is signed. */
  lemma {:induction false} ValidBytes(s: seq<Byte>, i: nat)
    requires Valid(s) && i < |s|
    ensures s[i] != 0xFE && s[i] != 0xFF
    decreases |s|
  {
    var count := Iterate(s).count;
    if i < count {
      IterateBytes(s, i);
    } else {
      ValidBytes(s[count..], i - count);
    }
  }
}
