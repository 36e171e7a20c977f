/**
 What libjansson/jansson-2.7/src/load.c reads: tokens, and values made of them. The text is what the
 stream delivers; `bad` says that it ends at a byte that could not be decoded.
 */
module JsonParser {

  import opened JsonUtf8
  import opened JsonString
  import opened JsonValue

  datatype ParseFlags = ParseFlags(rejectDuplicates: bool, disableEofCheck: bool, decodeAny: bool, allowNul: bool)

  datatype Token = InvalidToken | EofToken | Punct(c: Byte) | StringToken(bytes: seq<Byte>) | IntegerToken(value: int)
                 | RealToken(text: seq<Byte>) | TrueToken | FalseToken | NullToken

  predicate IsSpace(c: Byte) {
    c == 0x20 || c == 0x09 || c == 0x0A || c == 0x0D
  }

  predicate IsDigit(c: Byte) {
    0x30 <= c <= 0x39
  }

  predicate IsAlpha(c: Byte) {
    0x41 <= c <= 0x5A || 0x61 <= c <= 0x7A
  }

  predicate IsPunct(c: Byte) {
    c == 0x7B || c == 0x7D || c == 0x5B || c == 0x5D || c == 0x3A || c == 0x2C
  }

  /** The text from the byte on that was read and pushed back. A NUL does not come back: the stream
      takes it for the end of its buffer. */
  function Unget(s: seq<Byte>): (r: seq<Byte>)
    ensures |r| <= |s|
  {
    if s != [] && s[0] == 0 then s[1..] else s
  }

  function SkipSpaces(s: seq<Byte>): (r: seq<Byte>)
    ensures |r| <= |s|
  {
    if s != [] && IsSpace(s[0]) then SkipSpaces(s[1..]) else s
  }

  function CountDigits(s: seq<Byte>): (n: nat)
    ensures n <= |s| && forall i | 0 <= i < n :: IsDigit(s[i])
  {
    if s != [] && IsDigit(s[0]) then 1 + CountDigits(s[1..]) else 0
  }

  function CountAlphas(s: seq<Byte>): (n: nat)
    ensures n <= |s|
  {
    if s != [] && IsAlpha(s[0]) then 1 + CountAlphas(s[1..]) else 0
  }

  function DigitValue(c: Byte): nat
    requires IsDigit(c)
  {
    c - 0x30
  }

  /** `strtoll` of digits. */
  function Number(s: seq<Byte>): nat
    requires forall c | c in s :: IsDigit(c)
  {
    if s == [] then 0
    else
      assert IsDigit(s[|s| - 1]);
      Number(s[..|s| - 1]) * 10 + DigitValue(s[|s| - 1])
  }

  /** The digits before a fraction or an exponent; 0 when there is none, or a 0 with more digits. */
  function WholeDigits(s: seq<Byte>): (n: nat)
    ensures n <= |s| && forall i | 0 <= i < n :: IsDigit(s[i])
  {
    if s == [] || !IsDigit(s[0]) then 0
    else if s[0] == 0x30 then if |s| > 1 && IsDigit(s[1]) then 0 else 1
    else CountDigits(s)
  }

  /** The fraction: its length with the point; None when no digit follows the point. */
  function Fraction(s: seq<Byte>): (r: Option<nat>)
    ensures r.Some? ==> r.value <= |s|
  {
    if s == [] || s[0] != 0x2E then Some(0)
    else if CountDigits(s[1..]) == 0 then None
    else Some(1 + CountDigits(s[1..]))
  }

  function Exponent(s: seq<Byte>): (r: Option<nat>)
    ensures r.Some? ==> r.value <= |s|
  {
    if s == [] || (s[0] != 0x45 && s[0] != 0x65) then Some(0)
    else
      var sign := if |s| > 1 && (s[1] == 0x2B || s[1] == 0x2D) then 1 else 0;
      if CountDigits(s[1 + sign..]) == 0 then None
      else Some(1 + sign + CountDigits(s[1 + sign..]))
  }

  /** The token for the digits of an integer; none when it does not fit 64 bits. */
  function IntegerOf(negative: bool, d: seq<Byte>): (r: Token)
    requires forall c | c in d :: IsDigit(c)
    ensures r == InvalidToken || r.IntegerToken?
  {
    var magnitude: int := Number(d);
    var value: int := if negative then 0 - magnitude else magnitude;
    if INT_MIN <= value <= INT_MAX then IntegerToken(value) else InvalidToken
  }

  /** `lex_scan_number` */
  function ScanNumber(s: seq<Byte>): (r: (Token, seq<Byte>))
    requires s != [] && (IsDigit(s[0]) || s[0] == 0x2D)
    ensures r.0 != InvalidToken ==> |r.1| < |s|
    ensures |r.1| <= |s| && r.0 != EofToken
  {
    var sign := if s[0] == 0x2D then 1 else 0;
    var whole := WholeDigits(s[sign..]);
    if whole == 0 then (InvalidToken, [])
    else
      var n := sign + whole;
      if |s| == n || (s[n] != 0x2E && s[n] != 0x45 && s[n] != 0x65) then
        assert forall c | c in s[sign..][..whole] :: IsDigit(c);
        var token := IntegerOf(sign == 1, s[sign..][..whole]);
        (token, if token == InvalidToken then [] else Unget(s[n..]))
      else
        match Fraction(s[n..])
        case None => (InvalidToken, [])
        case Some(f) =>
          match Exponent(s[n + f..])
          case None => (InvalidToken, [])
          case Some(e) => (RealToken(s[..n + f + e]), Unget(s[n + f + e..]))
  }

  function Identifier(s: seq<Byte>): (r: Token)
    ensures r != EofToken
  {
    if s == [0x74, 0x72, 0x75, 0x65] then TrueToken
    else if s == [0x66, 0x61, 0x6C, 0x73, 0x65] then FalseToken
    else if s == [0x6E, 0x75, 0x6C, 0x6C] then NullToken
    else InvalidToken
  }

  /** `lex_scan`: the next token and the text behind it; none is given behind an invalid token. */
  function Scan(text: seq<Byte>, bad: bool): (r: (Token, seq<Byte>))
    ensures |r.1| <= |text|
    ensures r.0 != InvalidToken && r.0 != EofToken ==> |r.1| < |text|
    ensures r.0 == EofToken ==> r.1 == []
  {
    var s := SkipSpaces(text);
    if s == [] then (if bad then InvalidToken else EofToken, [])
    else if IsPunct(s[0]) then (Punct(s[0]), s[1..])
    else if s[0] == QUOTE then
      match ScanString(s[1..])
      case None => (InvalidToken, [])
      case Some((bytes, rest)) => (StringToken(bytes), rest)
    else if IsDigit(s[0]) || s[0] == 0x2D then ScanNumber(s)
    else if IsAlpha(s[0]) then
      var n := CountAlphas(s);
      var token := Identifier(s[..n]);
      (token, if token == InvalidToken then [] else Unget(s[n..]))
    else (InvalidToken, [])
  }

  // ---- Values ----

  function FindField(fs: seq<Field>, key: seq<Byte>): (r: Option<nat>)
    ensures r.Some? ==> r.value < |fs| && fs[r.value].key == key
    ensures r.None? ==> forall f | f in fs :: f.key != key
  {
    if fs == [] then None
    else if fs[0].key == key then Some(0)
    else match FindField(fs[1..], key) case None => None case Some(i) => Some(i + 1)
  }

  /** `json_object_set`: a key that is there already keeps its place and its serial number. */
  function SetField(fs: seq<Field>, key: seq<Byte>, serial: nat, value: Json): seq<Field> {
    match FindField(fs, key)
    case None => fs + [Field(key, serial, value)]
    case Some(i) => fs[i := fs[i].(value := value)]
  }

  type Parsed = Option<(Json, seq<Byte>)>

  /** `parse_value`, `parse_array`, `parse_object`: from a token and the text behind it, the value and
      the text behind that. */
  function ParseValue(token: Token, s: seq<Byte>, bad: bool, pf: ParseFlags): (r: Parsed)
    ensures r.Some? ==> |r.value.1| <= |s|
    decreases |s|, 2
  {
    match token
    case StringToken(bytes) => if !pf.allowNul && 0 in bytes then None else Some((Str(bytes), s))
    case IntegerToken(i) => Some((Integer(i), s))
    case RealToken(text) => Some((Real(text), s))
    case TrueToken => Some((True, s))
    case FalseToken => Some((False, s))
    case NullToken => Some((Null, s))
    case Punct(c) =>
      if c == 0x7B then ParseObject(s, bad, pf) else if c == 0x5B then ParseArray(s, bad, pf) else None
    case _ => None
  }

  function ParseArray(s: seq<Byte>, bad: bool, pf: ParseFlags): (r: Parsed)
    ensures r.Some? ==> |r.value.1| <= |s|
    decreases |s|, 1
  {
    var (token, rest) := Scan(s, bad);
    if token == Punct(0x5D) then Some((Arr([]), rest))
    else if token == EofToken || token == InvalidToken then None
    else ParseElems(token, rest, bad, pf, [])
  }

  /** The loop of `parse_array`, with the elements so far. */
  function ParseElems(token: Token, s: seq<Byte>, bad: bool, pf: ParseFlags, done: seq<Json>): (r: Parsed)
    ensures r.Some? ==> |r.value.1| <= |s|
    decreases |s|, 3
  {
    match ParseValue(token, s, bad, pf)
    case None => None
    case Some((value, s1)) =>
      var (t1, s2) := Scan(s1, bad);
      if t1 == Punct(0x5D) then Some((Arr(done + [value]), s2))
      else if t1 != Punct(0x2C) then None
      else
        var (t2, s3) := Scan(s2, bad);
        if t2 == EofToken then None else ParseElems(t2, s3, bad, pf, done + [value])
  }

  function ParseObject(s: seq<Byte>, bad: bool, pf: ParseFlags): (r: Parsed)
    ensures r.Some? ==> |r.value.1| <= |s|
    decreases |s|, 1
  {
    var (token, rest) := Scan(s, bad);
    if token == Punct(0x7D) then Some((Obj([]), rest))
    else if token.StringToken? then ParseFields(token, rest, bad, pf, [], 0)
    else None
  }

  /** The loop of `parse_object`, with the fields so far and the next serial number. */
  function ParseFields(token: Token, s: seq<Byte>, bad: bool, pf: ParseFlags, done: seq<Field>,
      serial: nat): (r: Parsed)
    ensures r.Some? ==> |r.value.1| <= |s|
    decreases |s|, 3
  {
    if !token.StringToken? then None
    else
      var key := token.bytes;
      if 0 in key then None
      else if pf.rejectDuplicates && FindField(done, key).Some? then None
      else
        var (t1, s1) := Scan(s, bad);
        if t1 != Punct(0x3A) then None
        else
          var (t2, s2) := Scan(s1, bad);
          match ParseValue(t2, s2, bad, pf)
          case None => None
          case Some((value, s3)) =>
            var fields := SetField(done, key, serial, value);
            var (t3, s4) := Scan(s3, bad);
            if t3 == Punct(0x7D) then Some((Obj(fields), s4))
            else if t3 != Punct(0x2C) then None
            else
              var (t4, s5) := Scan(s4, bad);
              ParseFields(t4, s5, bad, pf, fields, serial + 1)
  }

  /** `parse_json` */
  function ParseJson(text: seq<Byte>, bad: bool, pf: ParseFlags): Option<Json> {
    var (token, rest) := Scan(text, bad);
    if !pf.decodeAny && token != Punct(0x5B) && token != Punct(0x7B) then None
    else
      match ParseValue(token, rest, bad, pf)
      case None => None
      case Some((value, s)) =>
        if !pf.disableEofCheck && Scan(s, bad).0 != EofToken then None else Some(value)
  }

  /** The part of the input that can be decoded. */
  function Decodable(input: seq<Byte>): (n: nat)
    ensures n <= |input|
    decreases |input|
  {
    match Iterate(input)
    case Char(_, count) => count + Decodable(input[count..])
    case _ => 0
  }

  /** `json_loadb` */
  function LoadBuffer(input: seq<Byte>, pf: ParseFlags): Option<Json> {
    var n := Decodable(input);
    ParseJson(input[..n], n < |input|, pf)
  }

  /** The bytes of a C string. */
  function CString(s: seq<Byte>): seq<Byte> {
    if s == [] || s[0] == 0 then [] else [s[0]] + CString(s[1..])
  }

  /** `json_loads` */
  function LoadString(s: seq<Byte>, pf: ParseFlags): Option<Json> {
    LoadBuffer(CString(s), pf)
  }
}
