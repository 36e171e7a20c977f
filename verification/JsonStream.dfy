/**
 The byte stream under the lexer of libjansson/jansson-2.7/src/load.c: one decoded character is
 buffered, bytes are delivered as signed chars, and one of them can be pushed back.
 */
module JsonStream {

  import opened JsonUtf8
  import opened JsonParser

  datatype State = StateOk | StateEof | StateError

  const EOF := -1
  const ERROR := -2

  /** A char is signed. */
  function Signed(b: Byte): int {
    if b < 0x80 then b else b - 0x100
  }

  predicate IsByte(c: int) {
    c != EOF && c != ERROR && -0x80 <= c < 0x80
  }

  function Unsigned(c: int): Byte
    requires -0x80 <= c < 0x80
  {
    if c >= 0 then c else c + 0x100
  }

  // ---- Where the reader is ----

  datatype Place = Place(line: int, column: int, lastColumn: int, position: int)

  /** After reading a byte: columns count characters, not bytes. */
  function Advance(p: Place, b: Byte): Place {
    if b == 0x0A then Place(p.line + 1, 0, p.column, p.position + 1)
    else if CheckFirst(b) > 0 then Place(p.line, p.column + 1, p.lastColumn, p.position + 1)
    else p.(position := p.position + 1)
  }

  /** After pushing a byte back. */
  function Retreat(p: Place, b: Byte): Place {
    if b == 0x0A then Place(p.line - 1, p.lastColumn, p.lastColumn, p.position - 1)
    else if CheckFirst(b) > 0 then Place(p.line, p.column - 1, p.lastColumn, p.position - 1)
    else p.(position := p.position - 1)
  }

  /** Pushing back the byte that was read last restores the place. */
  lemma RetreatUndoes(p: Place, b: Byte)
    ensures var q := Retreat(Advance(p, b), b);
            q.line == p.line && q.column == p.column && q.position == p.position
  {
  }

  /** Where the reader is after a text. */
  function Walk(p: Place, s: seq<Byte>): Place {
    if s == [] then p else Advance(Walk(p, s[..|s| - 1]), s[|s| - 1])
  }

  lemma {:induction false} WalkOn(p: Place, s: seq<Byte>, t: seq<Byte>)
    ensures Walk(p, s + t) == Walk(Walk(p, s), t)
    decreases |t|
  {
    if t == [] {
      assert s + t == s;
    } else {
      var b := t[|t| - 1];
      assert (s + t)[..|s + t| - 1] == s + t[..|t| - 1] && (s + t)[|s + t| - 1] == b;
      WalkOn(p, s, t[..|t| - 1]);
    }
  }

  lemma WalkStep(p: Place, s: seq<Byte>, b: Byte)
    ensures Walk(p, s + [b]) == Advance(Walk(p, s), b)
  {
    assert (s + [b])[..|s|] == s;
  }

  lemma {:induction false} LinesRead(p: Place, s: seq<Byte>)
    ensures Walk(p, s).line == p.line + multiset(s)[0x0A] && Walk(p, s).position == p.position + |s|
    ensures s != [] && s[|s| - 1] == 0x0A ==> Walk(p, s).column == 0
  {
    if s != [] {
      var front, b := s[..|s| - 1], s[|s| - 1];
      LinesRead(p, front);
      assert s == front + [b];
      WalkStep(p, front, b);
      hide Walk, CheckFirst;
      assert multiset(s) == multiset(front) + multiset{b};
    }
  }

  lemma {:induction false} TailRead(p: Place, tail: seq<Byte>)
    requires forall b | b in tail :: Continuation(b)
    ensures Walk(p, tail).column == p.column
  {
    if tail != [] {
      var front, b := tail[..|tail| - 1], tail[|tail| - 1];
      assert b in tail && forall c | c in front :: c in tail;
      TailRead(p, front);
      assert tail == front + [b];
      WalkStep(p, front, b);
    }
  }

  /** A character is one column, however long its encoding. */
  lemma CharRead(p: Place, cp: int)
    requires Scalar(cp) && cp != 0x0A
    ensures Encode(cp).Some? && Walk(p, Encode(cp).value).column == p.column + 1
  {
    EncodeFirst(cp);
    var e := Encode(cp).value;
    var first, tail := e[0], e[1..];
    assert CheckFirst(first) > 0 && first != 0x0A && forall b | b in tail :: Continuation(b);
    assert e == [first] + tail && [] + [first] == [first];
    hide Encode, Continuation;
    WalkStep(p, [], first);
    WalkOn(p, [first], tail);
    TailRead(Advance(p, first), tail);
  }

  lemma {:induction false} ColumnsRead(p: Place, cps: seq<int>)
    requires forall cp | cp in cps :: Scalar(cp) && cp != 0x0A
    ensures Walk(p, EncodeAll(cps)).column == p.column + |cps|
    decreases |cps|
  {
    if cps != [] {
      var first, rest := cps[0], cps[1..];
      assert first in cps && forall cp | cp in rest :: cp in cps;
      CharRead(p, first);
      EncodeAllCons(first, rest);
      assert cps == [first] + rest;
      hide Encode, Walk, EncodeAll;
      WalkOn(p, Encode(first).value, EncodeAll(rest));
      ColumnsRead(Walk(p, Encode(first).value), rest);
    }
  }

  /** After some lines and some characters of the next one: the line number, the column in characters, the
      position in bytes. */
  lemma PlaceAfter(lines: seq<Byte>, cps: seq<int>)
    requires lines == [] || lines[|lines| - 1] == 0x0A
    requires forall cp | cp in cps :: Scalar(cp) && cp != 0x0A
    ensures var text := lines + EncodeAll(cps);
            var p := Walk(Place(1, 0, 0, 0), text);
            p.line == 1 + multiset(text)[0x0A] && p.column == |cps| && p.position == |text|
  {
    var start := Place(1, 0, 0, 0);
    LinesRead(start, lines);
    LinesRead(start, lines + EncodeAll(cps));
    ColumnsRead(Walk(start, lines), cps);
    WalkOn(start, lines, EncodeAll(cps));
  }

  // ---- Facts about the decodable part ----

  lemma {:induction false} DecodableIsValid(s: seq<Byte>)
    ensures Valid(s[..Decodable(s)])
    ensures Decodable(s) == 0 <==> !Iterate(s).Char?
    decreases |s|
  {
    if Iterate(s).Char? {
      var count := Iterate(s).count;
      DecodableIsValid(s[count..]);
      CharThenValid(s, count, Decodable(s[count..]));
    }
  }

  lemma CharThenValid(s: seq<Byte>, count: nat, n: nat)
    requires Iterate(s).Char? && Iterate(s).count == count && n <= |s[count..]| && Valid(s[count..][..n])
    ensures Valid(s[..count + n])
  {
    var t := s[..count + n];
    assert t[..count] == s[..count] && t[count..] == s[count..][..n];
    IterateIffEncode(s, Iterate(s).codepoint, count);
    IterateIffEncode(t, Iterate(s).codepoint, count);
    hide Iterate, Encode, Scalar;
    ValidTail(t, count);
  }

  lemma ValidTail(t: seq<Byte>, count: nat)
    requires Iterate(t).Char? && Iterate(t).count == count && Valid(t[count..])
    ensures Valid(t)
  {
    hide Iterate;
  }

  /** The first byte of a sequence says how long it is, and the others continue it. */
  lemma CharBytes(s: seq<Byte>)
    requires Iterate(s).Char?
    ensures CheckFirst(s[0]) == Iterate(s).count
    ensures Iterate(s).count > 1 ==> s[0] >= 0x80 && Full(s[..Iterate(s).count]).Some?
    ensures Iterate(s).count > 1 ==> forall i | 0 <= i < Iterate(s).count :: s[i] != 0
    ensures forall i | 0 <= i < Iterate(s).count :: s[i] != 0xFE && s[i] != 0xFF
    ensures Decodable(s) == Iterate(s).count + Decodable(s[Iterate(s).count..])
  {
    forall i | 0 <= i < Iterate(s).count
      ensures s[i] != 0xFE && s[i] != 0xFF && (Iterate(s).count > 1 ==> s[i] != 0)
    {
      IterateBytes(s, i);
    }
  }

  lemma EmptyRest(s: seq<Byte>)
    ensures s == [] ==> Decodable(s) == 0
  {
  }

  lemma FirstMalformed(s: seq<Byte>)
    requires s != [] && CheckFirst(s[0]) == 0
    ensures Decodable(s) == 0
  {
  }

  lemma FirstAscii(s: seq<Byte>)
    requires s != [] && s[0] < 0x80
    ensures Iterate(s) == Char(s[0], 1) && Decodable(s) > 0
  {
  }

  /** A buffer that was filled up with 0xFF at the end of the input holds a character exactly if the
      input does. */
  lemma FillFull(s: seq<Byte>, buf: seq<Byte>)
    requires s != [] && s[0] >= 0x80 && |buf| == CheckFirst(s[0]) >= 2
    requires forall j | 0 <= j < |buf| :: buf[j] == if j < |s| then s[j] else 0xFF
    ensures Full(buf).Some? <==> Iterate(s).Char?
    ensures Full(buf).Some? ==> |buf| <= |s| && buf == s[..|buf|] && Iterate(s).count == |buf|
    ensures Decodable(s) == 0 <==> Full(buf).None?
  {
    DecodableIsValid(s);
    hide Decodable;
    if |buf| <= |s| {
      assert buf == s[..|buf|];
    } else {
      NotFull(buf, |s|);
    }
  }

  // ---- The buffer as a value ----

  /** `count` is the length of the character in the buffer, `next` the number of bytes fetched. */
  datatype Buffered = Buffered(input: seq<Byte>, next: nat, buf: seq<Byte>, pos: nat, count: nat)

  ghost predicate Sound(v: Buffered) {
    && |v.buf| == 5 && v.pos <= v.count <= 4 && v.count <= v.next <= |v.input|
    && (forall i | 0 <= i < v.count :: v.buf[i] == v.input[v.next - v.count + i])
    && v.buf[v.count] == 0
    && (forall i | 0 <= i < v.count :: v.buf[i] == 0 ==> v.count == 1)
    && (forall i | 0 <= i < v.count :: v.buf[i] != 0xFE && v.buf[i] != 0xFF)
    && Decodable(v.input) == v.next + Decodable(v.input[v.next..])
  }

  /** The index in the input of the byte that is delivered next: a NUL at the position ends the buffer. */
  ghost function Upcoming(v: Buffered): nat
    requires Sound(v)
  {
    if v.buf[v.pos] == 0 then v.next else v.next - (v.count - v.pos)
  }

  ghost function Rest(v: Buffered): seq<Byte>
    requires Sound(v)
  {
    v.input[Upcoming(v)..Decodable(v.input)]
  }

  lemma NothingRead(v: Buffered)
    requires |v.buf| == 5 && v.next == v.pos == v.count == 0 && v.buf[0] == 0
    ensures Sound(v) && Rest(v) == v.input[..Decodable(v.input)]
  {
    assert v.input[0..] == v.input;
  }

  /** The byte at a position in the buffer is the one that comes from there in the input. */
  lemma StepForward(v: Buffered)
    requires Sound(v) && v.pos < v.count
    ensures var w := v.(pos := v.pos + 1);
            var i := v.next - (v.count - v.pos);
            && Sound(w) && Upcoming(w) == i + 1 && i < Decodable(v.input) <= |v.input|
            && v.buf[v.pos] == v.input[i] && v.buf[v.pos] != 0xFE && v.buf[v.pos] != 0xFF
  {
    hide Decodable;
  }

  lemma StepBack(v: Buffered)
    requires Sound(v) && v.pos > 0
    ensures var w := v.(pos := v.pos - 1);
            var b := v.buf[v.pos - 1];
            && Sound(w) && Upcoming(v) > 0 && b == v.input[Upcoming(v) - 1]
            && Upcoming(w) == if b == 0 then Upcoming(v) else Upcoming(v) - 1
  {
    hide Decodable;
  }

  lemma SliceTail(s: seq<Byte>, i: nat, n: nat)
    requires i < n <= |s|
    ensures s[i..n] != [] && s[i..n][0] == s[i] && s[i..n][1..] == s[i + 1..n] && s[i..n] == [s[i]] + s[i + 1..n]
  {
  }

  /** The buffer is empty: the next character begins at `next`. */
  lemma NextIsRest(v: Buffered)
    requires Sound(v) && v.buf[v.pos] == 0
    ensures Rest(v) == v.input[v.next..Decodable(v.input)]
    ensures Rest(v) == [] <==> Decodable(v.input[v.next..]) == 0
  {
    hide Decodable;
  }

  /** A character was read into the buffer; `rest` is what begins with it. */
  lemma Filled(v: Buffered, w: Buffered, rest: seq<Byte>)
    requires Sound(v) && w.input == v.input && rest == v.input[v.next..]
    requires Iterate(rest).Char? && w.count == Iterate(rest).count
    requires |w.buf| == 5 && w.pos == 0 && w.next == v.next + w.count
    requires w.count < 5 && w.buf[..w.count] == rest[..w.count] && w.buf[w.count] == 0
    ensures Sound(w) && w.count > 0 && v.next == w.next - w.count
  {
    assert v.next <= |v.input| && Decodable(v.input) == v.next + Decodable(v.input[v.next..]);
    hide Sound, Decodable, Iterate, CharIn;
    FilledLength(v.input, v.next, w.count, w.next);
    FilledBytes(rest, w.buf, w.count);
    FilledIsSound(w, v.next, rest);
  }

  lemma FilledIsSound(w: Buffered, next: nat, rest: seq<Byte>)
    requires |w.buf| == 5 && w.pos == 0 && 0 < w.count <= 4 && w.count <= w.next <= |w.input|
    requires next + w.count == w.next && rest == w.input[next..] && w.buf[w.count] == 0
    requires CharIn(rest, w.buf, w.count)
    requires Decodable(w.input) == w.next + Decodable(w.input[w.next..])
    ensures Sound(w)
  {
    hide Decodable;
  }

  /** The buffer holds the `count` bytes of the character with which the text begins. */
  ghost predicate CharIn(s: seq<Byte>, buf: seq<Byte>, count: nat) {
    && count <= |s| && count <= |buf|
    && (forall i | 0 <= i < count :: buf[i] == s[i] && buf[i] != 0xFE && buf[i] != 0xFF)
    && (forall i | 0 <= i < count :: buf[i] == 0 ==> count == 1)
  }

  /** The bytes of a character in the buffer. */
  lemma FilledBytes(s: seq<Byte>, buf: seq<Byte>, count: nat)
    requires Iterate(s).Char? && Iterate(s).count == count < |buf| && buf[..count] == s[..count]
    ensures 0 < count <= 4 && CharIn(s, buf, count)
  {
    CharBytes(s);
    CharShort(s);
    SameBytes(buf, s, count);
    hide Decodable, Iterate, Full, CheckFirst;
  }

  /** The decodable part after one more character. */
  lemma FilledLength(input: seq<Byte>, next: nat, count: nat, after: nat)
    requires next <= |input| && Iterate(input[next..]).Char? && Iterate(input[next..]).count == count
    requires after == next + count
    ensures after <= |input| && Decodable(input[next..]) == count + Decodable(input[after..])
  {
    hide Full, CheckFirst;
    assert input[next..][count..] == input[after..];
  }

  lemma SameBytes(a: seq<Byte>, b: seq<Byte>, n: nat)
    requires n <= |a| && n <= |b| && a[..n] == b[..n]
    ensures forall i | 0 <= i < n :: a[i] == b[i]
  {
    forall i | 0 <= i < n
      ensures a[i] == b[i]
    {
      assert a[..n][i] == b[..n][i];
    }
  }

  lemma CharShort(s: seq<Byte>)
    requires Iterate(s).Char?
    ensures Iterate(s).count <= 4
  {
  }

  class Stream {
    /** The bytes that the get function returns one by one. */
    const input: seq<Byte>
    var next: nat
    const buffer: array<Byte>
    var bufferPos: nat
    var state: State
    var line: int
    var column: int
    var lastColumn: int
    var position: int
    ghost var count: nat

    /** `stream_init` */
    constructor (bytes: seq<Byte>)
      ensures Valid() && fresh(buffer) && input == bytes
      ensures Remaining() == bytes[..Decodable(bytes)]
      ensures At() == Place(1, 0, 0, 0)
    {
      input, next, bufferPos, state := bytes, 0, 0, StateOk;
      line, column, lastColumn, position := 1, 0, 0, 0;
      buffer := new Byte[5];
      count := 0;
      new;
      hide Sound, Rest, Decodable;
      buffer[0] := 0;
      NothingRead(Buffer());
    }

    ghost function At(): Place
      reads this
    {
      Place(line, column, lastColumn, position)
    }

    ghost function Buffer(): Buffered
      reads this, buffer
    {
      Buffered(input, next, buffer[..], bufferPos, count)
    }

    ghost predicate Valid()
      reads this, buffer
    {
      && buffer.Length == 5
      && match state
         case StateOk => Sound(Buffer())
         case StateEof => !Bad()
         case StateError => Bad()
    }

    /** The text ends at a byte that cannot be decoded. */
    ghost predicate Bad() {
      Decodable(input) < |input|
    }

    /** What is still delivered before the end or the error. */
    ghost function Remaining(): seq<Byte>
      requires Valid()
      reads this, buffer
    {
      if state == StateOk then Rest(Buffer()) else []
    }

    /** The part of `stream_get` that reads the next character into the buffer; EOF, ERROR, or 0 when
        there is one. */
    method Fill() returns (c: int)
      requires Valid() && state == StateOk && buffer[bufferPos] == 0
      modifies this`next, this`bufferPos, this`state, this`count, buffer
      ensures Valid()
      ensures old(Remaining()) == [] ==> c == (if Bad() then ERROR else EOF) && Remaining() == []
      ensures old(Remaining()) != []
          ==> c == 0 && state == StateOk && bufferPos == 0 < count && next - count == old(next)
    {
      hide Sound, Rest, Upcoming, JsonUtf8.Valid, Full, Iterate, Decodable;
      ghost var v := Buffer();
      SoundBounds(v);
      ghost var rest := input[next..];
      NextIsRest(v);
      if next == |input| {
        EmptyRest(rest);
        state := StateEof;
        return EOF;
      }
      var u := input[next];
      assert rest[0] == u;
      next := next + 1;
      buffer[0] := u;
      bufferPos := 0;
      if u >= 0x80 {
        var n := CheckFirst(u);
        if n == 0 {
          FirstMalformed(rest);
          state := StateError;
          return ERROR;
        }
        for i := 1 to n
          invariant buffer[0] == u && v.next < next <= |input| && bufferPos == 0 && state == StateOk
          invariant next == if v.next + i <= |input| then v.next + i else |input|
          invariant forall j | 0 <= j < i :: buffer[j] == if j < |rest| then rest[j] else 0xFF
        {
          if next == |input| {
            buffer[i] := 0xFF;
          } else {
            buffer[i] := input[next];
            next := next + 1;
          }
        }
        FillFull(rest, buffer[..n]);
        var full := CheckFull(buffer[..n]);
        if full.None? {
          state := StateError;
          return ERROR;
        }
        buffer[n] := 0;
        count := n;
        assert buffer[..][..n] == buffer[..n] == rest[..n];
      } else {
        buffer[1] := 0;
        count := 1;
        FirstAscii(rest);
        assert buffer[..][..1] == [u] == rest[..1];
      }
      Filled(v, Buffer(), rest);
      return 0;
    }

    /** The part of `stream_get` that keeps track of the place. */
    method Track(b: Byte)
      modifies this`line, this`column, this`lastColumn, this`position
      ensures At() == Advance(old(At()), b)
    {
      position := position + 1;
      if b == 0x0A {
        line := line + 1;
        lastColumn := column;
        column := 0;
      } else if CheckFirst(b) > 0 {
        column := column + 1;
      }
    }

    /** `stream_get` */
    method Get() returns (c: int)
      requires Valid()
      modifies this, buffer
      ensures Valid()
      ensures old(Remaining()) == [] ==> c == (if Bad() then ERROR else EOF) && Remaining() == [] && At() == old(At())
      ensures old(Remaining()) != [] ==>
                var b := old(Remaining())[0];
                && c == Signed(b) && IsByte(c) && Remaining() == old(Remaining())[1..]
                && At() == Advance(old(At()), b)
                && state == StateOk && bufferPos > 0 && buffer[bufferPos - 1] == b
    {
      hide Sound, Upcoming, JsonUtf8.Valid, Full, Iterate, Decodable, CheckFirst, Advance;
      if state == StateEof {
        return EOF;
      } else if state == StateError {
        return ERROR;
      }
      SoundBounds(Buffer());
      ghost var at := Upcoming(Buffer());
      if buffer[bufferPos] == 0 {
        NextIsRest(Buffer());
        c := Fill();
        if c != 0 {
          return c;
        }
      }
      ghost var v := Buffer();
      SoundBounds(v);
      StepForward(v);
      SliceTail(input, at, Decodable(input));
      var b := buffer[bufferPos];
      bufferPos := bufferPos + 1;
      Track(b);
      assert Buffer() == v.(pos := v.pos + 1);
      return Signed(b);
    }

    /** `stream_unget`: the end and an error are not pushed back. A NUL that is pushed back is skipped,
        because it looks like the end of the buffer. */
    method Unget(c: int)
      requires Valid()
      requires c == EOF || c == ERROR
          || (IsByte(c) && state == StateOk && bufferPos > 0 && buffer[bufferPos - 1] == Unsigned(c))
      modifies this`bufferPos, this`line, this`column, this`position
      ensures Valid()
      ensures c == EOF || c == ERROR ==> Remaining() == old(Remaining()) && At() == old(At())
      ensures IsByte(c) ==> Remaining() == (if c == 0 then [] else [Unsigned(c)]) + old(Remaining())
      ensures IsByte(c) ==> At() == Retreat(old(At()), Unsigned(c))
    {
      hide Sound, Upcoming, JsonUtf8.Valid, Full, Iterate, Decodable, CheckFirst;
      if c == EOF || c == ERROR {
        return;
      }
      ghost var v := Buffer();
      SoundBounds(v);
      StepBack(v);
      if c != 0 {
        SliceTail(input, Upcoming(v) - 1, Decodable(input));
      }
      position := position - 1;
      if c == 0x0A {
        line := line - 1;
        column := lastColumn;
      } else if CheckFirst(Unsigned(c)) > 0 {
        column := column - 1;
      }
      bufferPos := bufferPos - 1;
      assert Buffer() == v.(pos := v.pos - 1);
      assert v.buf[v.pos - 1] == Unsigned(c) && (c == 0 <==> Unsigned(c) == 0);
    }
  }

  lemma SoundBounds(v: Buffered)
    requires Sound(v)
    ensures v.next <= |v.input| && v.pos <= v.count <= 4 && |v.buf| == 5
    ensures v.buf[v.pos] == 0 || v.pos < v.count
    ensures Upcoming(v) == if v.buf[v.pos] == 0 then v.next else v.next - (v.count - v.pos)
    ensures Upcoming(v) <= v.next <= Decodable(v.input) == v.next + Decodable(v.input[v.next..])
  {
  }
}
