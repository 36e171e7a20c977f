/**
 JSON values and the text that libjansson/jansson-2.7/src/dump.c writes for them.
 */
module JsonValue {

  import opened JsonUtf8
  import opened JsonString

  /** A real number is kept as its text: conversions to and from binary are not part of this model.
      The fields of an object are in the order in which its hash table is iterated over. */
  datatype Json = Null | True | False | Integer(value: int) | Real(text: seq<Byte>) | Str(bytes: seq<Byte>)
                | Arr(elems: seq<Json>) | Obj(fields: seq<Field>)

  datatype Field = Field(key: seq<Byte>, serial: nat, value: Json)

  const INT_MIN := -0x8000_0000_0000_0000
  const INT_MAX := 0x7FFF_FFFF_FFFF_FFFF

  ghost predicate DistinctKeys(fs: seq<Field>) {
    forall i, j | 0 <= i < j < |fs| :: fs[i].key != fs[j].key
  }

  /** What an API user can build without reals: 64-bit integers, UTF-8 strings, C strings as keys. */
  ghost predicate Proper(v: Json) {
    match v
    case Integer(i) => INT_MIN <= i <= INT_MAX
    case Real(_) => false
    case Str(s) => Valid(s)
    case Arr(es) => forall e | e in es :: Proper(e)
    case Obj(fs) =>
      && DistinctKeys(fs)
      && (forall f | f in fs :: Valid(f.key) && 0 !in f.key && Proper(f.value))
    case _ => true
  }

  /** No string in the value holds a NUL. */
  ghost predicate NulFree(v: Json) {
    match v
    case Str(s) => 0 !in s
    case Arr(es) => forall e | e in es :: NulFree(e)
    case Obj(fs) => forall f | f in fs :: NulFree(f.value)
    case _ => true
  }

  /** `json_equal`: objects are compared as maps. */
  ghost predicate Equal(v: Json, w: Json)
    decreases v, 1
  {
    match (v, w)
    case (Arr(es), Arr(ds)) => |es| == |ds| && forall i | 0 <= i < |es| :: Equal(es[i], ds[i])
    case (Obj(fs), Obj(gs)) =>
      |fs| == |gs| && forall i | 0 <= i < |fs| :: HasEqual(fs[i].key, fs[i].value, gs)
    case _ => v == w && !v.Arr? && !v.Obj?
  }

  /** The object has that key, with an equal value. */
  ghost predicate HasEqual(key: seq<Byte>, value: Json, gs: seq<Field>)
    decreases value, 2
  {
    exists j | 0 <= j < |gs| :: gs[j].key == key && Equal(value, gs[j].value)
  }

  // ---- Numbers ----

  function Digits(n: nat): (r: seq<Byte>)
    ensures r != [] && forall c | c in r :: 0x30 <= c <= 0x39
  {
    if n < 10 then [0x30 + n] else Digits(n / 10) + [0x30 + n % 10]
  }

  /** `%lld` */
  function DumpInteger(i: int): seq<Byte> {
    if i < 0 then [0x2D] + Digits(-i) else Digits(i)
  }

  // ---- Layout ----

  function Spaces(n: nat): (r: seq<Byte>)
    ensures forall c | c in r :: c == 0x20
  {
    if n == 0 then [] else Spaces(n - 1) + [0x20]
  }

  /** `dump_indent` */
  function Indent(fl: DumpFlags, depth: nat, space: bool): seq<Byte> {
    if fl.indent > 0 then [0x0A] + Spaces(depth * fl.indent)
    else if space && !fl.compact then [0x20]
    else []
  }

  function Separator(fl: DumpFlags): seq<Byte> {
    if fl.compact then [0x3A] else [0x3A, 0x20]
  }

  // ---- The order of the fields ----

  /** `strcmp(a, b) < 0` */
  predicate KeyBelow(a: seq<Byte>, b: seq<Byte>) {
    if b == [] then false
    else if a == [] then true
    else if a[0] != b[0] then a[0] < b[0]
    else KeyBelow(a[1..], b[1..])
  }

  /** The bytes agree up to a place where one string has ended, or has the smaller byte. */
  ghost predicate BelowAt(a: seq<Byte>, b: seq<Byte>, n: nat) {
    && n <= |a| && n < |b| && a[..n] == b[..n]
    && (n == |a| || a[n] < b[n])
  }

  /** A proper prefix comes first, or else the string with the smaller byte at the first place where they
      differ. */
  ghost predicate Below(a: seq<Byte>, b: seq<Byte>) {
    exists n: nat :: BelowAt(a, b, n)
  }

  /** The order of `strcmp`. */
  lemma {:induction false} KeyBelowIff(a: seq<Byte>, b: seq<Byte>)
    ensures KeyBelow(a, b) <==> Below(a, b)
  {
    if a == [] || b == [] || a[0] != b[0] {
      assert b != [] && (a == [] || a[0] < b[0]) ==> BelowAt(a, b, 0);
    } else {
      KeyBelowIff(a[1..], b[1..]);
      assert a == [a[0]] + a[1..] && b == [b[0]] + b[1..];
      if n: nat :| BelowAt(a[1..], b[1..], n) {
        assert a[..n + 1] == [a[0]] + a[1..][..n] && b[..n + 1] == [b[0]] + b[1..][..n];
        assert BelowAt(a, b, n + 1);
      }
      if n: nat :| BelowAt(a, b, n) {
        assert n > 0 && a[1..][..n - 1] == a[..n][1..] && b[1..][..n - 1] == b[..n][1..];
        assert BelowAt(a[1..], b[1..], n - 1);
      }
    }
  }

  predicate Before(f: Field, g: Field, fl: DumpFlags) {
    if fl.sortKeys then KeyBelow(f.key, g.key) else f.serial < g.serial
  }

  function Insert(f: Field, fs: seq<Field>, fl: DumpFlags): seq<Field> {
    if fs == [] || !Before(fs[0], f, fl) then [f] + fs else [fs[0]] + Insert(f, fs[1..], fl)
  }

  function Sort(fs: seq<Field>, fl: DumpFlags): seq<Field> {
    if fs == [] then [] else Insert(fs[0], Sort(fs[1..], fl), fl)
  }

  /** The order in which the fields are written. */
  function Ordered(fs: seq<Field>, fl: DumpFlags): seq<Field> {
    if fl.sortKeys || fl.preserveOrder then Sort(fs, fl) else fs
  }

  lemma {:induction false} InsertHolds(f: Field, fs: seq<Field>, fl: DumpFlags)
    ensures multiset(Insert(f, fs, fl)) == multiset{f} + multiset(fs)
  {
    if fs == [] || !Before(fs[0], f, fl) {
    } else {
      InsertHolds(f, fs[1..], fl);
      assert fs == [fs[0]] + fs[1..];
    }
  }

  lemma {:induction false} SortHolds(fs: seq<Field>, fl: DumpFlags)
    ensures multiset(Sort(fs, fl)) == multiset(fs)
  {
    if fs != [] {
      SortHolds(fs[1..], fl);
      InsertHolds(fs[0], Sort(fs[1..], fl), fl);
      assert fs == [fs[0]] + fs[1..];
    }
  }

  /** No field is lost or doubled. */
  lemma OrderedHolds(fs: seq<Field>, fl: DumpFlags)
    ensures multiset(Ordered(fs, fl)) == multiset(fs)
  {
    SortHolds(fs, fl);
  }

  ghost predicate InOrder(fs: seq<Field>, fl: DumpFlags) {
    forall i, j | 0 <= i < j < |fs| :: !Before(fs[j], fs[i], fl)
  }

  lemma {:induction false} KeyOrder(a: seq<Byte>, b: seq<Byte>, c: seq<Byte>)
    ensures KeyBelow(a, b) ==> !KeyBelow(b, a)
    ensures !KeyBelow(b, a) && !KeyBelow(c, b) ==> !KeyBelow(c, a)
    ensures !KeyBelow(a, b) && !KeyBelow(b, a) ==> a == b
  {
    if a != [] && b != [] {
      if c != [] {
        KeyOrder(a[1..], b[1..], c[1..]);
      } else {
        KeyOrder(a[1..], b[1..], []);
      }
      assert a == [a[0]] + a[1..] && b == [b[0]] + b[1..];
    }
  }

  lemma {:induction false} InsertInOrder(f: Field, fs: seq<Field>, fl: DumpFlags)
    requires InOrder(fs, fl)
    ensures InOrder(Insert(f, fs, fl), fl)
  {
    var r := Insert(f, fs, fl);
    if fs == [] || !Before(fs[0], f, fl) {
      forall i, j | 0 <= i < j < |r|
        ensures !Before(r[j], r[i], fl)
      {
        if i == 0 && j > 1 {
          KeyOrder(f.key, fs[0].key, r[j].key);
          assert r[j] == fs[j - 1];
        }
      }
    } else {
      var rest := Insert(f, fs[1..], fl);
      InsertInOrder(f, fs[1..], fl);
      InsertHolds(f, fs[1..], fl);
      forall g | g in rest
        ensures !Before(g, fs[0], fl)
      {
        assert g in multiset(rest);
        KeyOrder(fs[0].key, f.key, f.key);
      }
    }
  }

  lemma {:induction false} SortInOrder(fs: seq<Field>, fl: DumpFlags)
    ensures InOrder(Sort(fs, fl), fl)
  {
    if fs != [] {
      SortInOrder(fs[1..], fl);
      InsertInOrder(fs[0], Sort(fs[1..], fl), fl);
    }
  }

  /** The order that the flags ask for, on the keys and the serial numbers themselves. */
  ghost predicate InAskedOrder(os: seq<Field>, fs: seq<Field>, fl: DumpFlags) {
    if fl.sortKeys then forall i, j | 0 <= i < j < |os| :: Below(os[i].key, os[j].key)
    else if fl.preserveOrder then forall i, j | 0 <= i < j < |os| :: os[i].serial <= os[j].serial
    else os == fs
  }

  /** The fields are written in the order that the flags ask for. */
  lemma OrderedAsAsked(fs: seq<Field>, fl: DumpFlags)
    requires DistinctKeys(Ordered(fs, fl))
    ensures InAskedOrder(Ordered(fs, fl), fs, fl)
  {
    var os := Ordered(fs, fl);
    if fl.sortKeys {
      SortInOrder(fs, fl);
      forall i, j | 0 <= i < j < |os|
        ensures Below(os[i].key, os[j].key)
      {
        assert !Before(os[j], os[i], fl);
        KeyOrder(os[i].key, os[j].key, []);
        KeyBelowIff(os[i].key, os[j].key);
      }
    } else if fl.preserveOrder {
      SortInOrder(fs, fl);
      forall i, j | 0 <= i < j < |os|
        ensures os[i].serial <= os[j].serial
      {
        assert !Before(os[j], os[i], fl);
      }
    } else {
      assert os == fs;
    }
  }

  // ---- Values ----

  /** The text that `do_dump` writes for a value. */
  function Dump(v: Json, fl: DumpFlags, depth: nat): seq<Byte>
    decreases v, 1
  {
    match v
    case Null => [0x6E, 0x75, 0x6C, 0x6C]
    case True => [0x74, 0x72, 0x75, 0x65]
    case False => [0x66, 0x61, 0x6C, 0x73, 0x65]
    case Integer(i) => DumpInteger(i)
    case Real(text) => text
    case Str(s) => DumpString(s, fl)
    case Arr(es) =>
      if es == [] then [0x5B, 0x5D]
      else [0x5B] + Indent(fl, depth + 1, false) + DumpElems(es, fl, depth) + [0x5D]
    case Obj(fs) =>
      if fs == [] then [0x7B, 0x7D]
      else
        OrderedMembers(fs, fl);
        [0x7B] + Indent(fl, depth + 1, false) + DumpFields(v, Ordered(fs, fl), fl, depth) + [0x7D]
  }

  function DumpElems(es: seq<Json>, fl: DumpFlags, depth: nat): seq<Byte>
    decreases es, 0
  {
    if es == [] then []
    else
      Dump(es[0], fl, depth + 1)
      + (if |es| == 1 then Indent(fl, depth, false)
          else [0x2C] + Indent(fl, depth + 1, true) + DumpElems(es[1..], fl, depth))
  }

  function DumpFields(ghost v: Json, fs: seq<Field>, fl: DumpFlags, depth: nat): seq<Byte>
    requires forall f | f in fs :: f.value < v
    decreases v, 0, |fs|
  {
    if fs == [] then []
    else
      DumpString(fs[0].key, fl) + Separator(fl) + Dump(fs[0].value, fl, depth + 1)
      + (if |fs| == 1 then Indent(fl, depth, false)
          else [0x2C] + Indent(fl, depth + 1, true) + DumpFields(v, fs[1..], fl, depth))
  }

  lemma OrderedMembers(fs: seq<Field>, fl: DumpFlags)
    ensures |Ordered(fs, fl)| == |fs|
    ensures forall f :: f in Ordered(fs, fl) <==> f in fs
  {
    OrderedHolds(fs, fl);
    assert |multiset(Ordered(fs, fl))| == |multiset(fs)|;
    forall f
      ensures f in Ordered(fs, fl) <==> f in fs
    {
      assert f in multiset(Ordered(fs, fl)) <==> f in multiset(fs);
    }
  }
}
