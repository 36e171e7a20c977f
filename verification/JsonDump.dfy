/**
 The printer of libjansson/jansson-2.7/src/dump.c: it walks over a graph of values on the heap, marks
 the arrays and objects it is inside of, and writes through a callback that collects the bytes.
 */
module JsonDump {

  import opened JsonUtf8
  import opened JsonString
  import opened JsonValue

  datatype Member = Member(key: seq<Byte>, serial: nat, cell: Cell)

  /** What a `json_t` holds; members are in the order in which the hash table is iterated over. */
  datatype Shape = Scalar(value: Json) | ArrayOf(elems: seq<Cell>) | ObjectOf(members: seq<Member>)

  /** A `json_t`. Only the marks of arrays and objects are ever set. */
  class Cell {
    var shape: Shape
    var visited: bool

    constructor (s: Shape)
      ensures shape == s && !visited
    {
      shape, visited := s, false;
    }
  }

  function Cells(ms: seq<Member>): seq<Cell> {
    if ms == [] then [] else [ms[0].cell] + Cells(ms[1..])
  }

  function Children(c: Cell): seq<Cell>
    reads c`shape
  {
    match c.shape
    case Scalar(_) => []
    case ArrayOf(es) => es
    case ObjectOf(ms) => Cells(ms)
  }

  ghost predicate DistinctMembers(ms: seq<Member>) {
    forall i, j | 0 <= i < j < |ms| :: ms[i].key != ms[j].key
  }

  /** A set of cells that no reference leaves, with proper leaves and distinct keys. */
  ghost predicate Graph(all: set<Cell>)
    reads all`shape
  {
    && (forall c, d | c in all && d in Children(c) :: d in all)
    && (forall c | c in all && c.shape.Scalar? :: !c.shape.value.Arr? && !c.shape.value.Obj?)
    && (forall c | c in all && c.shape.ObjectOf? :: DistinctMembers(c.shape.members))
  }

  /** The value that a cell stands for, when the cells of `path` are being printed: none if it leads
      back to one of them, or if a string is not UTF-8. */
  ghost function Tree(c: Cell, path: set<Cell>, all: set<Cell>): Option<Json>
    requires Graph(all) && c in all
    reads all`shape
    decreases all - path, 1
  {
    match c.shape
    case Scalar(v) => if v.Str? && !Valid(v.bytes) then None else Some(v)
    case ArrayOf(es) =>
      if c in path then None
      else
        var vs := Trees(es, path + {c}, all);
        if vs.Some? then Some(Arr(vs.value)) else None
    case ObjectOf(ms) =>
      if c in path then None
      else
        CellsIn(ms);
        var fs := TreeFields(ms, path + {c}, all);
        if fs.Some? then Some(Obj(fs.value)) else None
  }

  ghost function Trees(cs: seq<Cell>, path: set<Cell>, all: set<Cell>): (r: Option<seq<Json>>)
    requires Graph(all) && forall c | c in cs :: c in all
    reads all`shape
    ensures r.Some? ==> |r.value| == |cs|
    decreases all - path, 2, |cs|
  {
    if cs == [] then Some([])
    else
      var v, vs := Tree(cs[0], path, all), Trees(cs[1..], path, all);
      if v.Some? && vs.Some? then Some([v.value] + vs.value) else None
  }

  ghost function TreeFields(ms: seq<Member>, path: set<Cell>, all: set<Cell>): (r: Option<seq<Field>>)
    requires Graph(all) && forall m | m in ms :: m.cell in all
    reads all`shape
    ensures r.Some? ==> |r.value| == |ms|
    decreases all - path, 2, |ms|
  {
    if ms == [] then Some([])
    else
      var v, fs := Tree(ms[0].cell, path, all), TreeFields(ms[1..], path, all);
      if v.Some? && fs.Some? then Some([Field(ms[0].key, ms[0].serial, v.value)] + fs.value) else None
  }

  lemma {:induction false} CellsIn(ms: seq<Member>)
    ensures |Cells(ms)| == |ms| && forall i | 0 <= i < |ms| :: Cells(ms)[i] == ms[i].cell
    ensures forall m | m in ms :: m.cell in Cells(ms)
  {
    if ms != [] {
      CellsIn(ms[1..]);
    }
  }

  // ---- The order of the members ----

  /** `struct object_key` */
  datatype ObjectKey = ObjectKey(serial: nat, key: seq<Byte>)

  predicate KeyBefore(a: ObjectKey, b: ObjectKey, fl: DumpFlags) {
    if fl.sortKeys then KeyBelow(a.key, b.key) else a.serial < b.serial
  }

  function InsertKey(k: ObjectKey, ks: seq<ObjectKey>, fl: DumpFlags): seq<ObjectKey> {
    if ks == [] || !KeyBefore(ks[0], k, fl) then [k] + ks else [ks[0]] + InsertKey(k, ks[1..], fl)
  }

  /** `qsort` */
  function SortKeys(ks: seq<ObjectKey>, fl: DumpFlags): seq<ObjectKey> {
    if ks == [] then [] else InsertKey(ks[0], SortKeys(ks[1..], fl), fl)
  }

  function KeysOf(ms: seq<Member>): (r: seq<ObjectKey>)
    ensures |r| == |ms|
  {
    if ms == [] then [] else [ObjectKey(ms[0].serial, ms[0].key)] + KeysOf(ms[1..])
  }

  ghost function InsertMember(m: Member, ms: seq<Member>, fl: DumpFlags): seq<Member> {
    if ms == [] || !KeyBefore(ObjectKey(ms[0].serial, ms[0].key), ObjectKey(m.serial, m.key), fl) then [m] + ms
    else [ms[0]] + InsertMember(m, ms[1..], fl)
  }

  ghost function SortMembers(ms: seq<Member>, fl: DumpFlags): seq<Member> {
    if ms == [] then [] else InsertMember(ms[0], SortMembers(ms[1..], fl), fl)
  }

  lemma {:induction false} InsertKeysOf(m: Member, ms: seq<Member>, fl: DumpFlags)
    ensures KeysOf(InsertMember(m, ms, fl)) == InsertKey(ObjectKey(m.serial, m.key), KeysOf(ms), fl)
    ensures multiset(InsertMember(m, ms, fl)) == multiset{m} + multiset(ms)
  {
    if ms == [] || !KeyBefore(ObjectKey(ms[0].serial, ms[0].key), ObjectKey(m.serial, m.key), fl) {
      assert ([m] + ms)[1..] == ms;
    } else {
      InsertKeysOf(m, ms[1..], fl);
      assert ms == [ms[0]] + ms[1..];
      assert ([ms[0]] + InsertMember(m, ms[1..], fl))[1..] == InsertMember(m, ms[1..], fl);
    }
  }

  lemma {:induction false} SortKeysOf(ms: seq<Member>, fl: DumpFlags)
    ensures KeysOf(SortMembers(ms, fl)) == SortKeys(KeysOf(ms), fl)
    ensures multiset(SortMembers(ms, fl)) == multiset(ms)
  {
    if ms != [] {
      SortKeysOf(ms[1..], fl);
      InsertKeysOf(ms[0], SortMembers(ms[1..], fl), fl);
      assert ms == [ms[0]] + ms[1..];
    }
  }

  lemma SortedMembers(ms: seq<Member>, fl: DumpFlags)
    ensures |SortMembers(ms, fl)| == |ms|
    ensures SameMembers(SortMembers(ms, fl), ms)
  {
    SortKeysOf(ms, fl);
    var os := SortMembers(ms, fl);
    assert |multiset(os)| == |multiset(ms)|;
    forall i | 0 <= i < |os|
      ensures os[i] in ms
    {
      assert os[i] in multiset(os);
    }
    forall i | 0 <= i < |ms|
      ensures ms[i] in os
    {
      assert ms[i] in multiset(ms);
    }
  }

  ghost predicate SameMembers(os: seq<Member>, ms: seq<Member>) {
    (forall i | 0 <= i < |os| :: os[i] in ms) && (forall i | 0 <= i < |ms| :: ms[i] in os)
  }

  lemma {:induction false} InsertTreeFields(m: Member, ms: seq<Member>, fl: DumpFlags, path: set<Cell>, all: set<Cell>)
    requires Graph(all) && m.cell in all && forall a | a in ms :: a.cell in all
    requires TreeFields(ms, path, all).Some? && Tree(m.cell, path, all).Some?
    ensures forall a | a in InsertMember(m, ms, fl) :: a.cell in all
    ensures TreeFields(InsertMember(m, ms, fl), path, all)
         == Some(Insert(Field(m.key, m.serial, Tree(m.cell, path, all).value), TreeFields(ms, path, all).value, fl))
  {
    InsertKeysOf(m, ms, fl);
    forall a | a in InsertMember(m, ms, fl)
      ensures a.cell in all
    {
      assert a in multiset(InsertMember(m, ms, fl));
    }
    if ms == [] || !KeyBefore(ObjectKey(ms[0].serial, ms[0].key), ObjectKey(m.serial, m.key), fl) {
      assert ([m] + ms)[1..] == ms;
    } else {
      InsertTreeFields(m, ms[1..], fl, path, all);
      assert ([ms[0]] + InsertMember(m, ms[1..], fl))[1..] == InsertMember(m, ms[1..], fl);
    }
  }

  /** Sorting the members and sorting the fields that they stand for is the same. */
  lemma {:induction false} SortTreeFields(ms: seq<Member>, fl: DumpFlags, path: set<Cell>, all: set<Cell>)
    requires Graph(all) && (forall a | a in ms :: a.cell in all)
    ensures forall a | a in SortMembers(ms, fl) :: a.cell in all
    ensures TreeFields(ms, path, all).Some?
        ==> TreeFields(SortMembers(ms, fl), path, all) == Some(Sort(TreeFields(ms, path, all).value, fl))
  {
    SortedMembers(ms, fl);
    forall a | a in SortMembers(ms, fl)
      ensures a.cell in all
    {
      assert a in ms;
    }
    if ms != [] && TreeFields(ms, path, all).Some? {
      SortTreeFields(ms[1..], fl, path, all);
      InsertTreeFields(ms[0], SortMembers(ms[1..], fl), fl, path, all);
    }
  }

  lemma {:induction false} TreeFieldsIff(ms: seq<Member>, path: set<Cell>, all: set<Cell>)
    requires Graph(all) && forall m | m in ms :: m.cell in all
    ensures TreeFields(ms, path, all).Some? <==> forall m | m in ms :: Tree(m.cell, path, all).Some?
  {
    if ms != [] {
      TreeFieldsIff(ms[1..], path, all);
      assert forall m | m in ms[1..] :: m in ms;
      assert forall m | m in ms :: m == ms[0] || m in ms[1..];
    }
  }

  /** The members in the order in which they are printed. */
  ghost function MembersInOrder(ms: seq<Member>, fl: DumpFlags): seq<Member> {
    if fl.sortKeys || fl.preserveOrder then SortMembers(ms, fl) else ms
  }

  lemma OrderedTreeFields(ms: seq<Member>, fl: DumpFlags, path: set<Cell>, all: set<Cell>)
    requires Graph(all) && (forall a | a in ms :: a.cell in all)
    ensures |MembersInOrder(ms, fl)| == |ms| && SameMembers(MembersInOrder(ms, fl), ms)
    ensures match TreeFields(ms, path, all)
            case None => TreeFields(MembersInOrder(ms, fl), path, all) == None
            case Some(fs) => TreeFields(MembersInOrder(ms, fl), path, all) == Some(Ordered(fs, fl))
  {
    SortedMembers(ms, fl);
    SortTreeFields(ms, fl, path, all);
    TreeFieldsIff(ms, path, all);
    TreeFieldsIff(MembersInOrder(ms, fl), path, all);
  }

  /** `json_object_get` */
  function Lookup(ms: seq<Member>, key: seq<Byte>): (r: Option<Member>)
    ensures r.Some? ==> r.value in ms && r.value.key == key
    ensures r.None? ==> forall m | m in ms :: m.key != key
  {
    if ms == [] then None else if ms[0].key == key then Some(ms[0]) else Lookup(ms[1..], key)
  }

  lemma LookupFinds(ms: seq<Member>, m: Member)
    requires DistinctMembers(ms) && m in ms
    ensures Lookup(ms, m.key) == Some(m)
  {
    var i :| 0 <= i < |ms| && ms[i] == m;
    var n :| 0 <= n < |ms| && ms[n] == Lookup(ms, m.key).value;
  }

  // ---- The printer ----

  lemma MarkOf(c: Cell, path: set<Cell>, all: set<Cell>)
    requires Marked(all, path) && c in all
    ensures c.visited <==> c in path
  {
  }

  /** The cells of `path` are marked, and no other. */
  ghost predicate Marked(all: set<Cell>, path: set<Cell>)
    reads all`visited
  {
    forall c | c in all :: c.visited <==> c in path
  }

  ghost predicate MarkedWithin(all: set<Cell>, path: set<Cell>)
    reads all`visited
  {
    forall c | c in all :: c.visited ==> c in path
  }

  /** The text of the elements from `i` on is what is missing at the end of `out`. */
  ghost predicate ElemsLeft(es: seq<Cell>, i: nat, path: set<Cell>, all: set<Cell>, before: seq<Byte>,
      out: seq<Byte>, fl: DumpFlags, depth: nat)
    requires Graph(all) && i <= |es| && forall e | e in es :: e in all
    reads all`shape
  {
    var spec, rest := Trees(es, path, all), Trees(es[i..], path, all);
    && (spec.Some? <==> rest.Some?)
    && (spec.Some? ==> out + DumpElems(rest.value, fl, depth) == before + DumpElems(spec.value, fl, depth))
  }

  lemma AllElemsLeft(es: seq<Cell>, path: set<Cell>, all: set<Cell>, out: seq<Byte>, fl: DumpFlags, depth: nat)
    requires Graph(all) && forall e | e in es :: e in all
    ensures ElemsLeft(es, 0, path, all, out, out, fl, depth)
  {
    assert es[0..] == es;
  }

  /** What follows an element. */
  function ElemEnd(last: bool, fl: DumpFlags, depth: nat): seq<Byte> {
    if last then Indent(fl, depth, false) else [0x2C] + Indent(fl, depth + 1, true)
  }

  lemma ElemDone(es: seq<Cell>, i: nat, path: set<Cell>, all: set<Cell>, before: seq<Byte>, out: seq<Byte>,
      fl: DumpFlags, depth: nat, out': seq<Byte>)
    requires Graph(all) && i < |es| && forall e | e in es :: e in all
    requires ElemsLeft(es, i, path, all, before, out, fl, depth) && Tree(es[i], path, all).Some?
    requires out' == out + Dump(Tree(es[i], path, all).value, fl, depth + 1) + ElemEnd(i == |es| - 1, fl, depth)
    ensures ElemsLeft(es, i + 1, path, all, before, out', fl, depth)
  {
    assert es[i..][0] == es[i] && es[i..][1..] == es[i + 1..];
    var rest, more := Trees(es[i..], path, all), Trees(es[i + 1..], path, all);
    if rest.Some? {
      assert rest.value[0] == Tree(es[i], path, all).value && rest.value[1..] == more.value && |rest.value| == |es| - i;
      hide Trees, Tree, Dump, DumpElems, ElemEnd;
      FirstElem(rest.value, fl, depth);
      Appended(out, Dump(rest.value[0], fl, depth + 1), ElemEnd(i == |es| - 1, fl, depth),
          DumpElems(more.value, fl, depth));
    }
  }

  lemma Appended(a: seq<Byte>, b: seq<Byte>, c: seq<Byte>, d: seq<Byte>)
    ensures a + b + c + d == a + (b + c + d)
  {
  }

  lemma FirstElem(vs: seq<Json>, fl: DumpFlags, depth: nat)
    requires vs != []
    ensures DumpElems(vs, fl, depth)
        == Dump(vs[0], fl, depth + 1) + ElemEnd(|vs| == 1, fl, depth) + DumpElems(vs[1..], fl, depth)
  {
    hide Dump, Indent;
  }

  lemma ElemFails(es: seq<Cell>, i: nat, path: set<Cell>, all: set<Cell>, before: seq<Byte>, out: seq<Byte>,
      fl: DumpFlags, depth: nat)
    requires Graph(all) && i < |es| && forall e | e in es :: e in all
    requires ElemsLeft(es, i, path, all, before, out, fl, depth) && Tree(es[i], path, all).None?
    ensures Trees(es, path, all).None?
  {
    hide Tree, DumpElems;
    assert es[i..][0] == es[i];
  }

  lemma NoElemsLeft(es: seq<Cell>, path: set<Cell>, all: set<Cell>, before: seq<Byte>, out: seq<Byte>, fl: DumpFlags,
      depth: nat)
    requires Graph(all) && forall e | e in es :: e in all
    requires ElemsLeft(es, |es|, path, all, before, out, fl, depth)
    ensures Trees(es, path, all).Some? && out == before + DumpElems(Trees(es, path, all).value, fl, depth)
  {
    assert es[|es|..] == [] && out + [] == out;
  }

  /** The text of some fields in the order in which they are given. */
  function FieldsText(fs: seq<Field>, fl: DumpFlags, depth: nat): seq<Byte> {
    if fs == [] then []
    else FieldText(fs[0], |fs| == 1, fl, depth) + FieldsText(fs[1..], fl, depth)
  }

  function FieldText(f: Field, last: bool, fl: DumpFlags, depth: nat): seq<Byte> {
    DumpString(f.key, fl) + Separator(fl) + Dump(f.value, fl, depth + 1) + ElemEnd(last, fl, depth)
  }

  lemma {:induction false} FieldsTextIs(v: Json, fs: seq<Field>, fl: DumpFlags, depth: nat)
    requires forall f | f in fs :: f.value < v
    ensures DumpFields(v, fs, fl, depth) == FieldsText(fs, fl, depth)
  {
    if fs != [] {
      FieldsTextIs(v, fs[1..], fl, depth);
      OneFieldText(v, fs, fl, depth);
    }
  }

  lemma OneFieldText(v: Json, fs: seq<Field>, fl: DumpFlags, depth: nat)
    requires fs != [] && (forall f | f in fs :: f.value < v)
        && DumpFields(v, fs[1..], fl, depth) == FieldsText(fs[1..], fl, depth)
    ensures DumpFields(v, fs, fl, depth) == FieldsText(fs, fl, depth)
  {
    hide Dump, DumpString, Indent, Separator;
    if |fs| == 1 {
      assert fs[1..] == [];
    }
  }

  /** The text of the members from `i` on is what is missing at the end of `out`. */
  ghost predicate FieldsLeft(os: seq<Member>, i: nat, path: set<Cell>, all: set<Cell>, before: seq<Byte>,
      out: seq<Byte>, fl: DumpFlags, depth: nat)
    requires Graph(all) && i <= |os| && forall m | m in os :: m.cell in all
    reads all`shape
  {
    var spec, rest := TreeFields(os, path, all), TreeFields(os[i..], path, all);
    && (spec.Some? <==> rest.Some?)
    && (spec.Some? ==> out + FieldsText(rest.value, fl, depth) == before + FieldsText(spec.value, fl, depth))
  }

  lemma AllFieldsLeft(os: seq<Member>, path: set<Cell>, all: set<Cell>, out: seq<Byte>, fl: DumpFlags, depth: nat)
    requires Graph(all) && forall m | m in os :: m.cell in all
    ensures FieldsLeft(os, 0, path, all, out, out, fl, depth)
  {
    assert os[0..] == os;
  }

  lemma FieldDone(os: seq<Member>, i: nat, path: set<Cell>, all: set<Cell>, before: seq<Byte>, out: seq<Byte>,
      fl: DumpFlags, depth: nat, out': seq<Byte>)
    requires Graph(all) && i < |os| && forall m | m in os :: m.cell in all
    requires FieldsLeft(os, i, path, all, before, out, fl, depth) && Tree(os[i].cell, path, all).Some?
    requires out' == out
        + FieldText(Field(os[i].key, os[i].serial, Tree(os[i].cell, path, all).value), i == |os| - 1, fl, depth)
    ensures FieldsLeft(os, i + 1, path, all, before, out', fl, depth)
  {
    assert os[i..][0] == os[i] && os[i..][1..] == os[i + 1..];
    var rest, more := TreeFields(os[i..], path, all), TreeFields(os[i + 1..], path, all);
    if rest.Some? {
      assert rest.value[0] == Field(os[i].key, os[i].serial, Tree(os[i].cell, path, all).value);
      assert rest.value[1..] == more.value && |rest.value| == |os| - i;
      hide TreeFields, Tree, FieldText;
      assert FieldsText(rest.value, fl, depth)
          == FieldText(rest.value[0], i == |os| - 1, fl, depth) + FieldsText(more.value, fl, depth);
      hide FieldsText;
      Assoc(out, FieldText(rest.value[0], i == |os| - 1, fl, depth), FieldsText(more.value, fl, depth));
    }
  }

  lemma Assoc(a: seq<Byte>, b: seq<Byte>, c: seq<Byte>)
    ensures a + b + c == a + (b + c)
  {
  }

  lemma MemberText(m: Member, v: Json, last: bool, fl: DumpFlags, depth: nat, out: seq<Byte>, out': seq<Byte>)
    requires out' == out + DumpString(m.key, fl) + Separator(fl) + Dump(v, fl, depth + 1)
                   + (if last then Indent(fl, depth, false) else [0x2C] + Indent(fl, depth + 1, true))
    ensures out' == out + FieldText(Field(m.key, m.serial, v), last, fl, depth)
  {
    hide DumpString, Separator, Dump, Indent;
    assert out' == out + (DumpString(m.key, fl) + Separator(fl) + Dump(v, fl, depth + 1) + ElemEnd(last, fl, depth));
  }

  lemma FieldFails(os: seq<Member>, i: nat, path: set<Cell>, all: set<Cell>, before: seq<Byte>, out: seq<Byte>,
      fl: DumpFlags, depth: nat)
    requires Graph(all) && i < |os| && forall m | m in os :: m.cell in all
    requires FieldsLeft(os, i, path, all, before, out, fl, depth) && Tree(os[i].cell, path, all).None?
    ensures TreeFields(os, path, all).None?
  {
    hide Tree, FieldsText;
    assert os[i..][0] == os[i];
  }

  lemma NoFieldsLeft(os: seq<Member>, path: set<Cell>, all: set<Cell>, before: seq<Byte>, out: seq<Byte>,
      fl: DumpFlags, depth: nat)
    requires Graph(all) && forall m | m in os :: m.cell in all
    requires FieldsLeft(os, |os|, path, all, before, out, fl, depth)
    ensures TreeFields(os, path, all).Some? && out == before + FieldsText(TreeFields(os, path, all).value, fl, depth)
  {
    assert os[|os|..] == [] && out + [] == out;
  }

  lemma OrderedInGraph(ms: seq<Member>, fl: DumpFlags, all: set<Cell>)
    requires Graph(all) && (forall m | m in ms :: m.cell in all)
    ensures |MembersInOrder(ms, fl)| == |ms| && forall m | m in MembersInOrder(ms, fl) :: m.cell in all
  {
    OrderedTreeFields(ms, fl, {}, all);
    var os := MembersInOrder(ms, fl);
    forall i | 0 <= i < |os|
      ensures os[i].cell in all
    {
      assert os[i] in ms;
    }
  }

  /** Looking the sorted keys up gives the sorted members. */
  lemma SortedLookup(ms: seq<Member>, fl: DumpFlags, i: nat)
    requires DistinctMembers(ms) && i < |ms|
    ensures |SortKeys(KeysOf(ms), fl)| == |ms| == |SortMembers(ms, fl)|
    ensures Lookup(ms, SortKeys(KeysOf(ms), fl)[i].key) == Some(SortMembers(ms, fl)[i])
  {
    SortKeysOf(ms, fl);
    SortedMembers(ms, fl);
    KeyOf(SortMembers(ms, fl), i);
    LookupFinds(ms, SortMembers(ms, fl)[i]);
  }

  lemma {:induction false} KeyOf(ms: seq<Member>, i: nat)
    requires i < |ms|
    ensures KeysOf(ms)[i].key == ms[i].key
  {
    if i > 0 {
      KeyOf(ms[1..], i - 1);
    }
  }

  lemma GraphMembers(c: Cell, all: set<Cell>)
    requires Graph(all) && c in all
    ensures c.shape.ArrayOf? ==> forall e | e in c.shape.elems :: e in all
    ensures c.shape.ObjectOf? ==> DistinctMembers(c.shape.members) && forall m | m in c.shape.members :: m.cell in all
    ensures c.shape.Scalar? ==> !c.shape.value.Arr? && !c.shape.value.Obj?
  {
    if c.shape.ObjectOf? {
      CellsIn(c.shape.members);
      assert forall m | m in c.shape.members :: m.cell in Children(c);
    }
  }

  /** What an array or an object stands for, in terms of what is inside it. */
  lemma TreeOfArray(c: Cell, path: set<Cell>, all: set<Cell>, fl: DumpFlags, depth: nat)
    requires Graph(all) && c in all && c.shape.ArrayOf?
    ensures forall e | e in c.shape.elems :: e in all
    ensures c in path ==> Tree(c, path, all).None?
    ensures c !in path ==>
              var vs := Trees(c.shape.elems, path + {c}, all);
              && (vs.None? ==> Tree(c, path, all).None?)
              && (vs.Some? ==> Tree(c, path, all) == Some(Arr(vs.value)))
  {
    GraphMembers(c, all);
  }

  lemma TreeOfObject(c: Cell, path: set<Cell>, all: set<Cell>)
    requires Graph(all) && c in all && c.shape.ObjectOf?
    ensures forall m | m in c.shape.members :: m.cell in all
    ensures c in path ==> Tree(c, path, all).None?
    ensures c !in path ==>
              var fs := TreeFields(c.shape.members, path + {c}, all);
              && (fs.None? ==> Tree(c, path, all).None?)
              && (fs.Some? ==> Tree(c, path, all) == Some(Obj(fs.value)))
  {
    GraphMembers(c, all);
  }

  lemma NoTrees(path: set<Cell>, all: set<Cell>)
    requires Graph(all)
    ensures Trees([], path, all) == Some([]) && TreeFields([], path, all) == Some([])
  {
  }

  lemma ArrayText(vs: seq<Json>, fl: DumpFlags, depth: nat)
    ensures Dump(Arr(vs), fl, depth) ==
              if vs == [] then [0x5B] + [0x5D]
                  else [0x5B] + Indent(fl, depth + 1, false) + DumpElems(vs, fl, depth) + [0x5D]
  {
    hide DumpElems, Indent;
  }

  lemma ObjectText(fs: seq<Field>, fl: DumpFlags, depth: nat)
    ensures Dump(Obj(fs), fl, depth) ==
              if fs == [] then [0x7B] + [0x7D]
              else [0x7B] + Indent(fl, depth + 1, false) + FieldsText(Ordered(fs, fl), fl, depth) + [0x7D]
  {
    if fs != [] {
      JsonValue.OrderedMembers(fs, fl);
      FieldsTextIs(Obj(fs), Ordered(fs, fl), fl, depth);
      hide DumpFields, Indent, FieldsText, Ordered;
    }
  }

  /** What is written of an array or an object before it is closed. */
  function Opened(open: Byte, inner: seq<Byte>, empty: bool, fl: DumpFlags, depth: nat): seq<Byte> {
    if empty then [open] else [open] + Indent(fl, depth + 1, false) + inner
  }

  lemma Closed(before: seq<Byte>, open: Byte, inner: seq<Byte>, empty: bool, fl: DumpFlags, depth: nat, close: Byte)
    ensures before + Opened(open, inner, empty, fl, depth) + [close]
         == before + (if empty then [open] + [close] else [open] + Indent(fl, depth + 1, false) + inner + [close])
  {
    hide Indent;
    var ws := Indent(fl, depth + 1, false);
    assert before + ([open] + ws + inner) + [close] == before + ([open] + ws + inner + [close]);
  }

  class Printer {
    /** What the callback collected. */
    var out: seq<Byte>
    const flags: DumpFlags

    constructor (fl: DumpFlags)
      ensures out == [] && flags == fl
    {
      out, flags := [], fl;
    }

    method Write(bytes: seq<Byte>)
      modifies this`out
      ensures out == old(out) + bytes
    {
      out := out + bytes;
    }

    /** `dump_indent` */
    method WriteIndent(depth: nat, space: bool)
      modifies this`out
      ensures out == old(out) + Indent(flags, depth, space)
    {
      if flags.indent > 0 {
        Write([0x0A]);
        for i := 0 to depth
          invariant out == old(out) + ([0x0A] + Spaces(i * flags.indent))
        {
          SpacesAdd(i * flags.indent, flags.indent);
          assert (i + 1) * flags.indent == i * flags.indent + flags.indent;
          Write(Spaces(flags.indent));
        }
      } else if space && !flags.compact {
        Write([0x20]);
      } else {
        assert out + [] == out;
      }
    }

    /** The inner loop of `dump_string`: from `start` on to the end or past a code point to escape. */
    method PassOver(str: seq<Byte>, start: nat) returns (ok: bool, pos: nat, end: nat, codepoint: int)
      requires start <= |str|
      ensures ok ==> start <= pos <= end <= |str| && (Valid(str[start..]) <==> Valid(str[end..]))
      ensures ok && end == pos ==> end == |str| && Body(str[start..], [], flags) == str[start..pos]
      ensures ok && end > pos ==>
                && JsonUtf8.Scalar(codepoint)
                && Body(str[start..], [], flags)
                    == str[start..pos] + EscapeText(codepoint) + Body(str[end..], [], flags)
      ensures !ok ==> Body(str[start..], [], flags) == [] && !Valid(str[start..])
    {
      hide Body, Valid, Iterate, Escaped, EscapeText;
      pos, end, codepoint := start, start, 0;
      assert str[start..pos] == [];
      while end < |str|
        invariant start <= pos == end <= |str|
        invariant Body(str[start..], [], flags) == Body(str[pos..], str[start..pos], flags)
        invariant Valid(str[start..]) <==> Valid(str[pos..])
        decreases |str| - pos
      {
        var first := Iterate(str[pos..]);
        OnePass(str, start, pos, flags);
        if first.Malformed? {
          return false, pos, end, codepoint;
        }
        codepoint := first.codepoint;
        end := pos + first.count;
        if Escaped(codepoint, flags) {
          return true, pos, end, codepoint;
        }
        pos := end;
      }
      LastPass(str, start, pos, flags);
      return true, pos, end, codepoint;
    }

    /** `dump_string`: passes over what needs no escape and writes it at once. */
    method WriteString(str: seq<Byte>) returns (ok: bool)
      modifies this`out
      ensures out == old(out) + DumpString(str, flags) && (ok <==> Valid(str))
    {
      hide Body, Valid, EscapeText, DumpString;
      DumpStringIs(str, flags);
      Write([QUOTE]);
      ghost var before, done := out, [];
      var start := 0;
      assert str[0..] == str && [] + Body(str, [], flags) == Body(str, [], flags);
      while true
        invariant start <= |str|
        invariant out == before + done && Body(str, [], flags) == done + Body(str[start..], [], flags)
        invariant Valid(str) <==> Valid(str[start..])
        decreases |str| - start
      {
        var passed, pos, end, codepoint := PassOver(str, start);
        if !passed {
          assert done + [] == done;
          Appended(old(out), [QUOTE], done, []);
          return false;
        }
        if pos != start {
          Write(str[start..pos]);
        } else {
          assert out + str[start..pos] == out;
        }
        ghost var was := done;
        Assoc(before, was, str[start..pos]);
        done := was + str[start..pos];
        if end == pos {
          LastPass(str, end, end, flags);
          break;
        }
        Write(EscapeText(codepoint));
        Assoc(before, done, EscapeText(codepoint));
        Appended(was, str[start..pos], EscapeText(codepoint), Body(str[end..], [], flags));
        done := done + EscapeText(codepoint);
        start := end;
      }
      Write([QUOTE]);
      Appended(old(out), [QUOTE], done, [QUOTE]);
      return true;
    }

    /** `do_dump`. On a failure marks of the enclosing arrays and objects may be cleared already. */
    method DoDump(c: Cell, depth: nat, ghost path: set<Cell>, ghost all: set<Cell>) returns (ok: bool)
      requires Graph(all) && c in all && Marked(all, path)
      modifies this`out, all`visited
      ensures ok <==> Tree(c, path, all).Some?
      ensures ok ==> Marked(all, path) && out == old(out) + Dump(Tree(c, path, all).value, flags, depth)
      ensures !ok ==> MarkedWithin(all, path)
      decreases all - path, 1
    {
      GraphMembers(c, all);
      hide Graph, Dump, Valid;
      match c.shape
      case Scalar(v) => ok := WriteScalar(v, depth);
      case ArrayOf(es) => ok := DumpArray(c, es, depth, path, all);
      case ObjectOf(ms) => ok := DumpObject(c, ms, depth, path, all);
    }

    /** Sets the mark of a cell. */
    method Enter(c: Cell, ghost path: set<Cell>, ghost all: set<Cell>)
      requires Marked(all, path) && c in all
      modifies c`visited
      ensures Marked(all, path + {c})
    {
      c.visited := true;
    }

    /** Clears the mark of a cell. */
    method Leave(c: Cell, ghost path: set<Cell>, ghost all: set<Cell>)
      requires c in all && (Marked(all, path) || Marked(all, path + {c}) || MarkedWithin(all, path + {c}))
      modifies c`visited
      ensures MarkedWithin(all, path)
      ensures c !in path && old(Marked(all, path + {c})) ==> Marked(all, path)
    {
      c.visited := false;
    }

    /** The case of `do_dump` for an array. */
    method DumpArray(c: Cell, es: seq<Cell>, depth: nat, ghost path: set<Cell>, ghost all: set<Cell>) returns (ok: bool)
      requires Graph(all) && c in all && Marked(all, path) && c.shape == ArrayOf(es)
      modifies this`out, all`visited
      ensures ok <==> Tree(c, path, all).Some?
      ensures ok ==> Marked(all, path) && out == old(out) + Dump(Tree(c, path, all).value, flags, depth)
      ensures !ok ==> MarkedWithin(all, path)
      decreases all - path, 0
    {
      TreeOfArray(c, path, all, flags, depth);
      hide Graph, Dump, Tree, Trees, Opened, Marked, MarkedWithin;
      MarkOf(c, path, all);
      if c.visited {
        Leave(c, path, all);
        return false;
      }
      Enter(c, path, all);
      ok := OpenArray(es, depth, path + {c}, all);
      Leave(c, path, all);
      if ok {
        ghost var vs := Trees(es, path + {c}, all).value;
        Write([0x5D]);
        Closed(old(out), 0x5B, DumpElems(vs, flags, depth), vs == [], flags, depth, 0x5D);
        ArrayText(vs, flags, depth);
      }
    }

    /** An array from the opening bracket on, without the closing one. */
    method OpenArray(es: seq<Cell>, depth: nat, ghost path: set<Cell>, ghost all: set<Cell>) returns (ok: bool)
      requires Graph(all) && Marked(all, path) && forall e | e in es :: e in all
      modifies this`out, all`visited
      ensures ok <==> Trees(es, path, all).Some?
      ensures ok ==> Marked(all, path)
      ensures ok ==> var vs := Trees(es, path, all).value;
                     out == old(out) + Opened(0x5B, DumpElems(vs, flags, depth), vs == [], flags, depth)
      ensures !ok ==> MarkedWithin(all, path)
      decreases all - path, 3
    {
      hide Graph, Tree, Trees, Marked, MarkedWithin, DumpElems, Indent;
      Write([0x5B]);
      if |es| == 0 {
        NoTrees(path, all);
        return true;
      }
      WriteIndent(depth + 1, false);
      ok := DumpElements(es, depth, path, all);
      if ok {
        assert out == old(out)
            + ([0x5B] + Indent(flags, depth + 1, false) + DumpElems(Trees(es, path, all).value, flags, depth));
      }
    }

    /** The case of `do_dump` for an object. */
    method DumpObject(c: Cell, ms: seq<Member>, depth: nat, ghost path: set<Cell>, ghost all: set<Cell>)
        returns (ok: bool)
      requires Graph(all) && c in all && Marked(all, path) && c.shape == ObjectOf(ms)
      modifies this`out, all`visited
      ensures ok <==> Tree(c, path, all).Some?
      ensures ok ==> Marked(all, path) && out == old(out) + Dump(Tree(c, path, all).value, flags, depth)
      ensures !ok ==> MarkedWithin(all, path)
      decreases all - path, 0
    {
      TreeOfObject(c, path, all);
      GraphMembers(c, all);
      hide Graph, Dump, Tree, TreeFields, Ordered, Opened, Marked, MarkedWithin;
      MarkOf(c, path, all);
      if c.visited {
        Leave(c, path, all);
        return false;
      }
      Enter(c, path, all);
      ok := OpenObject(ms, depth, path + {c}, all);
      Leave(c, path, all);
      if ok {
        ghost var fs := TreeFields(ms, path + {c}, all).value;
        Write([0x7D]);
        Closed(old(out), 0x7B, FieldsText(Ordered(fs, flags), flags, depth), fs == [], flags, depth, 0x7D);
        ObjectText(fs, flags, depth);
      }
    }

    /** An object from the opening brace on, without the closing one. */
    method OpenObject(ms: seq<Member>, depth: nat, ghost path: set<Cell>, ghost all: set<Cell>) returns (ok: bool)
      requires Graph(all) && Marked(all, path) && DistinctMembers(ms) && forall m | m in ms :: m.cell in all
      modifies this`out, all`visited
      ensures ok <==> TreeFields(ms, path, all).Some?
      ensures ok ==> Marked(all, path)
      ensures ok ==> var fs := TreeFields(ms, path, all).value;
                     out == old(out) + Opened(0x7B, FieldsText(Ordered(fs, flags), flags, depth), fs == [], flags,
                         depth)
      ensures !ok ==> MarkedWithin(all, path)
      decreases all - path, 4
    {
      hide Graph, Tree, TreeFields, Marked, MarkedWithin, FieldsText, Indent, Ordered;
      Write([0x7B]);
      if |ms| == 0 {
        NoTrees(path, all);
        return true;
      }
      WriteIndent(depth + 1, false);
      ok := DumpMembers(ms, depth, path, all);
      if ok {
        assert out == old(out)
            + ([0x7B] + Indent(flags, depth + 1, false)
            + FieldsText(Ordered(TreeFields(ms, path, all).value, flags), flags, depth));
      }
    }

    /** The loops of `do_dump` over an object: in the order of the sorted keys, which are looked up one
        by one, or in the order of the iterator. */
    method DumpMembers(ms: seq<Member>, depth: nat, ghost path: set<Cell>, ghost all: set<Cell>) returns (ok: bool)
      requires Graph(all) && Marked(all, path) && DistinctMembers(ms) && forall m | m in ms :: m.cell in all
      modifies this`out, all`visited
      ensures ok <==> TreeFields(ms, path, all).Some?
      ensures ok ==>
          Marked(all, path)
          && out == old(out) + FieldsText(Ordered(TreeFields(ms, path, all).value, flags), flags, depth)
      ensures !ok ==> MarkedWithin(all, path)
      decreases all - path, 3
    {
      hide TreeFields, Tree, FieldsText, FieldText, Dump, Graph, FieldsLeft, Marked, MarkedWithin, Ordered, SortKeys,
          SortMembers, Lookup, KeysOf;
      ghost var os := MembersInOrder(ms, flags);
      OrderedTreeFields(ms, flags, path, all);
      OrderedInGraph(ms, flags, all);
      AllFieldsLeft(os, path, all, out, flags, depth);
      if flags.sortKeys || flags.preserveOrder {
        var keys := SortKeys(KeysOf(ms), flags);
        for i := 0 to |ms|
          invariant Marked(all, path) && FieldsLeft(os, i, path, all, old(out), out, flags, depth)
        {
          SortedLookup(ms, flags, i);
          var member := Lookup(ms, keys[i].key).value;
          ok := DumpMember(member, os, i, i == |ms| - 1, depth, path, all, old(out));
          if !ok {
            return false;
          }
        }
      } else {
        for i := 0 to |ms|
          invariant Marked(all, path) && FieldsLeft(os, i, path, all, old(out), out, flags, depth)
        {
          ok := DumpMember(ms[i], os, i, i == |ms| - 1, depth, path, all, old(out));
          if !ok {
            return false;
          }
        }
      }
      NoFieldsLeft(os, path, all, old(out), out, flags, depth);
      return true;
    }

    /** One round of either loop. What `dump_string` says about the key is ignored. */
    method DumpMember(m: Member, ghost os: seq<Member>, ghost i: nat, last: bool, depth: nat, ghost path: set<Cell>,
        ghost all: set<Cell>, ghost before: seq<Byte>) returns (ok: bool)
      requires Graph(all) && Marked(all, path) && (forall a | a in os :: a.cell in all) && i < |os| && os[i] == m
          && last == (i == |os| - 1)
      requires FieldsLeft(os, i, path, all, before, out, flags, depth)
      modifies this`out, all`visited
      ensures ok ==> Marked(all, path) && FieldsLeft(os, i + 1, path, all, before, out, flags, depth)
      ensures !ok ==> MarkedWithin(all, path) && TreeFields(os, path, all).None?
      decreases all - path, 2
    {
      hide TreeFields, Tree, FieldsText, Dump, Graph, FieldsLeft, Marked, MarkedWithin, DumpString;
      ghost var start := out;
      var ignored := WriteString(m.key);
      Write(Separator(flags));
      ok := DoDump(m.cell, depth + 1, path, all);
      if !ok {
        FieldFails(os, i, path, all, before, start, flags, depth);
        return false;
      }
      if !last {
        Write([0x2C]);
        WriteIndent(depth + 1, true);
      } else {
        WriteIndent(depth, false);
      }
      MemberText(m, Tree(m.cell, path, all).value, last, flags, depth, start, out);
      FieldDone(os, i, path, all, before, start, flags, depth, out);
      return true;
    }

    /** The loop of `do_dump` over an array. */
    method DumpElements(es: seq<Cell>, depth: nat, ghost path: set<Cell>, ghost all: set<Cell>) returns (ok: bool)
      requires Graph(all) && Marked(all, path) && forall e | e in es :: e in all
      modifies this`out, all`visited
      ensures ok <==> Trees(es, path, all).Some?
      ensures ok ==> Marked(all, path) && out == old(out) + DumpElems(Trees(es, path, all).value, flags, depth)
      ensures !ok ==> MarkedWithin(all, path)
      decreases all - path, 2
    {
      hide Trees, Tree, DumpElems, Dump, Graph, ElemsLeft, Marked, MarkedWithin;
      AllElemsLeft(es, path, all, out, flags, depth);
      for i := 0 to |es|
        invariant Marked(all, path) && ElemsLeft(es, i, path, all, old(out), out, flags, depth)
      {
        ghost var before := out;
        ok := DoDump(es[i], depth + 1, path, all);
        if !ok {
          ElemFails(es, i, path, all, old(out), before, flags, depth);
          return false;
        }
        if i < |es| - 1 {
          Write([0x2C]);
          WriteIndent(depth + 1, true);
        } else {
          WriteIndent(depth, false);
        }
        assert out == before + Dump(Tree(es[i], path, all).value, flags, depth + 1)
            + ElemEnd(i == |es| - 1, flags, depth);
        ElemDone(es, i, path, all, old(out), before, flags, depth, out);
      }
      NoElemsLeft(es, path, all, old(out), out, flags, depth);
      return true;
    }

    method WriteScalar(v: Json, depth: nat) returns (ok: bool)
      requires !v.Arr? && !v.Obj?
      modifies this`out
      ensures ok <==> !(v.Str? && !Valid(v.bytes))
      ensures ok ==> out == old(out) + Dump(v, flags, depth)
    {
      match v
      case Null => Write([0x6E, 0x75, 0x6C, 0x6C]); ok := true;
      case True => Write([0x74, 0x72, 0x75, 0x65]); ok := true;
      case False => Write([0x66, 0x61, 0x6C, 0x73, 0x65]); ok := true;
      case Integer(i) => Write(DumpInteger(i)); ok := true;
      case Real(text) => Write(text); ok := true;
      case Str(bytes) => ok := WriteString(bytes);
    }
  }

  lemma DumpStringIs(s: seq<Byte>, fl: DumpFlags)
    ensures DumpString(s, fl) == [QUOTE] + Body(s, [], fl) + (if Valid(s) then [QUOTE] else [])
  {
  }

  /** One code point of the inner loop of `dump_string`. */
  lemma OnePass(str: seq<Byte>, start: nat, pos: nat, fl: DumpFlags)
    requires start <= pos < |str|
    ensures !Iterate(str[pos..]).Nothing?
    ensures Iterate(str[pos..]).Malformed? ==> Body(str[pos..], str[start..pos], fl) == [] && !Valid(str[pos..])
    ensures Iterate(str[pos..]).Char? ==>
              var (cp, end) := (Iterate(str[pos..]).codepoint, pos + Iterate(str[pos..]).count);
              && pos < end <= |str| && JsonUtf8.Scalar(cp)
              && (Valid(str[pos..]) <==> Valid(str[end..]))
              && Body(str[pos..], str[start..pos], fl) ==
                   if Escaped(cp, fl) then str[start..pos] + EscapeText(cp) + Body(str[end..], [], fl)
                   else Body(str[end..], str[start..end], fl)
  {
    var s := str[pos..];
    if Iterate(s).Char? {
      var cp, count := Iterate(s).codepoint, Iterate(s).count;
      IterateIffEncode(s, cp, count);
      assert s[count..] == str[pos + count..] && str[start..pos] + s[..count] == str[start..pos + count];
    }
  }

  lemma LastPass(str: seq<Byte>, start: nat, pos: nat, fl: DumpFlags)
    requires start <= pos <= |str|
    ensures pos == |str| ==> Body(str[pos..], str[start..pos], fl) == str[start..pos] && Valid(str[pos..])
  {
  }

  lemma {:induction false} SpacesAdd(a: nat, b: nat)
    ensures Spaces(a + b) == Spaces(a) + Spaces(b)
  {
    if b > 0 {
      SpacesAdd(a, b - 1);
    }
  }
}
