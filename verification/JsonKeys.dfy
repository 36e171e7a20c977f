/**
 Which values are read back as they were printed. The printer ignores what it is told about a key that
 is not UTF-8 (libjansson/jansson-2.7/src/dump.c:349 and 387), and such keys can be set without a check
 (libjansson/jansson-2.7/src/value.c:104): the text then has a key that is never closed, which the
 loader refuses or takes for something else.
 */
module JsonKeys {

  import opened JsonUtf8
  import opened JsonString
  import opened JsonValue
  import opened JsonParser
  import opened JsonRoundTrip
  import opened JsonTheorems
  import opened JsonAccepted
  import opened JsonDump
  import opened JsonCycles

  /** All numbers are 64-bit integers. */
  ghost predicate Integers(all: set<Cell>)
    reads all`shape
  {
    forall c | c in all && c.shape.Scalar? ::
      match c.shape.value
      case Integer(i) => INT_MIN <= i <= INT_MAX
      case Real(_) => false
      case _ => true
  }

  predicate GoodKey(key: seq<Byte>) {
    Valid(key) && 0 !in key
  }

  /** What a caller can check of an object before printing it. */
  ghost predicate GoodKeys(c: Cell)
    reads c`shape
  {
    c.shape.ObjectOf? ==> forall m | m in c.shape.members :: GoodKey(m.key)
  }

  /** Every object that can be reached has good keys. */
  ghost predicate GoodKeysBelow(c: Cell, all: set<Cell>)
    reads all`shape
  {
    forall p | Walk(p, all) && p[0] == c :: GoodKeys(p[|p| - 1])
  }

  // ---- The tree of a graph, node by node ----

  lemma {:induction false} TreesAt(cs: seq<Cell>, path: set<Cell>, all: set<Cell>, i: nat)
    requires Graph(all) && (forall c | c in cs :: c in all) && Trees(cs, path, all).Some? && i < |cs|
    ensures Tree(cs[i], path, all) == Some(Trees(cs, path, all).value[i])
  {
    if i > 0 {
      assert forall c | c in cs[1..] :: c in cs;
      TreesAt(cs[1..], path, all, i - 1);
    }
  }

  lemma {:induction false} TreeFieldsAt(ms: seq<Member>, path: set<Cell>, all: set<Cell>, i: nat)
    requires Graph(all) && (forall m | m in ms :: m.cell in all) && TreeFields(ms, path, all).Some? && i < |ms|
    ensures Tree(ms[i].cell, path, all).Some?
    ensures TreeFields(ms, path, all).value[i] == Field(ms[i].key, ms[i].serial, Tree(ms[i].cell, path, all).value)
  {
    if i > 0 {
      assert forall m | m in ms[1..] :: m in ms;
      TreeFieldsAt(ms[1..], path, all, i - 1);
    }
  }

  /** The parts of the tree of an array. */
  lemma ArrayParts(c: Cell, path: set<Cell>, all: set<Cell>)
    requires Graph(all) && c in all && c.shape.ArrayOf? && Tree(c, path, all).Some?
    ensures c !in path && Tree(c, path, all).value.Arr? && forall e | e in c.shape.elems :: e in all
    ensures var vs := Tree(c, path, all).value.elems;
            && |vs| == |c.shape.elems|
            && forall i | 0 <= i < |vs| :: Tree(c.shape.elems[i], path + {c}, all) == Some(vs[i])
  {
    GraphMembers(c, all);
    var es := c.shape.elems;
    var vs := Trees(es, path + {c}, all);
    forall i | 0 <= i < |es|
      ensures Tree(es[i], path + {c}, all) == Some(vs.value[i])
    {
      TreesAt(es, path + {c}, all, i);
    }
  }

  /** The parts of the tree of an object. */
  lemma ObjectParts(c: Cell, path: set<Cell>, all: set<Cell>)
    requires Graph(all) && c in all && c.shape.ObjectOf? && Tree(c, path, all).Some?
    ensures c !in path && Tree(c, path, all).value.Obj? && forall m | m in c.shape.members :: m.cell in all
    ensures var fs := Tree(c, path, all).value.fields;
            && |fs| == |c.shape.members|
            && forall i | 0 <= i < |fs| ::
                 && fs[i].key == c.shape.members[i].key
                 && Tree(c.shape.members[i].cell, path + {c}, all) == Some(fs[i].value)
  {
    GraphMembers(c, all);
    TreeOfObject(c, path, all);
    var ms := c.shape.members;
    var fs := TreeFields(ms, path + {c}, all);
    forall i | 0 <= i < |ms|
      ensures Tree(ms[i].cell, path + {c}, all).Some?
      ensures fs.value[i] == Field(ms[i].key, ms[i].serial, Tree(ms[i].cell, path + {c}, all).value)
    {
      TreeFieldsAt(ms, path + {c}, all, i);
    }
  }

  /** What is printed of a graph of integers and strings has distinct keys and no reals. */
  lemma {:induction false} TreeIsPlain(c: Cell, path: set<Cell>, all: set<Cell>)
    requires Graph(all) && Integers(all) && c in all && Tree(c, path, all).Some?
    ensures NoReals(Tree(c, path, all).value) && KeysDistinct(Tree(c, path, all).value)
    decreases all - path
  {
    var v := Tree(c, path, all).value;
    hide Tree, Valid;
    match c.shape
    case Scalar(_) => ScalarTree(c, path, all);
    case ArrayOf(es) =>
      ArrayParts(c, path, all);
      forall i | 0 <= i < |v.elems|
        ensures NoReals(v.elems[i]) && KeysDistinct(v.elems[i])
      {
        TreeIsPlain(es[i], path + {c}, all);
      }
    case ObjectOf(ms) =>
      ObjectParts(c, path, all);
      forall i | 0 <= i < |v.fields|
        ensures NoReals(v.fields[i].value) && KeysDistinct(v.fields[i].value)
      {
        TreeIsPlain(ms[i].cell, path + {c}, all);
      }
      assert DistinctMembers(ms);
  }

  lemma ScalarTree(c: Cell, path: set<Cell>, all: set<Cell>)
    requires Graph(all) && c in all && c.shape.Scalar? && Tree(c, path, all).Some?
    ensures Tree(c, path, all).value == c.shape.value && !c.shape.value.Arr? && !c.shape.value.Obj?
    ensures c.shape.value.Str? ==> Valid(c.shape.value.bytes)
  {
  }

  lemma GoodScalar(c: Cell, path: set<Cell>, all: set<Cell>)
    requires Graph(all) && Integers(all) && c in all && c.shape.Scalar? && Tree(c, path, all).Some?
    ensures Proper(Tree(c, path, all).value)
  {
    ScalarTree(c, path, all);
  }

  /** A tree is proper if its parts are and its own keys are good. */
  lemma GoodParts(c: Cell, path: set<Cell>, all: set<Cell>)
    requires Graph(all) && c in all && !c.shape.Scalar? && Tree(c, path, all).Some? && GoodKeys(c)
    requires forall d | d in Children(c) :: d in all
    requires forall d | d in Children(c) ::
        Tree(d, path + {c}, all).Some? && Proper(Tree(d, path + {c}, all).value)
    ensures Proper(Tree(c, path, all).value)
  {
    var v := Tree(c, path, all).value;
    hide Tree, Valid;
    if c.shape.ArrayOf? {
      ArrayParts(c, path, all);
      assert forall i | 0 <= i < |v.elems| :: c.shape.elems[i] in Children(c);
    } else {
      var ms := c.shape.members;
      ObjectParts(c, path, all);
      CellsIn(ms);
      assert DistinctMembers(ms);
      forall i | 0 <= i < |v.fields|
        ensures GoodKey(v.fields[i].key) && Proper(v.fields[i].value)
      {
        assert ms[i] in ms && Cells(ms)[i] in Children(c);
      }
    }
  }

  /** A tree is proper if the keys are good all the way down. */
  lemma {:induction false} GoodTree(c: Cell, path: set<Cell>, all: set<Cell>)
    requires Graph(all) && Integers(all) && c in all && Tree(c, path, all).Some? && GoodKeysBelow(c, all)
    ensures Proper(Tree(c, path, all).value)
    decreases all - path
  {
    assert Walk([c], all) && GoodKeys(c);
    hide Tree, Walk, GoodKeysBelow, GoodKeys, Proper, Graph;
    if c.shape.Scalar? {
      GoodScalar(c, path, all);
    } else {
      forall d | d in Children(c)
        ensures d in all && Tree(d, path + {c}, all).Some? && Proper(Tree(d, path + {c}, all).value)
      {
        ChildTree(c, d, path, all);
        GoodChild(c, d, all);
        GoodTree(d, path + {c}, all);
      }
      GoodParts(c, path, all);
    }
  }

  lemma GoodChild(c: Cell, d: Cell, all: set<Cell>)
    requires c in all && d in Children(c) && GoodKeysBelow(c, all)
    ensures GoodKeysBelow(d, all)
  {
    forall p | Walk(p, all) && p[0] == d
      ensures GoodKeys(p[|p| - 1])
    {
      var q := [c] + p;
      assert Walk(q, all) && q[|q| - 1] == p[|p| - 1];
    }
  }

  /** If a tree is proper, the keys are good all the way down. */
  lemma {:induction false} ProperTree(p: seq<Cell>, path: set<Cell>, all: set<Cell>)
    requires Graph(all) && Walk(p, all) && Tree(p[0], path, all).Some? && Proper(Tree(p[0], path, all).value)
    ensures GoodKeys(p[|p| - 1])
    decreases |p|
  {
    var c := p[0];
    hide Tree;
    if |p| == 1 {
      if c.shape.ObjectOf? {
        ObjectParts(c, path, all);
        forall m | m in c.shape.members
          ensures GoodKey(m.key)
        {
          var i :| 0 <= i < |c.shape.members| && c.shape.members[i] == m;
          assert Tree(c, path, all).value.fields[i].key == m.key;
        }
      }
    } else {
      ProperChild(c, p[1], path, all);
      ProperTree(p[1..], path + {c}, all);
    }
  }

  lemma ProperChild(c: Cell, d: Cell, path: set<Cell>, all: set<Cell>)
    requires Graph(all) && c in all && d in Children(c)
    requires Tree(c, path, all).Some? && Proper(Tree(c, path, all).value)
    ensures d in all && Tree(d, path + {c}, all).Some? && Proper(Tree(d, path + {c}, all).value)
  {
    var v := Tree(c, path, all).value;
    hide Tree;
    match c.shape
    case ArrayOf(es) =>
      ArrayParts(c, path, all);
      var i :| 0 <= i < |es| && es[i] == d;
      assert Proper(v.elems[i]);
    case ObjectOf(ms) =>
      ObjectParts(c, path, all);
      CellsIn(ms);
      var i :| 0 <= i < |Cells(ms)| && Cells(ms)[i] == d;
      assert ms[i].cell == d && Proper(v.fields[i].value);
  }

  lemma ProperIff(c: Cell, all: set<Cell>)
    requires Graph(all) && Integers(all) && c in all && Tree(c, {}, all).Some?
    ensures Proper(Tree(c, {}, all).value) <==> GoodKeysBelow(c, all)
  {
    if GoodKeysBelow(c, all) {
      GoodTree(c, {}, all);
    } else if Proper(Tree(c, {}, all).value) {
      forall p | Walk(p, all) && p[0] == c
        ensures GoodKeys(p[|p| - 1])
      {
        ProperTree(p, {}, all);
      }
    }
  }

  /** Exactly when what was printed with success is read back as an equal value: every object that can
      be reached has keys in UTF-8 without NUL, and the flags of the loader let the value in. */
  lemma PrintedReadsIff(c: Cell, all: set<Cell>, fl: DumpFlags, pf: ParseFlags)
    requires Graph(all) && Integers(all) && c in all && Tree(c, {}, all).Some?
    ensures var v := Tree(c, {}, all).value;
            var r := LoadBuffer(Dump(v, fl, 0), pf);
            r.Some? && Equal(v, r.value) <==> GoodKeysBelow(c, all) && Loads(v, pf)
  {
    ProperIff(c, all);
    TreeIsPlain(c, {}, all);
    ReadsBackIff(Tree(c, {}, all).value, fl, pf);
  }

  // ---- A value taken for another ----

  /** A byte that is written as it is. */
  predicate IsPlain(b: Byte) {
    0x20 <= b < 0x7F && b != QUOTE && b != BACKSLASH && b != SLASH
  }

  lemma {:induction false} PlainText(s: seq<Byte>, fl: DumpFlags)
    requires forall b | b in s :: IsPlain(b)
    ensures Valid(s) && Body(s, [], fl) == s
  {
    if s != [] {
      assert s[0] in s && forall b | b in s[1..] :: b in s;
      PlainText(s[1..], fl);
      BodyRun(s[1..], [s[0]], fl);
      assert s[..1] == [s[0]] && [] + s[..1] == [s[0]] && s == [s[0]] + s[1..];
    }
  }

  /** What the loader takes for the key: the text between the two quotes that open the keys. */
  function Between(i: int): seq<Byte> {
    [0x3A] + DumpInteger(i) + [0x2C]
  }

  lemma BetweenIsPlain(i: int)
    ensures forall b | b in Between(i) :: IsPlain(b)
  {
  }

  lemma CompactField(f: Field, last: bool, fl: DumpFlags)
    requires fl.compact && fl.indent == 0
    ensures FieldText(f, last, fl, 0)
         == DumpString(f.key, fl) + [0x3A] + Dump(f.value, fl, 1) + if last then [] else [0x2C]
  {
    hide Dump, DumpString;
    assert [0x2C] + [] == [0x2C];
  }

  /** The text of an object with two members in compact form. */
  lemma TwoMembers(f: Field, g: Field, fl: DumpFlags)
    requires fl.compact && fl.indent == 0 && !fl.sortKeys && !fl.preserveOrder
    ensures Dump(Obj([f, g]), fl, 0)
         == [0x7B] + (FieldText(f, false, fl, 0) + FieldText(g, true, fl, 0)) + [0x7D]
  {
    var fs := [f, g];
    ObjectText(fs, fl, 0);
    assert Ordered(fs, fl) == fs && [0x7B] + Indent(fl, 1, false) == [0x7B];
    hide Dump, FieldText, Ordered, Indent;
    assert fs[1..] == [g] && [g][1..] == [];
    assert FieldsText([g], fl, 0) == FieldText(g, true, fl, 0) + [];
    assert FieldsText(fs, fl, 0) == FieldText(f, false, fl, 0) + FieldsText([g], fl, 0);
  }

  lemma OneMemberText(f: Field, fl: DumpFlags)
    requires fl.compact && fl.indent == 0 && !fl.sortKeys && !fl.preserveOrder
    ensures Dump(Obj([f]), fl, 0) == [0x7B] + FieldText(f, true, fl, 0) + [0x7D]
  {
    ObjectText([f], fl, 0);
    hide Dump, FieldText;
    assert [f][1..] == [];
    assert FieldsText([f], fl, 0) == FieldText(f, true, fl, 0) + [];
  }

  /** An object with two bad keys has the same text as another object with one good key. */
  lemma SameText(k: seq<Byte>, l: seq<Byte>, i: int, j: int, fl: DumpFlags)
    requires fl.compact && fl.indent == 0 && !fl.sortKeys && !fl.preserveOrder
    requires Iterate(k) == Malformed && Iterate(l) == Malformed
    ensures Dump(Obj([Field(k, 0, Integer(i)), Field(l, 1, Integer(j))]), fl, 0)
         == Dump(Obj([Field(Between(i), 0, Integer(j))]), fl, 0)
  {
    BetweenIsPlain(i);
    PlainText(Between(i), fl);
    var f, g, h := Field(k, 0, Integer(i)), Field(l, 1, Integer(j)), Field(Between(i), 0, Integer(j));
    TwoMembers(f, g, fl);
    OneMemberText(h, fl);
    CompactField(f, false, fl);
    CompactField(g, true, fl);
    CompactField(h, true, fl);
    assert DumpString(k, fl) == [QUOTE] && DumpString(l, fl) == [QUOTE];
    assert DumpString(Between(i), fl) == [QUOTE] + Between(i) + [QUOTE];
    assert Between(i) == [0x3A] + DumpInteger(i) + [0x2C];
    IntegerText(i, fl);
    hide *;
    Regrouped(DumpInteger(i), Dump(Integer(j), fl, 1));
  }

  lemma IntegerText(i: int, fl: DumpFlags)
    ensures Dump(Integer(i), fl, 1) == DumpInteger(i)
  {
  }

  lemma Regrouped(a: seq<Byte>, b: seq<Byte>)
    ensures [0x7B] + ([QUOTE] + [0x3A] + a + [0x2C] + ([QUOTE] + [0x3A] + b + [])) + [0x7D]
         == [0x7B] + ([QUOTE] + ([0x3A] + a + [0x2C]) + [QUOTE] + [0x3A] + b + []) + [0x7D]
  {
  }

  /** An object with two bad keys (the bytes 0xFF and 0xFE, say) is printed with success, and whatever its
      flags the loader reads another object from the text: `{":1,":2}` has the one key `:1,`. */
  lemma BadKeysAreMisread(c: Cell, d: Cell, e: Cell, k: seq<Byte>, l: seq<Byte>, i: int, j: int, all: set<Cell>,
      fl: DumpFlags, pf: ParseFlags)
    requires fl.compact && fl.indent == 0 && !fl.sortKeys && !fl.preserveOrder
    requires Graph(all) && c in all && c.shape == ObjectOf([Member(k, 0, d), Member(l, 1, e)])
    requires d.shape == Scalar(Integer(i)) && e.shape == Scalar(Integer(j)) && INT_MIN <= j <= INT_MAX
    requires Iterate(k) == Malformed && Iterate(l) == Malformed
    ensures Iterate([0xFF]) == Malformed && Iterate([0xFE]) == Malformed
    ensures var v := Obj([Field(k, 0, Integer(i)), Field(l, 1, Integer(j))]);
            && Tree(c, {}, all) == Some(v)
            && LoadBuffer(Dump(v, fl, 0), pf) == Some(Obj([Field(Between(i), 0, Integer(j))]))
  {
    TwoMemberTree(c, d, e, k, l, i, j, all);
    SameText(k, l, i, j, fl);
    ReadsOneMember(i, j, fl, pf);
  }

  lemma ReadsOneMember(i: int, j: int, fl: DumpFlags, pf: ParseFlags)
    requires INT_MIN <= j <= INT_MAX && !fl.sortKeys && !fl.preserveOrder
    ensures var w := Obj([Field(Between(i), 0, Integer(j))]); LoadBuffer(Dump(w, fl, 0), pf) == Some(w)
  {
    var fs := [Field(Between(i), 0, Integer(j))];
    BetweenIsPlain(i);
    PlainText(Between(i), fl);
    assert 0 !in Between(i);
    assert NulFree(Integer(j));
    assert NulFree(Obj(fs)) && Admits(Obj(fs), pf);
    assert Proper(Obj(fs));
    assert Loads(Obj(fs), pf);
    JsonRoundTrips(Obj(fs), fl, pf, []);
    assert Ordered(fs, fl) == fs;
    hide Dump, LoadBuffer, Proper, Loads, Ordered, Between;
    NormalObject(fs, fl);
    NormalFieldsCons(Obj(fs), fs, fl, 0);
    assert Normal(Integer(j), fl) == Integer(j);
  }

  lemma TreeFieldsCons(ms: seq<Member>, path: set<Cell>, all: set<Cell>)
    requires Graph(all) && ms != [] && forall m | m in ms :: m.cell in all
    requires Tree(ms[0].cell, path, all).Some? && TreeFields(ms[1..], path, all).Some?
    ensures TreeFields(ms, path, all)
         == Some([Field(ms[0].key, ms[0].serial, Tree(ms[0].cell, path, all).value)]
                 + TreeFields(ms[1..], path, all).value)
  {
  }

  lemma TwoMemberTree(c: Cell, d: Cell, e: Cell, k: seq<Byte>, l: seq<Byte>, i: int, j: int, all: set<Cell>)
    requires Graph(all) && c in all && c.shape == ObjectOf([Member(k, 0, d), Member(l, 1, e)])
    requires d.shape == Scalar(Integer(i)) && e.shape == Scalar(Integer(j))
    ensures Tree(c, {}, all) == Some(Obj([Field(k, 0, Integer(i)), Field(l, 1, Integer(j))]))
  {
    var ms := [Member(k, 0, d), Member(l, 1, e)];
    var path := {} + {c};
    GraphMembers(c, all);
    TreeOfObject(c, {}, all);
    assert ms[0].cell in all && ms[1].cell in all && ms[1..] == [ms[1]] && [ms[1]][1..] == [];
    assert Tree(d, path, all) == Some(Integer(i)) && Tree(e, path, all) == Some(Integer(j));
    NoTrees(path, all);
    hide Tree, TreeFields;
    TreeFieldsCons([ms[1]], path, all);
    TreeFieldsCons(ms, path, all);
    var f, g := Field(k, 0, Integer(i)), Field(l, 1, Integer(j));
    assert [f] + ([g] + []) == [f, g];
    assert TreeFields(ms, path, all) == Some([f, g]);
  }
}
