/**
 When libjansson/jansson-2.7/src/dump.c fails: exactly when a loop, or a string that is not UTF-8, can be
 reached from the value.
 */
module JsonCycles {

  import opened JsonUtf8
  import opened JsonString
  import opened JsonValue
  import opened JsonParser
  import opened JsonRoundTrip
  import opened JsonTheorems
  import opened JsonDump

  /** A string that is not UTF-8. */
  ghost predicate BadString(c: Cell)
    reads c`shape
  {
    c.shape.Scalar? && c.shape.value.Str? && !Valid(c.shape.value.bytes)
  }

  ghost predicate Utf8Strings(all: set<Cell>)
    reads all`shape
  {
    forall c | c in all :: !BadString(c)
  }

  /** A way through the graph, from a value to one that it holds, and so on. */
  ghost predicate Walk(older p: seq<Cell>, all: set<Cell>)
    reads all`shape
  {
    && p != [] && (forall i | 0 <= i < |p| :: p[i] in all)
    && forall i | 0 <= i < |p| - 1 :: p[i + 1] in Children(p[i])
  }

  /** A way that ends where it has been before. */
  ghost predicate Loops(p: seq<Cell>, all: set<Cell>)
    reads all`shape
  {
    Walk(p, all) && exists i | 0 <= i < |p| - 1 :: p[i] == p[|p| - 1]
  }

  lemma ChildTree(c: Cell, d: Cell, path: set<Cell>, all: set<Cell>)
    requires Graph(all) && c in all && d in Children(c) && Tree(c, path, all).Some?
    ensures c !in path && d in all && Tree(d, path + {c}, all).Some?
  {
    GraphMembers(c, all);
    match c.shape
    case ArrayOf(es) => TreesIff(es, path + {c}, all);
    case ObjectOf(ms) =>
      CellsIn(ms);
      TreeFieldsIff(ms, path + {c}, all);
      var i :| 0 <= i < |Cells(ms)| && Cells(ms)[i] == d;
      assert ms[i] in ms && ms[i].cell == d;
  }

  lemma {:induction false} TreesIff(cs: seq<Cell>, path: set<Cell>, all: set<Cell>)
    requires Graph(all) && forall c | c in cs :: c in all
    ensures Trees(cs, path, all).Some? <==> forall c | c in cs :: Tree(c, path, all).Some?
  {
    if cs != [] {
      TreesIff(cs[1..], path, all);
      assert forall c | c in cs[1..] :: c in cs;
      assert forall c | c in cs :: c == cs[0] || c in cs[1..];
    }
  }

  /** Where printing succeeds, a way never comes back to a value that is being printed. */
  lemma {:induction false} NeverBack(p: seq<Cell>, path: set<Cell>, all: set<Cell>)
    requires Graph(all) && Walk(p, all) && Tree(p[0], path, all).Some?
    ensures forall k | 0 <= k < |p| && Children(p[k]) != [] :: p[k] !in path
    decreases |p|
  {
    if Children(p[0]) != [] {
      ChildTree(p[0], Children(p[0])[0], path, all);
    }
    if |p| > 1 {
      ChildTree(p[0], p[1], path, all);
      NeverBack(p[1..], path + {p[0]}, all);
      assert forall k | 1 <= k < |p| :: p[k] == p[1..][k - 1];
    }
  }

  lemma {:induction false} NoLoop(p: seq<Cell>, i: nat, path: set<Cell>, all: set<Cell>)
    requires Graph(all) && Walk(p, all) && Tree(p[0], path, all).Some? && i < |p| - 1
    ensures p[i] != p[|p| - 1]
    decreases |p|
  {
    ChildTree(p[0], p[1], path, all);
    if i == 0 {
      NeverBack(p[1..], path + {p[0]}, all);
      assert p[1..][|p| - 2] == p[|p| - 1];
    } else {
      NoLoop(p[1..], i - 1, path + {p[0]}, all);
    }
  }

  /** Printing fails on a value from which a loop can be reached. */
  lemma LoopFails(p: seq<Cell>, all: set<Cell>)
    requires Graph(all) && Loops(p, all)
    ensures Tree(p[0], {}, all).None?
  {
    if Tree(p[0], {}, all).Some? {
      var i :| 0 <= i < |p| - 1 && p[i] == p[|p| - 1];
      NoLoop(p, i, {}, all);
    }
  }

  /** Where printing succeeds, no way leads to a string that is not UTF-8. */
  lemma {:induction false} NoBadString(p: seq<Cell>, path: set<Cell>, all: set<Cell>)
    requires Graph(all) && Walk(p, all) && Tree(p[0], path, all).Some?
    ensures !BadString(p[|p| - 1])
    decreases |p|
  {
    if |p| > 1 {
      ChildTree(p[0], p[1], path, all);
      NoBadString(p[1..], path + {p[0]}, all);
    }
  }

  /** A child on which printing fails. */
  lemma FailingChild(c: Cell, path: set<Cell>, all: set<Cell>) returns (d: Cell)
    requires Graph(all) && c in all && c !in path && Tree(c, path, all).None? && !BadString(c)
    ensures d in Children(c) && d in all && Tree(d, path + {c}, all).None?
  {
    GraphMembers(c, all);
    match c.shape
    case ArrayOf(es) =>
      TreesIff(es, path + {c}, all);
      d :| d in es && Tree(d, path + {c}, all).None?;
    case ObjectOf(ms) =>
      CellsIn(ms);
      TreeFieldsIff(ms, path + {c}, all);
      var m :| m in ms && Tree(m.cell, path + {c}, all).None?;
      d := m.cell;
  }

  /** Where printing fails, there is a way back to what is being printed, or a loop, or a bad string. */
  lemma WayBack(c: Cell, path: set<Cell>, all: set<Cell>) returns (p: seq<Cell>)
    requires Graph(all) && c in all && Tree(c, path, all).None?
    ensures Walk(p, all) && p[0] == c
    ensures p[|p| - 1] in path || Loops(p, all) || BadString(p[|p| - 1])
    decreases all - path
  {
    if c in path || BadString(c) {
      p := [c];
    } else {
      var d := FailingChild(c, path, all);
      var q := WayBack(d, path + {c}, all);
      p := [c] + q;
      assert p[|p| - 1] == q[|q| - 1];
      if Loops(q, all) {
        var i :| 0 <= i < |q| - 1 && q[i] == q[|q| - 1];
        assert p[i + 1] == p[|p| - 1];
      } else if q[|q| - 1] == c {
        assert p[0] == p[|p| - 1];
      }
    }
  }

  /** If printing fails, some loop can be reached. */
  lemma FailureLoops(c: Cell, all: set<Cell>) returns (p: seq<Cell>)
    requires Graph(all) && Utf8Strings(all) && c in all && Tree(c, {}, all).None?
    ensures p != [] && p[0] == c && Loops(p, all)
  {
    p := WayBack(c, {}, all);
  }

  /** A loop, or a string that is not UTF-8, can be reached. */
  ghost predicate Unprintable(c: Cell, all: set<Cell>)
    reads all`shape
  {
    exists p :: Walk(p, all) && p[0] == c && (Loops(p, all) || BadString(p[|p| - 1]))
  }

  /** Exactly when printing fails. */
  lemma FailsIff(c: Cell, all: set<Cell>)
    requires Graph(all) && c in all
    ensures Tree(c, {}, all).None? <==> Unprintable(c, all)
  {
    if Tree(c, {}, all).None? {
      var p := WayBack(c, {}, all);
    } else if Unprintable(c, all) {
      var p :| Walk(p, all) && p[0] == c && (Loops(p, all) || BadString(p[|p| - 1]));
      if Loops(p, all) {
        LoopFails(p, all);
      } else {
        NoBadString(p, {}, all);
      }
    }
  }

  /** `json_dumps`: all marks are clear before and after, whether it succeeds or not. */
  method Dumps(c: Cell, fl: DumpFlags, encodeAny: bool, ghost all: set<Cell>) returns (text: Option<seq<Byte>>)
    requires Graph(all) && c in all && Marked(all, {})
    modifies all`visited
    ensures Marked(all, {})
    ensures !encodeAny && c.shape.Scalar? ==> text == None
    ensures encodeAny || !c.shape.Scalar?
        ==> text == match Tree(c, {}, all) case None => None case Some(v) => Some(Dump(v, fl, 0))
  {
    if !encodeAny {
      if c.shape.Scalar? {
        return None;
      }
    }
    var printer := new Printer(fl);
    var ok := printer.DoDump(c, 0, {}, all);
    if ok {
      ghost var dump := Dump(Tree(c, {}, all).value, fl, 0);
      assert [] + dump == dump;
      return Some(printer.out);
    }
    return None;
  }

  /** What is printed of a graph of proper values is read back as a value equal to its tree. */
  lemma PrintedReads(c: Cell, all: set<Cell>, fl: DumpFlags, pf: ParseFlags)
    requires Graph(all) && c in all && Tree(c, {}, all).Some? && Proper(Tree(c, {}, all).value)
    requires Loads(Tree(c, {}, all).value, pf)
    ensures var v := Tree(c, {}, all).value;
            LoadBuffer(Dump(v, fl, 0), pf).Some? && Equal(v, LoadBuffer(Dump(v, fl, 0), pf).value)
  {
    JsonRoundTrips(Tree(c, {}, all).value, fl, pf, []);
  }

  // ---- Keys that are not UTF-8 ----

  /** A string that is opened and never closed makes no token, however much of it is there. */
  lemma NeverCloses(ws: seq<Byte>, inner: seq<Byte>, n: nat, bad: bool)
    requires (forall c | c in ws :: IsSpace(c)) && QUOTE !in inner && n <= |ws| + 1 + |inner|
    ensures Scan((ws + [QUOTE] + inner)[..n], bad).0 in {EofToken, InvalidToken}
  {
    var text := (ws + [QUOTE] + inner)[..n];
    if n <= |ws| {
      assert text == ws[..n] + [];
      ScanSpaces(ws[..n], [], bad);
    } else {
      var rest := inner[..n - |ws| - 1];
      assert text == ws + ([QUOTE] + rest);
      ScanSpaces(ws, [QUOTE] + rest, bad);
      assert ([QUOTE] + rest)[1..] == rest;
      assert StringEnd(rest).None?;
    }
  }

  lemma OneMember(f: Field, fl: DumpFlags)
    requires Iterate(f.key) == Malformed
    ensures Dump(Obj([f]), fl, 0) == [0x7B] + (Indent(fl, 1, false) + [QUOTE]
              + (Separator(fl) + Dump(f.value, fl, 1) + Indent(fl, 0, false) + [0x7D]))
  {
    assert DumpString(f.key, fl) == [QUOTE];
    OrderedMembers([f], fl);
    assert Ordered([f], fl) == [f] by {
      assert Ordered([f], fl)[0] in Ordered([f], fl);
    }
    ObjectText([f], fl, 0);
    hide Dump, DumpString, Indent, Separator, Ordered;
    assert [f][1..] == [];
    assert FieldsText([f], fl, 0) == FieldText(f, true, fl, 0) + [];
    Regroup(Indent(fl, 1, false), [QUOTE], Separator(fl), Dump(f.value, fl, 1), Indent(fl, 0, false));
    hide FieldsText;
  }

  lemma Regroup(ws: seq<Byte>, key: seq<Byte>, sep: seq<Byte>, value: seq<Byte>, end: seq<Byte>)
    ensures [0x7B] + ws + ((key + sep + value + end) + []) + [0x7D]
         == [0x7B] + (ws + key + (sep + value + end + [0x7D]))
  {
  }

  /** The text of an object whose one key does not begin with a character is refused. */
  lemma UnclosedKeyRefused(f: Field, fl: DumpFlags, pf: ParseFlags)
    requires Iterate(f.key) == Malformed && QUOTE !in Dump(f.value, fl, 1)
    ensures LoadBuffer(Dump(Obj([f]), fl, 0), pf) == None
  {
    IndentIsSpace(fl, 1, false);
    IndentIsSpace(fl, 0, false);
    var ws, inner := Indent(fl, 1, false), Separator(fl) + Dump(f.value, fl, 1) + Indent(fl, 0, false) + [0x7D];
    assert QUOTE !in inner;
    OneMember(f, fl);
    hide *;
    RefusedObject(ws, inner, Dump(Obj([f]), fl, 0), pf);
  }

  lemma RefusedObject(ws: seq<Byte>, inner: seq<Byte>, text: seq<Byte>, pf: ParseFlags)
    requires (forall c | c in ws :: IsSpace(c)) && QUOTE !in inner
    requires text == [0x7B] + (ws + [QUOTE] + inner)
    ensures LoadBuffer(text, pf) == None
  {
    hide ParseJson, Decodable, Scan, IsSpace;
    var n := Decodable(text);
    if n > 0 {
      NeverCloses(ws, inner, n - 1, n < |text|);
      assert text[..n] == [0x7B] + (ws + [QUOTE] + inner)[..n - 1];
      OpensObject((ws + [QUOTE] + inner)[..n - 1], n < |text|, pf);
    } else {
      assert text[..n] == [];
      NothingToLoad(0 < |text|, pf);
    }
  }

  lemma NothingToLoad(bad: bool, pf: ParseFlags)
    ensures ParseJson([], bad, pf) == None
  {
    assert Scan([], bad).0 in {EofToken, InvalidToken};
  }

  lemma OpensObject(rest: seq<Byte>, bad: bool, pf: ParseFlags)
    requires Scan(rest, bad).0 in {EofToken, InvalidToken}
    ensures ParseJson([0x7B] + rest, bad, pf) == None
  {
    var text := [0x7B] + rest;
    assert SkipSpaces(text) == text && text[1..] == rest;
    assert Scan(text, bad) == (Punct(0x7B), rest);
    assert ParseObject(rest, bad, pf) == None;
    assert ParseValue(Punct(0x7B), rest, bad, pf) == None;
  }

  /** What `dump_string` says about a key is ignored: an object whose key does not begin with a character
      (the byte 0xFF, say) is printed, with a key that is never closed, and no loader takes the text. */
  lemma BadKeyIsPrinted(c: Cell, d: Cell, key: seq<Byte>, serial: nat, all: set<Cell>, fl: DumpFlags, pf: ParseFlags)
    requires Graph(all) && c in all && c.shape == ObjectOf([Member(key, serial, d)]) && d.shape.Scalar?
    requires Iterate(key) == Malformed && !d.shape.value.Str? && QUOTE !in Dump(d.shape.value, fl, 1)
    ensures Iterate([0xFF]) == Malformed
    ensures Tree(c, {}, all) == Some(Obj([Field(key, serial, d.shape.value)]))
    ensures LoadBuffer(Dump(Tree(c, {}, all).value, fl, 0), pf) == None
  {
    var ms := [Member(key, serial, d)];
    TreeOfObject(c, {}, all);
    assert ms[0].cell in all && ms[1..] == [];
    assert Tree(d, {} + {c}, all) == Some(d.shape.value);
    NoTrees({} + {c}, all);
    assert [Field(key, serial, d.shape.value)] + [] == [Field(key, serial, d.shape.value)];
    assert TreeFields(ms, {} + {c}, all) == Some([Field(key, serial, d.shape.value)]);
    UnclosedKeyRefused(Field(key, serial, d.shape.value), fl, pf);
  }
}
