/**
 The first walk of libfdtgen/fdtgen.c over the tree: it enters the ancestors of the listed nodes and
 stores in every entry where its node is.
 */
module FdtScan {

  import opened FdtTree
  import opened FdtClosure
  import opened FdtTables

  /** At or below one of the children `cs` of the node at `offset`. */
  ghost predicate Under(offset: Path, cs: seq<Node>, p: Path) {
    exists i | 0 <= i < |cs| :: offset + [cs[i].name] <= p
  }

  ghost predicate AnyUnder(listed: set<Path>, offset: Path, cs: seq<Node>) {
    exists l | l in listed :: Under(offset, cs, l)
  }

  function Located(before: Table, p: Path): Entry {
    if p in before then before[p].(offset := p) else Entry(p, 0, false)
  }

  function WithLocated(s: Tables, p: Path): Tables {
    s.(nodes := s.nodes[p := Located(s.nodes, p)], order := if p in s.nodes then s.order else s.order + [p])
  }

  /** The part of the tree below `offset` that the children `cs` root was walked over. */
  ghost predicate Scanned(listed: set<Path>, s: Tables, s': Tables, offset: Path, cs: seq<Node>) {
    && (forall p :: p in s'.nodes <==> p in s.nodes || (Under(offset, cs, p) && Above(listed, p)))
    && (forall p | p in s'.nodes :: s'.nodes[p] == if Under(offset, cs, p) then Located(s.nodes, p) else s.nodes[p])
    && s'.deps == s.deps
    && Ordered(s')
  }

  /** What is in the table when a walk starts: the listed nodes and some of their ancestors. */
  ghost predicate Startable(t: Node, listed: set<Path>, s: Tables) {
    && Unique(t) && listed <= Paths(t)
    && listed <= s.nodes.Keys
    && (forall p | p in s.nodes :: Above(listed, p))
    && Ordered(s)
  }

  lemma StartableUnique(t: Node, listed: set<Path>, s: Tables)
    requires Startable(t, listed, s)
    ensures Unique(t) && listed <= Paths(t)
  {
  }

  lemma NothingScanned(t: Node, listed: set<Path>, s: Tables, offset: Path)
    requires Startable(t, listed, s)
    ensures Scanned(listed, s, s, offset, []) && !AnyUnder(listed, offset, [])
  {
    hide Unique, Above;
  }

  /** The children together root everything below a node. */
  lemma UnderAll(t: Node, listed: set<Path>, s: Tables, offset: Path, p: Path)
    requires Startable(t, listed, s) && At(t, offset).Some? && Above(listed, p)
    ensures Under(offset, At(t, offset).value.children, p) <==> offset < p
  {
    var cs := At(t, offset).value.children;
    if offset < p {
      var l :| l in listed && p <= l;
      var i := OnTheWay(t, offset, l);
      assert offset + [cs[i].name] <= p;
    }
    if Under(offset, cs, p) {
      var i :| 0 <= i < |cs| && offset + [cs[i].name] <= p;
      assert offset <= offset + [cs[i].name];
    }
  }

  lemma AnyUnderAll(t: Node, listed: set<Path>, s: Tables, offset: Path)
    requires Startable(t, listed, s) && At(t, offset).Some?
    ensures AnyUnder(listed, offset, At(t, offset).value.children) <==> exists l | l in listed :: offset < l
  {
    forall l | l in listed
      ensures Under(offset, At(t, offset).value.children, l) <==> offset < l
    {
      assert l <= l;
      UnderAll(t, listed, s, offset, l);
    }
  }

  lemma UnderMore(offset: Path, cs: seq<Node>, i: nat, p: Path)
    requires i < |cs|
    ensures Under(offset, cs[..i + 1], p) <==> Under(offset, cs[..i], p) || offset + [cs[i].name] <= p
  {
    if Under(offset, cs[..i], p) {
      var j :| 0 <= j < |cs[..i]| && offset + [cs[..i][j].name] <= p;
      assert offset + [cs[..i + 1][j].name] <= p;
    }
    if offset + [cs[i].name] <= p {
      assert offset + [cs[..i + 1][i].name] <= p;
    }
    if Under(offset, cs[..i + 1], p) {
      var j :| 0 <= j < |cs[..i + 1]| && offset + [cs[..i + 1][j].name] <= p;
      if j < i {
        assert offset + [cs[..i][j].name] <= p;
      }
    }
  }

  /** What is below one child is not below an earlier one. */
  lemma UnderOne(t: Node, offset: Path, i: nat, p: Path)
    requires Unique(t) && At(t, offset).Some? && i < |At(t, offset).value.children|
    requires offset + [At(t, offset).value.children[i].name] <= p
    ensures !Under(offset, At(t, offset).value.children[..i], p)
  {
    var cs := At(t, offset).value.children;
    AtUnique(t, offset);
    forall j | 0 <= j < |cs[..i]|
      ensures !(offset + [cs[..i][j].name] <= p)
    {
      OtherName(offset, cs[j].name, cs[i].name, p);
    }
  }

  lemma OtherName(offset: Path, a: string, b: string, p: Path)
    requires a != b && offset + [b] <= p
    ensures !(offset + [a] <= p)
  {
    assert p[|offset|] == (offset + [b])[|offset|];
    assert (offset + [a])[|offset|] == a;
  }

  /** Whether a child is kept: some listed node is at or below it. */
  lemma ChildKept(t: Node, listed: set<Path>, s: Tables, s': Tables, s'': Tables, offset: Path, i: nat)
    requires Startable(t, listed, s) && At(t, offset).Some? && i < |At(t, offset).value.children|
    requires Scanned(listed, s, s', offset, At(t, offset).value.children[..i])
    requires var c := At(t, offset).value.children[i];
             At(t, offset + [c.name]) == Some(c) && Scanned(listed, s', s'', offset + [c.name], c.children)
    ensures var c := At(t, offset).value.children[i];
            && (AnyUnder(listed, offset + [c.name], c.children) || offset + [c.name] in s''.nodes
                <==> Above(listed, offset + [c.name]))
            && (AnyUnder(listed, offset, At(t, offset).value.children[..i + 1])
                <==> AnyUnder(listed, offset, At(t, offset).value.children[..i]) || Above(listed, offset + [c.name]))
  {
    var cs := At(t, offset).value.children;
    var curr := offset + [cs[i].name];
    UnderOne(t, offset, i, curr);
    AnyUnderAll(t, listed, s, curr);
    forall l | l in listed
      ensures Under(offset, cs[..i + 1], l) <==> Under(offset, cs[..i], l) || curr <= l
    {
      UnderMore(offset, cs, i, l);
    }
    if Above(listed, curr) {
      var l :| l in listed && curr <= l;
      assert l == curr || curr < l;
    }
  }

  lemma StartableStays(t: Node, listed: set<Path>, s: Tables, s': Tables, offset: Path, cs: seq<Node>)
    requires Startable(t, listed, s) && Scanned(listed, s, s', offset, cs)
    ensures Startable(t, listed, s')
  {
  }

  /** The walk over one more child. */
  lemma ScanChild(t: Node, listed: set<Path>, s: Tables, s': Tables, s'': Tables, offset: Path, i: nat)
    requires Startable(t, listed, s) && At(t, offset).Some? && i < |At(t, offset).value.children|
    requires Scanned(listed, s, s', offset, At(t, offset).value.children[..i])
    requires var c := At(t, offset).value.children[i];
             At(t, offset + [c.name]) == Some(c) && Scanned(listed, s', s'', offset + [c.name], c.children)
    ensures var cs := At(t, offset).value.children;
            var curr := offset + [cs[i].name];
            Scanned(listed, s, if Above(listed, curr) then WithLocated(s'', curr) else s'', offset, cs[..i + 1])
  {
    hide Startable, Under, Above, At, Ordered;
    var cs := At(t, offset).value.children;
    var curr := offset + [cs[i].name];
    var r := if Above(listed, curr) then WithLocated(s'', curr) else s'';
    forall p
      ensures p in r.nodes <==> p in s.nodes || (Under(offset, cs[..i + 1], p) && Above(listed, p))
      ensures p in r.nodes ==> r.nodes[p] == if Under(offset, cs[..i + 1], p) then Located(s.nodes, p) else s.nodes[p]
    {
      ScanOne(t, listed, s, s', s'', offset, i, p);
    }
    WithLocatedOrdered(s'', curr);
  }

  lemma WithLocatedOrdered(s: Tables, p: Path)
    requires Ordered(s)
    ensures Ordered(WithLocated(s, p))
  {
  }

  lemma ScanOne(t: Node, listed: set<Path>, s: Tables, s': Tables, s'': Tables, offset: Path, i: nat, p: Path)
    requires Startable(t, listed, s) && At(t, offset).Some? && i < |At(t, offset).value.children|
    requires Scanned(listed, s, s', offset, At(t, offset).value.children[..i])
    requires var c := At(t, offset).value.children[i];
             At(t, offset + [c.name]) == Some(c) && Scanned(listed, s', s'', offset + [c.name], c.children)
    ensures var cs := At(t, offset).value.children;
            var curr := offset + [cs[i].name];
            var r := if Above(listed, curr) then WithLocated(s'', curr) else s'';
            && (p in r.nodes <==> p in s.nodes || (Under(offset, cs[..i + 1], p) && Above(listed, p)))
            && (p in r.nodes ==> r.nodes[p] == if Under(offset, cs[..i + 1], p) then Located(s.nodes, p)
                else s.nodes[p])
  {
    hide Startable, Under, Above, At;
    Regions(t, listed, s, offset, i, p);
  }

  /** How the regions of one step lie to each other. */
  lemma Regions(t: Node, listed: set<Path>, s: Tables, offset: Path, i: nat, p: Path)
    requires Startable(t, listed, s) && At(t, offset).Some? && i < |At(t, offset).value.children|
    requires var c := At(t, offset).value.children[i]; At(t, offset + [c.name]) == Some(c)
    ensures var cs := At(t, offset).value.children;
            var curr := offset + [cs[i].name];
            && (Under(offset, cs[..i + 1], p) <==> Under(offset, cs[..i], p) || curr <= p)
            && (curr <= p ==> !Under(offset, cs[..i], p))
            && (Above(listed, p) ==> (Under(curr, cs[i].children, p) <==> curr <= p && p != curr))
            && (Under(curr, cs[i].children, p) ==> curr <= p && p != curr)
            && (p in s.nodes ==> Above(listed, p))
  {
    hide Under, Above, At, Unique, Ordered;
    var cs := At(t, offset).value.children;
    var curr := offset + [cs[i].name];
    UnderMore(offset, cs, i, p);
    if curr <= p {
      UnderOne(t, offset, i, p);
    }
    if Above(listed, p) {
      UnderAll(t, listed, s, curr, p);
    }
    if Under(curr, cs[i].children, p) {
      UnderIsBelow(curr, cs[i].children, p);
    }
  }

  lemma UnderIsBelow(offset: Path, cs: seq<Node>, p: Path)
    requires Under(offset, cs, p)
    ensures offset <= p && p != offset
  {
    var j :| 0 <= j < |cs| && offset + [cs[j].name] <= p;
    assert offset <= offset + [cs[j].name];
  }
}
