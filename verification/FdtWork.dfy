/**
 The loop that trims the children of one node, step by step: what is left to do shrinks, the outcome
 stays the same.
 */
module FdtWork {

  import opened FdtTree
  import opened FdtTables
  import opened FdtTrim
  import opened FdtOutcome

  /** The flagged nodes that were not visited yet. */
  ghost function Todo(nodes: Table): set<Path> {
    set p | p in nodes && nodes[p].disable && nodes[p].cnt == 0
  }

  /** Only nodes below `path` were visited. */
  ghost predicate Visited(a: Table, b: Table, path: Path) {
    && a.Keys == b.Keys
    && (forall p | p in a :: b[p].disable == a[p].disable && b[p].cnt >= a[p].cnt)
    && (forall p | p in a && (p == path || !(path <= p)) :: b[p] == a[p])
  }

  /** The children before `i` are done; the outcome is still that of the node `n` at the start. */
  ghost predicate Working(n: Node, r: Node, i: nat, path: Path, a: Table, b: Table) {
    && i <= |r.children| && r.name == n.name && r.props == n.props
    && Unique(r) && Size(r) <= Size(n)
    && Visited(a, b, path)
    && SettledIn(r.children[..i], path, b.Keys, Todo(b))
    && Trimmed(r, path, b.Keys, Todo(b)) == Trimmed(n, path, a.Keys, Todo(a))
  }

  function DropChild(n: Node, i: nat): Node
    requires i < |n.children|
  {
    n.(children := n.children[..i] + n.children[i + 1..])
  }

  function SetChild(n: Node, i: nat, c: Node): Node
    requires i < |n.children|
  {
    n.(children := n.children[i := c])
  }

  function Counted(nodes: Table, p: Path): Table
    requires p in nodes
  {
    nodes[p := nodes[p].(cnt := nodes[p].cnt + 1)]
  }

  lemma TodoMeans(nodes: Table, p: Path)
    requires p in nodes
    ensures p in Todo(nodes) <==> nodes[p].disable && nodes[p].cnt == 0
    ensures p !in Todo(nodes) ==> Todo(Counted(nodes, p)) == Todo(nodes)
  {
    CountedVisited(nodes, p, []);
  }

  lemma VisitedMeansLess(a: Table, b: Table, path: Path)
    requires Visited(a, b, path)
    ensures Todo(b) <= Todo(a)
  {
  }

  lemma VisitedTrans(a: Table, b: Table, c: Table, path: Path, curr: Path)
    requires Visited(a, b, path) && Visited(b, c, curr) && path <= curr
    ensures Visited(a, c, path)
  {
  }

  lemma CountedVisited(nodes: Table, p: Path, path: Path)
    requires p in nodes
    ensures path <= p && p != path ==> Visited(nodes, Counted(nodes, p), path)
    ensures Todo(Counted(nodes, p)) == Todo(nodes) - {p}
  {
  }

  lemma UniqueDrop(r: Node, i: nat)
    requires Unique(r) && i < |r.children|
    ensures Unique(DropChild(r, i))
  {
    var cs := DropChild(r, i).children;
    forall j | 0 <= j < |cs|
      ensures cs[j] == r.children[if j < i then j else j + 1]
    {
    }
  }

  lemma UniqueSet(r: Node, i: nat, c: Node)
    requires Unique(r) && i < |r.children| && Unique(c) && c.name == r.children[i].name
    ensures Unique(SetChild(r, i, c))
  {
  }

  lemma SizeSet(r: Node, i: nat, c: Node)
    requires i < |r.children| && Size(c) <= Size(r.children[i])
    ensures Size(SetChild(r, i, c)) <= Size(r)
  {
    var ds := r.children[i := c];
    SizeSplit(r.children, i);
    SizeSplit(ds, i);
    assert ds[..i] == r.children[..i] && ds[i + 1..] == r.children[i + 1..];
  }

  lemma Starts(n: Node, path: Path, a: Table)
    requires Unique(n)
    ensures Working(n, n, 0, path, a, a)
  {
  }

  /** A child that is not in the table is deleted. */
  lemma DeleteWorks(n: Node, r: Node, i: nat, path: Path, a: Table, b: Table)
    requires Working(n, r, i, path, a, b) && i < |r.children| && path + [r.children[i].name] !in b
    ensures Working(n, DropChild(r, i), 0, path, a, b) && Size(DropChild(r, i)) < Size(n)
  {
    UniqueDrop(r, i);
    SizeSplit(r.children, i);
    DeleteStep(r.children, i, path, b.Keys, Todo(b));
  }

  lemma ChildPath(path: Path, name: string)
    ensures path <= path + [name] && path + [name] != path
  {
  }

  /** A flagged child that is visited for the first time gets its status replaced. */
  lemma DisableWorks(n: Node, r: Node, i: nat, path: Path, a: Table, b: Table)
    requires Working(n, r, i, path, a, b) && i < |r.children| && path + [r.children[i].name] in Todo(b)
    ensures var curr := path + [r.children[i].name];
            && Working(n, SetChild(r, i, Disabled(r.children[i])), 0, path, a, Counted(b, curr))
            && Todo(Counted(b, curr)) < Todo(a)
  {
    hide Unique, Settled;
    var c := r.children[i];
    var curr := path + [c.name];
    ChildPath(path, c.name);
    CountedVisited(b, curr, path);
    VisitedTrans(a, b, Counted(b, curr), path, path);
    VisitedMeansLess(a, b, path);
    UniqueChild(r, i);
    DisabledUnique(c);
    UniqueSet(r, i, Disabled(c));
    SizeSet(r, i, Disabled(c));
    DisableChild(c, path, b.Keys, Todo(b));
    WorkStep(r.children, i, Disabled(c), path, b.Keys, Todo(b), Todo(b) - {curr});
  }

  lemma UniqueChild(r: Node, i: nat)
    requires Unique(r) && i < |r.children|
    ensures Unique(r.children[i]) && Distinct(r.children)
  {
  }

  /** Any other child is trimmed itself. */
  lemma DescendWorks(n: Node, r: Node, i: nat, path: Path, a: Table, b: Table, c: Table, d: Node)
    requires Working(n, r, i, path, a, b) && i < |r.children|
    requires var curr := path + [r.children[i].name];
             && curr in b && curr !in Todo(b)
             && Visited(Counted(b, curr), c, curr)
             && d == Trimmed(r.children[i], curr, b.Keys, Todo(Counted(b, curr)))
             && Settled(d, curr, c.Keys, Todo(c)) && Unique(d) && Size(d) <= Size(r.children[i])
    ensures Working(n, SetChild(r, i, d), i + 1, path, a, c)
  {
    hide Unique, Settled;
    var curr := path + [r.children[i].name];
    var todo, todo' := Todo(b), Todo(c);
    ChildPath(path, r.children[i].name);
    CountedVisited(b, curr, path);
    VisitedTrans(a, b, Counted(b, curr), path, path);
    VisitedTrans(a, Counted(b, curr), c, path, curr);
    VisitedMeansLess(Counted(b, curr), c, curr);
    assert Todo(Counted(b, curr)) == todo;
    UniqueChild(r, i);
    UniqueSet(r, i, d);
    SizeSet(r, i, d);
    DescendChild(r.children[i], d, path, b.Keys, todo, todo');
    WorkStep(r.children, i, d, path, b.Keys, todo, todo');
    SettledMore(r.children, i, d, path, b.Keys, todo, todo');
  }

  lemma SettledMore(cs: seq<Node>, i: nat, d: Node, path: Path, keep: set<Path>, todo: set<Path>, todo': set<Path>)
    requires i < |cs| && SettledIn(cs[..i], path, keep, todo) && todo' <= todo
    requires path + [d.name] in keep && path + [d.name] !in todo' && Settled(d, path + [d.name], keep, todo')
    ensures SettledIn(cs[i := d][..i + 1], path, keep, todo')
  {
    hide Settled;
    var ds := cs[i := d][..i + 1];
    forall j | 0 <= j < |ds|
      ensures path + [ds[j].name] in keep && path + [ds[j].name] !in todo'
          && Settled(ds[j], path + [ds[j].name], keep, todo')
    {
      if j < i {
        assert ds[j] == cs[..i][j];
        SettledWithLess(ds[j], path + [ds[j].name], keep, todo, todo');
      }
    }
  }

  /** After the last child the outcome is reached. */
  lemma Ends(n: Node, r: Node, path: Path, a: Table, b: Table)
    requires Working(n, r, |r.children|, path, a, b)
    ensures r == Trimmed(n, path, a.Keys, Todo(a)) && Settled(r, path, b.Keys, Todo(b))
  {
    assert r.children[..|r.children|] == r.children;
    SettledIsFixed(r, path, b.Keys, Todo(b));
  }

  /** Restarting on a node that is being worked on has the same outcome. */
  lemma RestartEnds(n: Node, r: Node, path: Path, a: Table, b: Table, c: Table, out: Node)
    requires Working(n, r, 0, path, a, b) && Visited(b, c, path)
    requires out == Trimmed(r, path, b.Keys, Todo(b)) && Size(out) <= Size(r)
    ensures out == Trimmed(n, path, a.Keys, Todo(a)) && Size(out) <= Size(n) && Visited(a, c, path)
  {
    VisitedTrans(a, b, c, path, path);
  }

  /** Nothing that is left in a settled tree has to be disabled. */
  lemma {:induction false} SettledPath(n: Node, path: Path, keep: set<Path>, todo: set<Path>, q: Path)
    requires Settled(n, path, keep, todo) && At(n, q).Some? && q != []
    ensures path + q in keep && path + q !in todo
    decreases |q|
  {
    var i := FindChild(n.children, q[0]).value;
    var curr := path + [n.children[i].name];
    if q[1..] == [] {
      assert path + q == curr;
    } else {
      assert curr + q[1..] == path + q;
      SettledPath(n.children[i], curr, keep, todo, q[1..]);
    }
  }

  // ---- Every node is disabled once ----

  /** What was logged is what is no longer to do, each node once. */
  ghost predicate Logged(log: seq<Path>, log': seq<Path>, a: Table, b: Table) {
    multiset(log') == multiset(log) + multiset(Todo(a) - Todo(b)) && Todo(b) <= Todo(a)
  }

  lemma LoggedNothing(log: seq<Path>, a: Table, b: Table)
    requires Todo(a) == Todo(b)
    ensures Logged(log, log, a, b)
  {
    assert Todo(a) - Todo(b) == {};
  }

  lemma LoggedOne(log: seq<Path>, a: Table, p: Path)
    requires p in Todo(a)
    ensures Logged(log, log + [p], a, Counted(a, p))
  {
    CountedVisited(a, p, []);
    assert Todo(a) - Todo(Counted(a, p)) == {p};
  }

  lemma LoggedTrans(l0: seq<Path>, l1: seq<Path>, l2: seq<Path>, a: Table, b: Table, c: Table)
    requires Logged(l0, l1, a, b) && Logged(l1, l2, b, c)
    ensures Logged(l0, l2, a, c)
  {
    assert Todo(a) - Todo(c) == (Todo(a) - Todo(b)) + (Todo(b) - Todo(c));
    assert (Todo(a) - Todo(b)) !! (Todo(b) - Todo(c));
    DisjointUnion(Todo(a) - Todo(b), Todo(b) - Todo(c));
  }

  lemma DisjointUnion(x: set<Path>, y: set<Path>)
    requires x !! y
    ensures multiset(x + y) == multiset(x) + multiset(y)
  {
  }
}
