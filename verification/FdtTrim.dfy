/**
 What trimming a tree means, said without restarts: children that are not in the table go, flagged
 children get their status replaced, and the same happens below.
 */
module FdtTrim {

  import opened FdtTree

  const STATUS := "status"

  /** "disabled" with its terminating NUL. */
  const DISABLED: seq<Byte> := [100, 105, 115, 97, 98, 108, 101, 100, 0]

  /** `fdt_setprop`: replaces the value in place, or adds the property as the first one. */
  function SetProp(props: seq<Prop>, name: string, value: seq<Byte>): seq<Prop> {
    if GetProp(props, name).Some? then Replace(props, name, value) else [Prop(name, value)] + props
  }

  function Replace(props: seq<Prop>, name: string, value: seq<Byte>): seq<Prop> {
    if props == [] then []
    else if props[0].name == name then [Prop(name, value)] + props[1..]
    else [props[0]] + Replace(props[1..], name, value)
  }

  function Disabled(n: Node): Node {
    n.(props := SetProp(n.props, STATUS, DISABLED))
  }

  function TrimmedChild(c: Node, path: Path, keep: set<Path>, todo: set<Path>): Node
    decreases c, 2
  {
    var below := Trimmed(c, path + [c.name], keep, todo);
    if path + [c.name] in todo then Disabled(below) else below
  }

  function TrimmedIn(cs: seq<Node>, path: Path, keep: set<Path>, todo: set<Path>): seq<Node>
    decreases cs, 0
  {
    if cs == [] then []
    else
      var rest := TrimmedIn(cs[1..], path, keep, todo);
      if path + [cs[0].name] in keep then [TrimmedChild(cs[0], path, keep, todo)] + rest else rest
  }

  /** The node at `path` with only the nodes of `keep` below it, those of `todo` disabled. */
  function Trimmed(n: Node, path: Path, keep: set<Path>, todo: set<Path>): (r: Node)
    ensures r.name == n.name && r.props == n.props
    decreases n, 1
  {
    n.(children := TrimmedIn(n.children, path, keep, todo))
  }

  function Size(n: Node): nat {
    1 + SizeIn(n.children)
  }

  function SizeIn(cs: seq<Node>): nat {
    if cs == [] then 0 else Size(cs[0]) + SizeIn(cs[1..])
  }

  /** Nothing is left to do below `path`. */
  ghost predicate Settled(n: Node, path: Path, keep: set<Path>, todo: set<Path>) {
    forall i | 0 <= i < |n.children| ::
      && path + [n.children[i].name] in keep
      && path + [n.children[i].name] !in todo
      && Settled(n.children[i], path + [n.children[i].name], keep, todo)
  }

  ghost predicate SettledIn(cs: seq<Node>, path: Path, keep: set<Path>, todo: set<Path>) {
    forall i | 0 <= i < |cs| ::
      && path + [cs[i].name] in keep
      && path + [cs[i].name] !in todo
      && Settled(cs[i], path + [cs[i].name], keep, todo)
  }

  ghost predicate Distinct(cs: seq<Node>) {
    forall i, j | 0 <= i < j < |cs| :: cs[i].name != cs[j].name
  }

  // ---- Sequences of children ----

  lemma {:induction false} TrimmedInAppend(a: seq<Node>, b: seq<Node>, path: Path, keep: set<Path>, todo: set<Path>)
    ensures TrimmedIn(a + b, path, keep, todo) == TrimmedIn(a, path, keep, todo) + TrimmedIn(b, path, keep, todo)
  {
    if a == [] {
      assert a + b == b;
    } else {
      assert (a + b)[1..] == a[1..] + b;
      TrimmedInAppend(a[1..], b, path, keep, todo);
    }
  }

  lemma {:induction false} SizeInAppend(a: seq<Node>, b: seq<Node>)
    ensures SizeIn(a + b) == SizeIn(a) + SizeIn(b)
  {
    if a == [] {
      assert a + b == b;
    } else {
      assert (a + b)[1..] == a[1..] + b;
      SizeInAppend(a[1..], b);
    }
  }

  lemma SizeSplit(cs: seq<Node>, i: nat)
    requires i < |cs|
    ensures SizeIn(cs) == SizeIn(cs[..i]) + Size(cs[i]) + SizeIn(cs[i + 1..])
    ensures SizeIn(cs[..i] + cs[i + 1..]) == SizeIn(cs[..i]) + SizeIn(cs[i + 1..])
  {
    assert cs == cs[..i] + cs[i..];
    SizeInAppend(cs[..i], cs[i..]);
    SizeInAppend(cs[..i], cs[i + 1..]);
  }

  // ---- What the remaining work depends on ----

  ghost predicate SameBelow(path: Path, todo: set<Path>, todo': set<Path>) {
    forall q | path <= q && q != path :: q in todo <==> q in todo'
  }

  lemma {:induction false} TrimmedFrame(n: Node, path: Path, keep: set<Path>, todo: set<Path>, todo': set<Path>)
    requires SameBelow(path, todo, todo')
    ensures Trimmed(n, path, keep, todo) == Trimmed(n, path, keep, todo')
    decreases n, 1
  {
    forall c | c in n.children
      ensures SameAt(path + [c.name], todo, todo')
    {
    }
    TrimmedInFrame(n, n.children, path, keep, todo, todo');
  }

  ghost predicate SameAt(path: Path, todo: set<Path>, todo': set<Path>) {
    forall q | path <= q :: q in todo <==> q in todo'
  }

  lemma {:induction false} TrimmedInFrame(n: Node, cs: seq<Node>, path: Path, keep: set<Path>, todo: set<Path>,
      todo': set<Path>)
    requires forall c | c in cs :: c in n.children
    requires forall c | c in cs :: SameAt(path + [c.name], todo, todo')
    ensures TrimmedIn(cs, path, keep, todo) == TrimmedIn(cs, path, keep, todo')
    decreases n, 0, |cs|
  {
    if cs != [] {
      assert cs[0] in cs;
      var curr := path + [cs[0].name];
      assert SameAt(curr, todo, todo') && curr <= curr;
      TrimmedFrame(cs[0], curr, keep, todo, todo');
      forall c | c in cs[1..]
        ensures c in n.children && SameAt(path + [c.name], todo, todo')
      {
        assert c in cs;
      }
      TrimmedInFrame(n, cs[1..], path, keep, todo, todo');
    }
  }

  lemma {:induction false} SettledIsFixed(n: Node, path: Path, keep: set<Path>, todo: set<Path>)
    requires Settled(n, path, keep, todo)
    ensures Trimmed(n, path, keep, todo) == n
    decreases n, 1
  {
    SettledInIsFixed(n, n.children, path, keep, todo);
  }

  lemma {:induction false} SettledInIsFixed(n: Node, cs: seq<Node>, path: Path, keep: set<Path>, todo: set<Path>)
    requires forall c | c in cs :: c in n.children
    requires SettledIn(cs, path, keep, todo)
    ensures TrimmedIn(cs, path, keep, todo) == cs
    decreases n, 0, |cs|
  {
    if cs != [] {
      assert cs[0] in cs;
      SettledIsFixed(cs[0], path + [cs[0].name], keep, todo);
      assert forall c | c in cs[1..] :: c in cs;
      SettledInIsFixed(n, cs[1..], path, keep, todo);
      assert cs == [cs[0]] + cs[1..];
    }
  }

  lemma {:induction false} SettledWithLess(n: Node, path: Path, keep: set<Path>, todo: set<Path>, todo': set<Path>)
    requires Settled(n, path, keep, todo) && todo' <= todo
    ensures Settled(n, path, keep, todo')
    decreases n
  {
    forall i | 0 <= i < |n.children|
      ensures Settled(n.children[i], path + [n.children[i].name], keep, todo')
    {
      SettledWithLess(n.children[i], path + [n.children[i].name], keep, todo, todo');
    }
  }

  // ---- One step of the loop leaves the outcome as it was ----

  lemma DeleteStep(cs: seq<Node>, i: nat, path: Path, keep: set<Path>, todo: set<Path>)
    requires i < |cs| && path + [cs[i].name] !in keep
    ensures TrimmedIn(cs[..i] + cs[i + 1..], path, keep, todo) == TrimmedIn(cs, path, keep, todo)
  {
    assert cs == cs[..i] + cs[i..];
    TrimmedInAppend(cs[..i], cs[i..], path, keep, todo);
    TrimmedInAppend(cs[..i], cs[i + 1..], path, keep, todo);
  }

  lemma PartFrame(cs: seq<Node>, part: seq<Node>, i: nat, path: Path, keep: set<Path>, todo: set<Path>,
      todo': set<Path>)
    requires i < |cs| && forall q | !(path + [cs[i].name] <= q) :: q in todo <==> q in todo'
    requires forall c | c in part :: c in cs && c.name != cs[i].name
    ensures TrimmedIn(part, path, keep, todo) == TrimmedIn(part, path, keep, todo')
  {
    var curr := path + [cs[i].name];
    forall c | c in part
      ensures SameAt(path + [c.name], todo, todo')
    {
      forall q | path + [c.name] <= q
        ensures q in todo <==> q in todo'
      {
        assert q[|path|] == (path + [c.name])[|path|] == c.name;
        assert |curr| <= |q| ==> curr[|path|] == cs[i].name && q[..|curr|][|path|] == q[|path|];
      }
    }
    TrimmedInFrame(Node("", [], cs), part, path, keep, todo, todo');
  }

  lemma TrimmedInCons(c: Node, b: seq<Node>, path: Path, keep: set<Path>, todo: set<Path>)
    requires path + [c.name] in keep
    ensures TrimmedIn([c] + b, path, keep, todo) == [TrimmedChild(c, path, keep, todo)] + TrimmedIn(b, path, keep, todo)
  {
    assert ([c] + b)[1..] == b;
  }

  lemma SplitAt(cs: seq<Node>, i: nat, path: Path, keep: set<Path>, todo: set<Path>)
    requires i < |cs| && path + [cs[i].name] in keep
    ensures TrimmedIn(cs, path, keep, todo)
         == TrimmedIn(cs[..i], path, keep, todo)
             + ([TrimmedChild(cs[i], path, keep, todo)] + TrimmedIn(cs[i + 1..], path, keep, todo))
  {
    assert cs == cs[..i] + ([cs[i]] + cs[i + 1..]);
    TrimmedInAppend(cs[..i], [cs[i]] + cs[i + 1..], path, keep, todo);
    TrimmedInCons(cs[i], cs[i + 1..], path, keep, todo);
  }

  /** A child is worked on, and what is still to do changes at or below that child only. */
  lemma WorkStep(cs: seq<Node>, i: nat, c: Node, path: Path, keep: set<Path>, todo: set<Path>, todo': set<Path>)
    requires i < |cs| && Distinct(cs) && c.name == cs[i].name && path + [c.name] in keep
    requires forall q | !(path + [c.name] <= q) :: q in todo <==> q in todo'
    requires TrimmedChild(c, path, keep, todo') == TrimmedChild(cs[i], path, keep, todo)
    ensures TrimmedIn(cs[i := c], path, keep, todo') == TrimmedIn(cs, path, keep, todo)
  {
    PartFrame(cs, cs[..i], i, path, keep, todo, todo');
    PartFrame(cs, cs[i + 1..], i, path, keep, todo, todo');
    var ds := cs[i := c];
    assert ds[..i] == cs[..i] && ds[i + 1..] == cs[i + 1..] && ds[i] == c;
    SplitAt(cs, i, path, keep, todo);
    SplitAt(ds, i, path, keep, todo');
  }

  lemma DisableChild(c: Node, path: Path, keep: set<Path>, todo: set<Path>)
    requires path + [c.name] in todo
    ensures TrimmedChild(Disabled(c), path, keep, todo - {path + [c.name]}) == TrimmedChild(c, path, keep, todo)
  {
    var curr := path + [c.name];
    TrimmedFrame(c, curr, keep, todo, todo - {curr});
  }

  lemma DescendChild(c: Node, d: Node, path: Path, keep: set<Path>, todo: set<Path>, todo': set<Path>)
    requires path + [c.name] !in todo && todo' <= todo
    requires d == Trimmed(c, path + [c.name], keep, todo) && Settled(d, path + [c.name], keep, todo')
    ensures TrimmedChild(d, path, keep, todo') == TrimmedChild(c, path, keep, todo)
  {
    SettledIsFixed(d, path + [c.name], keep, todo');
  }
}
