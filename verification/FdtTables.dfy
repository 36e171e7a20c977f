/**
 The two tables of libfdtgen/fdtgen.c as a value, and how its walks let them grow.
 */
module FdtTables {

  import opened FdtTree
  import opened FdtClosure

  /** `path_node_t`. */
  datatype Entry = Entry(offset: Path, cnt: nat, disable: bool)

  type Table = map<Path, Entry>

  /** The node table, the order in which uthash iterates over it, and the dependency table. */
  datatype Tables = Tables(nodes: Table, order: seq<Path>, deps: Deps)

  /** What `keep_node_and_parents` stores for a new node: the offset of its parent. */
  function WithNode(s: Tables, p: Path, parent: Path): Tables {
    if p in s.nodes then s
    else s.(nodes := s.nodes[p := Entry(parent, 0, false)], order := s.order + [p])
  }

  function WithList(s: Tables, p: Path): Tables {
    if p in s.deps then s else s.(deps := s.deps[p := []])
  }

  function WithReference(s: Tables, p: Path, q: Path): Tables
    requires p in s.deps
  {
    s.(deps := s.deps[p := s.deps[p] + [q]])
  }

  /** Every key is iterated over once, and nothing else is. */
  ghost predicate Ordered(s: Tables) {
    && (forall p :: p in s.nodes <==> p in s.order)
    && (forall i, j | 0 <= i < j < |s.order| :: s.order[i] != s.order[j])
  }

  function WithListed(s: Tables, p: Path, disable: bool): Tables {
    s.(nodes := s.nodes[p := if p in s.nodes then s.nodes[p].(disable := disable) else Entry([], 0, disable)],
       order := if p in s.nodes then s.order else s.order + [p])
  }

  /** The paths are in the table with that flag; the other entries are as before. */
  ghost predicate Listed(s: Tables, s': Tables, paths: seq<Path>, disable: bool) {
    && (Ordered(s) ==> Ordered(s'))
    && s'.deps == s.deps
    && (forall p :: p in s'.nodes <==> p in s.nodes || p in paths)
    && (forall p | p in s'.nodes :: s'.nodes[p].disable == if p in paths then disable else s.nodes[p].disable)
    && (forall p | p in s'.nodes :: s'.nodes[p].cnt == if p in s.nodes then s.nodes[p].cnt else 0)
  }

  lemma ListedOrdered(s: Tables, p: Path, disable: bool)
    requires Ordered(s)
    ensures Ordered(WithListed(s, p, disable))
  {
  }

  lemma ListedNothing(s: Tables, disable: bool)
    ensures Listed(s, s, [], disable)
  {
  }

  lemma ListedMore(s: Tables, s': Tables, paths: seq<Path>, i: nat, disable: bool)
    requires i < |paths| && Listed(s, s', paths[..i], disable)
    ensures Listed(s, WithListed(s', paths[i], disable), paths[..i + 1], disable)
  {
    if Ordered(s) {
      ListedOrdered(s', paths[i], disable);
    }
    hide Ordered;
    assert paths[..i + 1] == paths[..i] + [paths[i]];
    assert forall p :: p in paths[..i + 1] <==> p in paths[..i] || p == paths[i];
  }

  ghost predicate NewEntry(p: Path, e: Entry) {
    e.cnt == 0 && !e.disable && e.offset <= p && |e.offset| + 1 == |p|
  }

  /** Entries are only added, behind the others, each with the offset of its parent. */
  ghost predicate Extends(s: Tables, s': Tables) {
    && s.order <= s'.order
    && (forall p | p in s.nodes :: p in s'.nodes && s'.nodes[p] == s.nodes[p])
    && (forall p | p in s'.nodes && p !in s.nodes :: NewEntry(p, s'.nodes[p]))
    && (Ordered(s) ==> Ordered(s'))
  }

  /** What every call leaves behind. */
  ghost predicate Since(t: Node, s: Tables, s': Tables) {
    var ok := Extends(s, s') && Grown(s.deps, s'.deps) && Unrecorded(t, s'.deps) <= Unrecorded(t, s.deps);
    ok
  }

  /** `Progress` of these tables. */
  ghost predicate Doing(t: Node, listed: set<Path>, s: Tables, open: set<Path>, sought: set<Path>) {
    var ok := Progress(t, listed, s.nodes.Keys, s.deps, open, sought);
    ok
  }

  /** Listed nodes exist, references can be followed. */
  ghost predicate Suitable(t: Node, listed: set<Path>) {
    var ok := Unique(t) && Resolvable(t) && listed <= Paths(t) - {[]};
    ok
  }

  lemma SinceSelf(t: Node, s: Tables)
    ensures Since(t, s, s)
  {
  }

  lemma SinceTrans(t: Node, a: Tables, b: Tables, c: Tables)
    requires Since(t, a, b) && Since(t, b, c)
    ensures Since(t, a, c)
  {
  }

  lemma SinceKeeps(t: Node, s: Tables, s': Tables, p: Path)
    requires Since(t, s, s')
    ensures p in s.nodes ==> p in s'.nodes
    ensures Registered(t, s.deps, p) ==> Registered(t, s'.deps, p)
    ensures forall q | Recorded(s.deps, p, q) :: Recorded(s'.deps, p, q)
    ensures Unrecorded(t, s'.deps) <= Unrecorded(t, s.deps)
    ensures p in s.deps ==> p in s'.deps
  {
  }

  lemma WithNodeExtends(t: Node, s: Tables, p: Path, parent: Path)
    requires parent <= p && |parent| + 1 == |p|
    ensures var s' := WithNode(s, p, parent); Since(t, s, s') && s'.nodes.Keys == s.nodes.Keys + {p}
  {
  }

  lemma KeepStep(t: Node, listed: set<Path>, s: Tables, open: set<Path>, sought: set<Path>, p: Path, parent: Path,
      target: Path)
    requires Suitable(t, listed) && Doing(t, listed, s, open, sought)
    requires target in sought && p <= target && parent <= p && |parent| + 1 == |p|
    ensures var s' := WithNode(s, p, parent);
            && Doing(t, listed, s', open + {p}, sought)
            && (p in s.deps ==> Doing(t, listed, s', open, sought))
  {
    NeededIsClosed(t, listed);
    AddNode(t, listed, s.nodes.Keys, s.deps, open, sought, p, target);
    WithNodeExtends(t, s, p, parent);
  }

  lemma SoughtIsNeeded(t: Node, listed: set<Path>, s: Tables, open: set<Path>, sought: set<Path>, p: Path, target: Path)
    requires Suitable(t, listed) && Doing(t, listed, s, open, sought)
    requires target in sought && p <= target && p != []
    ensures p in Needed(t, listed)
  {
    NeededIsClosed(t, listed);
    assert KeptUp(Needed(t, listed), target) && target[..|p|] == p;
  }

  lemma ListStep(t: Node, listed: set<Path>, s: Tables, open: set<Path>, sought: set<Path>, p: Path)
    requires Doing(t, listed, s, open, sought) && p in open && p in Needed(t, listed)
    ensures Doing(t, listed, WithList(s, p), open, sought) && Since(t, s, WithList(s, p))
  {
    if p !in s.deps {
      OpenList(t, listed, s.nodes.Keys, s.deps, open, sought, p);
      GrownIsSmaller(t, s.deps, s.deps[p := []]);
    }
  }

  lemma WithReferenceGrows(t: Node, s: Tables, p: Path, q: Path)
    requires p in s.deps && q in Refs(t, p) && q !in s.deps[p] && p in Paths(t)
    ensures var s' := WithReference(s, p, q);
            Since(t, s, s') && Unrecorded(t, s'.deps) < Unrecorded(t, s.deps) && Recorded(s'.deps, p, q)
  {
    RecordShrinks(t, s.deps, p, q);
    var s' := WithReference(s, p, q);
    assert s'.deps[p][|s.deps[p]|] == q;
  }

  lemma ReferenceStep(t: Node, listed: set<Path>, s: Tables, open: set<Path>, sought: set<Path>, p: Path, q: Path)
    requires Suitable(t, listed) && Doing(t, listed, s, open, sought) && p in open
    requires p in s.deps && q in Refs(t, p)
    ensures Doing(t, listed, WithReference(s, p, q), open, if q == [] then sought else sought + {q})
  {
    NeededIsClosed(t, listed);
    Record(t, listed, s.nodes.Keys, s.deps, open, sought, p, q);
  }

  lemma NewReference(t: Node, listed: set<Path>, s: Tables, p: Path, q: Path)
    requires Suitable(t, listed) && p in Needed(t, listed)
    requires p in s.deps && q in Refs(t, p) && q !in s.deps[p]
    ensures var s' := WithReference(s, p, q);
            Since(t, s, s') && Unrecorded(t, s'.deps) < Unrecorded(t, s.deps) && Recorded(s'.deps, p, q)
    ensures q in Paths(t) && (q != [] ==> q in Needed(t, listed))
  {
    NeededIsClosed(t, listed);
    WithReferenceGrows(t, s, p, q);
    RefsArePaths(t, p);
  }

  lemma FoundStep(t: Node, listed: set<Path>, s: Tables, open: set<Path>, sought: set<Path>, q: Path)
    requires Doing(t, listed, s, open, sought + {q}) && forall k | 0 < k <= |q| :: q[..k] in s.nodes
    ensures Doing(t, listed, s, open, sought)
  {
    assert KeptUp(s.nodes.Keys, q);
    Found(t, listed, s.nodes.Keys, s.deps, open, sought, q);
  }

  lemma OpenStep(t: Node, listed: set<Path>, s: Tables, open: set<Path>, sought: set<Path>, p: Path)
    requires Doing(t, listed, s, open, sought)
    ensures Doing(t, listed, s, open + {p}, sought)
  {
  }

  lemma FinishStep(t: Node, listed: set<Path>, s: Tables, open: set<Path>, sought: set<Path>, p: Path)
    requires Doing(t, listed, s, open + {p}, sought) && Registered(t, s.deps, p)
    ensures Doing(t, listed, s, open, sought)
  {
    Finished(t, listed, s.nodes.Keys, s.deps, open, sought, p);
  }

  lemma ChildrenOf(t: Node, listed: set<Path>, p: Path)
    requires Suitable(t, listed) && At(t, p).Some?
    ensures var cs := At(t, p).value.children; forall i | 0 <= i < |cs| :: At(t, p + [cs[i].name]) == Some(cs[i])
  {
    ChildrenAt(t, p);
  }

  lemma PrefixesKept(t: Node, s: Tables, s': Tables, offset: Path, curr: Path, target: Path)
    requires Since(t, s, s') && curr in s'.nodes && offset < curr <= target && |curr| == |offset| + 1
    requires forall k | |curr| < k <= |target| :: target[..k] in s.nodes
    ensures forall k | |offset| < k <= |target| :: target[..k] in s'.nodes
  {
    assert target[..|curr|] == curr;
  }

  ghost predicate PropRegistered(t: Node, s: Tables, p: Path, prop: Prop) {
    var ok := PropTargets(t, prop).Some? && RegisteredUpTo(s.deps, p, PropTargets(t, prop).value);
    ok
  }

  lemma OtherProp(t: Node, s: Tables, p: Path, prop: Prop)
    requires prop.name !in PROPS_WITH_DEP
    ensures PropRegistered(t, s, p, prop)
  {
  }

  /** The references of the property are to be followed for `p`. */
  ghost predicate PropOf(t: Node, p: Path, prop: Prop) {
    var ok := PropTargets(t, prop).Some? && forall q | q in PropTargets(t, prop).value :: q in Refs(t, p);
    ok
  }

  lemma PropsOf(t: Node, listed: set<Path>, p: Path)
    requires Suitable(t, listed) && p in Needed(t, listed)
    ensures At(t, p).Some? && Targets(t, At(t, p).value.props).Some?
    ensures forall pr | pr in At(t, p).value.props :: PropOf(t, p, pr)
  {
    PathsAreNodes(t, p);
    var props := At(t, p).value.props;
    forall i | 0 <= i < |props|
      ensures PropOf(t, p, props[i])
    {
      TargetsHold(t, props, i);
    }
  }

  /** The references of a list from byte `done` on are still to be followed, the others are recorded. */
  ghost predicate ListUpTo(t: Node, s: Tables, p: Path, value: seq<Byte>, done: nat, cellsName: string,
      optional: bool)
  {
    var all, rest := ListTargets(t, value, 0, cellsName, optional), ListTargets(t, value, done, cellsName, optional);
    var ok := p in s.deps && all.Some? && rest.Some?
           && (forall q | q in rest.value :: q in Refs(t, p))
           && (forall q | q in all.value :: Recorded(s.deps, p, q) || q in rest.value);
    ok
  }

  /** The property is a list of references, each with as many arguments as `cellsName` of its target says. */
  ghost predicate IsList(prop: Prop, cellsName: string, optional: bool) {
    var ok := if optional then prop.name == "power-domains" && cellsName == "#power-domain-cells"
                          else prop.name == "clocks" && cellsName == "#clock-cells";
    ok
  }

  lemma ListBegins(t: Node, s: Tables, p: Path, prop: Prop, cellsName: string, optional: bool)
    requires PropOf(t, p, prop) && p in s.deps
    requires IsList(prop, cellsName, optional)
    ensures ListUpTo(t, s, p, prop.value, 0, cellsName, optional)
  {
  }

  lemma ListNext(t: Node, s: Tables, p: Path, value: seq<Byte>, done: nat, cellsName: string, optional: bool)
      returns (q: Path, cells: nat)
    requires ListUpTo(t, s, p, value, done, cellsName, optional) && done < |value|
    ensures done + 4 <= |value| && Resolve(t, Be32(value, done)) == Some(q)
    ensures At(t, q).Some? && ArgumentCells(At(t, q).value, cellsName, optional) == Some(cells)
    ensures q in Refs(t, p)
  {
    q, cells := ListTargetsParts(t, value, done, cellsName, optional);
    ListTargetsFirst(t, value, done, cellsName, optional, q, cells);
    assert ListTargets(t, value, done, cellsName, optional).value[0] == q;
  }

  lemma ListStepDone(t: Node, s: Tables, s': Tables, p: Path, value: seq<Byte>, done: nat, cellsName: string,
      optional: bool, q: Path, cells: nat)
    requires ListUpTo(t, s, p, value, done, cellsName, optional) && Since(t, s, s')
    requires done + 4 <= |value| && Resolve(t, Be32(value, done)) == Some(q) && Recorded(s'.deps, p, q)
    requires At(t, q).Some? && ArgumentCells(At(t, q).value, cellsName, optional) == Some(cells)
    ensures ListUpTo(t, s', p, value, done + 4 + cells * 4, cellsName, optional)
  {
    SinceKeeps(t, s, s', p);
    ListTargetsFirst(t, value, done, cellsName, optional, q, cells);
    var rest := ListTargets(t, value, done + 4 + cells * 4, cellsName, optional).value;
    assert forall r | r in rest :: r in [q] + rest;
    assert forall r | r in [q] + rest :: r == q || r in rest;
  }

  lemma ListEnds(t: Node, s: Tables, p: Path, prop: Prop, done: nat, cellsName: string, optional: bool)
    requires ListUpTo(t, s, p, prop.value, done, cellsName, optional) && done >= |prop.value|
    requires IsList(prop, cellsName, optional)
    ensures PropRegistered(t, s, p, prop)
  {
  }

  lemma SingleTarget(t: Node, p: Path, prop: Prop)
    requires PropOf(t, p, prop) && prop.name in PROPS_WITH_DEP && prop.name != "clocks" && prop.name != "power-domains"
    ensures |prop.value| >= 4 && Resolve(t, Be32(prop.value, 0)).Some?
        && Resolve(t, Be32(prop.value, 0)).value in Refs(t, p)
    ensures PropTargets(t, prop) == Some([Resolve(t, Be32(prop.value, 0)).value])
  {
    assert PropTargets(t, prop).value[0] == Resolve(t, Be32(prop.value, 0)).value;
  }

  lemma SingleEnds(t: Node, s: Tables, p: Path, prop: Prop, q: Path)
    requires PropTargets(t, prop) == Some([q]) && Recorded(s.deps, p, q)
    ensures PropRegistered(t, s, p, prop)
  {
  }

  ghost predicate PropsRegistered(t: Node, s: Tables, p: Path, props: seq<Prop>) {
    var ok := forall prop | prop in props :: PropRegistered(t, s, p, prop);
    ok
  }

  lemma OneMoreProp(t: Node, s: Tables, s': Tables, p: Path, props: seq<Prop>, prop: Prop)
    requires Since(t, s, s') && PropsRegistered(t, s, p, props) && PropRegistered(t, s', p, prop)
    ensures PropsRegistered(t, s', p, props + [prop])
  {
    forall a | a in props
      ensures PropRegistered(t, s', p, a)
    {
      assert PropRegistered(t, s, p, a);
      SinceKeeps(t, s, s', p);
    }
  }

  /** `p` is registered once all its properties are. */
  lemma AllPropsRegistered(t: Node, s: Tables, p: Path)
    requires At(t, p).Some? && Targets(t, At(t, p).value.props).Some?
    requires PropsRegistered(t, s, p, At(t, p).value.props)
    ensures Registered(t, s.deps, p)
  {
    var props := At(t, p).value.props;
    forall q | q in Refs(t, p)
      ensures Recorded(s.deps, p, q)
    {
      var i := TargetsComeFrom(t, props, q);
      assert PropRegistered(t, s, p, props[i]);
    }
  }

  ghost predicate NoneBelow(p: Path, cs: seq<Node>, q: Path) {
    var ok := forall c | c in cs :: !(p + [c.name] <= q);
    ok
  }

  lemma NoneBelowNext(p: Path, cs: seq<Node>, i: nat, q: Path)
    requires i < |cs| && NoneBelow(p, cs[..i], q) && !(p + [cs[i].name] <= q)
    ensures NoneBelow(p, cs[..i + 1], q)
  {
  }

  /** No child is on the way to the node that is sought. */
  lemma NotBelow(t: Node, listed: set<Path>, p: Path, q: Path)
    requires Suitable(t, listed) && q in Paths(t) && At(t, p).Some? && p != q
    requires NoneBelow(p, At(t, p).value.children, q)
    ensures !(p <= q)
  {
    if p <= q {
      var i := OnTheWay(t, p, q);
    }
  }
}
