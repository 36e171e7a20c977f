/**
 What a trimmed tree holds: exactly the kept nodes with their properties, and the same node at the
 end of every reference that is followed.
 */
module FdtOutcome {

  import opened FdtTree
  import opened FdtTrim

  // ---- Which nodes are left ----

  lemma {:induction false} TrimmedName(cs: seq<Node>, path: Path, keep: set<Path>, todo: set<Path>, k: nat)
    requires k < |TrimmedIn(cs, path, keep, todo)|
    ensures exists i | 0 <= i < |cs| :: cs[i].name == TrimmedIn(cs, path, keep, todo)[k].name
  {
    var kept := path + [cs[0].name] in keep;
    if kept && k == 0 {
      assert cs[0].name == TrimmedIn(cs, path, keep, todo)[k].name;
    } else {
      var k' := if kept then k - 1 else k;
      TrimmedName(cs[1..], path, keep, todo, k');
      var i :| 0 <= i < |cs[1..]| && cs[1..][i].name == TrimmedIn(cs[1..], path, keep, todo)[k'].name;
      assert cs[i + 1].name == TrimmedIn(cs, path, keep, todo)[k].name;
    }
  }

  lemma {:induction false} TrimmedDistinct(cs: seq<Node>, path: Path, keep: set<Path>, todo: set<Path>)
    requires Distinct(cs)
    ensures Distinct(TrimmedIn(cs, path, keep, todo))
  {
    if cs != [] {
      var rest := TrimmedIn(cs[1..], path, keep, todo);
      TrimmedDistinct(cs[1..], path, keep, todo);
      forall k | 0 <= k < |rest|
        ensures rest[k].name != cs[0].name
      {
        TrimmedName(cs[1..], path, keep, todo, k);
      }
    }
  }

  lemma {:induction false} TrimmedUnique(n: Node, path: Path, keep: set<Path>, todo: set<Path>)
    requires Unique(n)
    ensures Unique(Trimmed(n, path, keep, todo))
    decreases n, 1
  {
    TrimmedDistinct(n.children, path, keep, todo);
    TrimmedInUnique(n, n.children, path, keep, todo);
  }

  lemma {:induction false} TrimmedInUnique(n: Node, cs: seq<Node>, path: Path, keep: set<Path>, todo: set<Path>)
    requires forall c | c in cs :: c in n.children && Unique(c)
    ensures forall c | c in TrimmedIn(cs, path, keep, todo) :: Unique(c)
    decreases n, 0, |cs|
  {
    if cs != [] {
      assert cs[0] in cs && forall c | c in cs[1..] :: c in cs;
      TrimmedUnique(cs[0], path + [cs[0].name], keep, todo);
      TrimmedInUnique(n, cs[1..], path, keep, todo);
      DisabledUnique(Trimmed(cs[0], path + [cs[0].name], keep, todo));
    }
  }

  lemma DisabledUnique(n: Node)
    requires Unique(n)
    ensures Unique(Disabled(n))
  {
  }

  /** Looking a child up in what is left. */
  lemma {:induction false} FindTrimmed(cs: seq<Node>, path: Path, keep: set<Path>, todo: set<Path>, name: string)
    ensures var left := TrimmedIn(cs, path, keep, todo);
            match FindChild(left, name)
            case None => path + [name] !in keep || FindChild(cs, name).None?
            case Some(k) =>
              && path + [name] in keep && FindChild(cs, name).Some?
              && left[k] == TrimmedChild(cs[FindChild(cs, name).value], path, keep, todo)
  {
    if cs != [] {
      FindTrimmed(cs[1..], path, keep, todo, name);
      if path + [cs[0].name] in keep {
        assert TrimmedIn(cs, path, keep, todo)[1..] == TrimmedIn(cs[1..], path, keep, todo);
      }
    }
  }

  ghost predicate KeptBelow(path: Path, keep: set<Path>, q: Path) {
    forall k | 0 < k <= |q| :: path + q[..k] in keep
  }

  lemma KeptBelowStep(path: Path, keep: set<Path>, q: Path)
    requires q != []
    ensures KeptBelow(path, keep, q) <==> path + [q[0]] in keep && KeptBelow(path + [q[0]], keep, q[1..])
  {
    assert path + q[..1] == path + [q[0]];
    forall k | 0 < k <= |q| - 1
      ensures path + [q[0]] + q[1..][..k] == path + q[..k + 1]
    {
    }
    if path + [q[0]] in keep && KeptBelow(path + [q[0]], keep, q[1..]) {
      forall k | 0 < k <= |q|
        ensures path + q[..k] in keep
      {
        if k > 1 {
          assert path + [q[0]] + q[1..][..k - 1] == path + q[..k];
        }
      }
    }
  }

  /** A node is left iff it and the nodes above it are kept; it has its name and its properties, but
      for the status of a node that was to be disabled. */
  lemma {:induction false} TrimmedAt(n: Node, path: Path, keep: set<Path>, todo: set<Path>, q: Path)
    ensures At(Trimmed(n, path, keep, todo), q).Some? <==> At(n, q).Some? && KeptBelow(path, keep, q)
    ensures At(Trimmed(n, path, keep, todo), q).Some? && q != [] ==>
              && At(Trimmed(n, path, keep, todo), q).value.name == At(n, q).value.name
              && At(Trimmed(n, path, keep, todo), q).value.props ==
                 if path + q in todo then Disabled(At(n, q).value).props else At(n, q).value.props
    decreases |q|
  {
    if q != [] {
      FindTrimmed(n.children, path, keep, todo, q[0]);
      KeptBelowStep(path, keep, q);
      if path + [q[0]] in keep && FindChild(n.children, q[0]).Some? {
        var c := n.children[FindChild(n.children, q[0]).value];
        var curr := path + [c.name];
        TrimmedAt(c, curr, keep, todo, q[1..]);
        assert curr + q[1..] == path + q;
        assert q[1..] == [] ==> path + q == curr;
        DisabledAt(Trimmed(c, curr, keep, todo), q[1..]);
      }
    }
  }

  lemma DisabledAt(n: Node, q: Path)
    ensures q != [] ==> At(Disabled(n), q) == At(n, q)
  {
  }

  // ---- References survive ----

  lemma {:induction false} GetSetProp(props: seq<Prop>, name: string, value: seq<Byte>, other: string)
    ensures GetProp(SetProp(props, name, value), other) == if other == name then Some(value) else GetProp(props, other)
  {
    if GetProp(props, name).Some? {
      GetReplaced(props, name, value, other);
    } else {
      assert ([Prop(name, value)] + props)[1..] == props;
    }
  }

  lemma {:induction false} GetReplaced(props: seq<Prop>, name: string, value: seq<Byte>, other: string)
    requires GetProp(props, name).Some?
    ensures GetProp(Replace(props, name, value), other) == if other == name then Some(value) else GetProp(props, other)
  {
    if props[0].name == name {
      assert ([Prop(name, value)] + props[1..])[1..] == props[1..];
    } else {
      GetReplaced(props[1..], name, value, other);
      assert ([props[0]] + Replace(props[1..], name, value))[1..] == Replace(props[1..], name, value);
    }
  }

  lemma {:induction false} StatusIsNoReference(t: Node, props: seq<Prop>)
    ensures Targets(t, SetProp(props, STATUS, DISABLED)) == Targets(t, props)
  {
    if GetProp(props, STATUS).Some? {
      StatusReplaced(t, props);
    } else {
      assert ([Prop(STATUS, DISABLED)] + props)[1..] == props;
      if Targets(t, props).Some? {
        assert [] + Targets(t, props).value == Targets(t, props).value;
      }
    }
  }

  lemma {:induction false} StatusReplaced(t: Node, props: seq<Prop>)
    requires GetProp(props, STATUS).Some?
    ensures Targets(t, Replace(props, STATUS, DISABLED)) == Targets(t, props)
  {
    if props[0].name == STATUS {
      assert ([Prop(STATUS, DISABLED)] + props[1..])[1..] == props[1..];
    } else {
      StatusReplaced(t, props[1..]);
      assert ([props[0]] + Replace(props[1..], STATUS, DISABLED))[1..] == Replace(props[1..], STATUS, DISABLED);
    }
  }

  lemma PhandleStays(n: Node, path: Path, keep: set<Path>, todo: set<Path>)
    ensures Phandle(Trimmed(n, path, keep, todo)) == Phandle(n) == Phandle(Disabled(n))
    ensures forall ph :: ByPhandle(Disabled(n), ph) == ByPhandle(n, ph)
  {
    GetSetProp(n.props, STATUS, DISABLED, "phandle");
  }

  /** A phandle of a kept node is found at the same place; one that is found was there before. */
  lemma {:induction false} TrimmedByPhandle(n: Node, path: Path, keep: set<Path>, todo: set<Path>, ph: nat)
    ensures ByPhandle(n, ph).Some? && KeptBelow(path, keep, ByPhandle(n, ph).value) ==>
              ByPhandle(Trimmed(n, path, keep, todo), ph) == ByPhandle(n, ph)
    ensures ByPhandle(n, ph).None? ==> ByPhandle(Trimmed(n, path, keep, todo), ph).None?
    decreases n, 1
  {
    PhandleStays(n, path, keep, todo);
    TrimmedByPhandleIn(n, n.children, path, keep, todo, ph);
  }

  lemma {:induction false} TrimmedByPhandleIn(n: Node, cs: seq<Node>, path: Path, keep: set<Path>, todo: set<Path>,
      ph: nat)
    requires forall c | c in cs :: c in n.children
    ensures ByPhandleIn(cs, ph).Some? && KeptBelow(path, keep, ByPhandleIn(cs, ph).value) ==>
              ByPhandleIn(TrimmedIn(cs, path, keep, todo), ph) == ByPhandleIn(cs, ph)
    ensures ByPhandleIn(cs, ph).None? ==> ByPhandleIn(TrimmedIn(cs, path, keep, todo), ph).None?
    decreases n, 0, |cs|
  {
    if cs != [] {
      assert cs[0] in cs && forall c | c in cs[1..] :: c in cs;
      var curr := path + [cs[0].name];
      TrimmedByPhandle(cs[0], curr, keep, todo, ph);
      TrimmedByPhandleIn(n, cs[1..], path, keep, todo, ph);
      PhandleStays(Trimmed(cs[0], curr, keep, todo), curr, keep, todo);
      if ByPhandle(cs[0], ph).Some? {
        var q := [cs[0].name] + ByPhandle(cs[0], ph).value;
        assert q[1..] == ByPhandle(cs[0], ph).value;
        KeptBelowStep(path, keep, q);
      }
      if curr in keep {
        assert TrimmedIn(cs, path, keep, todo)[1..] == TrimmedIn(cs[1..], path, keep, todo);
      }
    }
  }

  /** Kept with all the nodes above it, or the root. */
  lemma KeptIsKeptBelow(keep: set<Path>, q: Path)
    requires q == [] || KeptUp(keep, q)
    ensures KeptBelow([], keep, q)
  {
    forall k | 0 < k <= |q|
      ensures [] + q[..k] in keep
    {
      assert [] + q[..k] == q[..k];
    }
  }

  ghost predicate AllKept(keep: set<Path>, qs: seq<Path>) {
    forall q | q in qs :: q == [] || KeptUp(keep, q)
  }

  lemma CellsStay(t: Node, keep: set<Path>, todo: set<Path>, q: Path, cellsName: string, optional: bool)
    requires At(t, q).Some? && (q == [] || KeptUp(keep, q)) && cellsName != STATUS
    ensures var out := Trimmed(t, [], keep, todo);
            At(out, q).Some? && ArgumentCells(At(out, q).value, cellsName, optional)
                == ArgumentCells(At(t, q).value, cellsName, optional)
  {
    KeptIsKeptBelow(keep, q);
    TrimmedAt(t, [], keep, todo, q);
    GetSetProp(At(t, q).value.props, STATUS, DISABLED, cellsName);
  }

  lemma ResolveStays(t: Node, keep: set<Path>, todo: set<Path>, ph: nat)
    requires Resolve(t, ph).Some? && (Resolve(t, ph).value == [] || KeptUp(keep, Resolve(t, ph).value))
    ensures Resolve(Trimmed(t, [], keep, todo), ph) == Resolve(t, ph)
  {
    KeptIsKeptBelow(keep, Resolve(t, ph).value);
    TrimmedByPhandle(t, [], keep, todo, ph);
  }

  lemma {:induction false} ListTargetsStay(t: Node, keep: set<Path>, todo: set<Path>, value: seq<Byte>, done: nat,
      cellsName: string, optional: bool)
    requires ListTargets(t, value, done, cellsName, optional).Some? && cellsName != STATUS
    requires AllKept(keep, ListTargets(t, value, done, cellsName, optional).value)
    ensures ListTargets(Trimmed(t, [], keep, todo), value, done, cellsName, optional)
        == ListTargets(t, value, done, cellsName, optional)
    decreases |value| - done
  {
    if done < |value| {
      var q, cells := ListTargetsParts(t, value, done, cellsName, optional);
      ListTargetsFirst(t, value, done, cellsName, optional, q, cells);
      var rest := ListTargets(t, value, done + 4 + cells * 4, cellsName, optional).value;
      assert ([q] + rest)[0] == q && forall r | r in rest :: r in [q] + rest;
      ResolveStays(t, keep, todo, Be32(value, done));
      CellsStay(t, keep, todo, q, cellsName, optional);
      ListTargetsStay(t, keep, todo, value, done + 4 + cells * 4, cellsName, optional);
      ListTargetsFirst(Trimmed(t, [], keep, todo), value, done, cellsName, optional, q, cells);
    }
  }

  lemma PropTargetsStay(t: Node, keep: set<Path>, todo: set<Path>, p: Prop)
    requires PropTargets(t, p).Some? && AllKept(keep, PropTargets(t, p).value)
    ensures PropTargets(Trimmed(t, [], keep, todo), p) == PropTargets(t, p)
  {
    if p.name == "clocks" {
      ListTargetsStay(t, keep, todo, p.value, 0, "#clock-cells", false);
    } else if p.name == "power-domains" {
      ListTargetsStay(t, keep, todo, p.value, 0, "#power-domain-cells", true);
    } else if p.name in PROPS_WITH_DEP {
      assert PropTargets(t, p).value[0] == Resolve(t, Be32(p.value, 0)).value;
      ResolveStays(t, keep, todo, Be32(p.value, 0));
    }
  }

  lemma {:induction false} TargetsStay(t: Node, keep: set<Path>, todo: set<Path>, props: seq<Prop>)
    requires Targets(t, props).Some? && AllKept(keep, Targets(t, props).value)
    ensures Targets(Trimmed(t, [], keep, todo), props) == Targets(t, props)
  {
    if props != [] {
      var a, b := PropTargets(t, props[0]).value, Targets(t, props[1..]).value;
      assert forall q | q in a || q in b :: q in a + b;
      PropTargetsStay(t, keep, todo, props[0]);
      TargetsStay(t, keep, todo, props[1..]);
    }
  }

  // ---- The outcome of keeping a closed set ----

  lemma OutputNodes(t: Node, keep: set<Path>, todo: set<Path>, p: Path)
    requires Unique(t) && keep <= Paths(t) - {[]} && forall p | p in keep :: KeptUp(keep, p)
    ensures p in Paths(Trimmed(t, [], keep, todo)) <==> p == [] || p in keep
  {
    var out := Trimmed(t, [], keep, todo);
    TrimmedUnique(t, [], keep, todo);
    PathsAreNodes(out, p);
    PathsAreNodes(t, p);
    TrimmedAt(t, [], keep, todo, p);
    if p in keep {
      KeptIsKeptBelow(keep, p);
    } else if p != [] && KeptBelow([], keep, p) {
      assert [] + p[..|p|] == p;
    }
  }

  lemma TargetIsThere(t: Node, keep: set<Path>, todo: set<Path>, p: Path, q: Path)
    requires Unique(t) && Closed(t, keep) && p in keep && q in Refs(t, p)
    ensures At(Trimmed(t, [], keep, todo), q).Some?
  {
    RefsArePaths(t, p);
    PathsAreNodes(t, q);
    KeptIsKeptBelow(keep, q);
    TrimmedAt(t, [], keep, todo, q);
  }

  /** Every reference of a kept node leads to the same node as in the input, and that node is there. */
  lemma OutputReferences(t: Node, keep: set<Path>, todo: set<Path>, p: Path)
    requires Unique(t) && Resolvable(t) && keep <= Paths(t) - {[]} && Closed(t, keep) && p in keep
    ensures var out := Trimmed(t, [], keep, todo);
            && At(out, p).Some? && Targets(out, At(out, p).value.props).Some?
            && Refs(out, p) == Refs(t, p)
            && forall q | q in Refs(t, p) :: At(out, q).Some?
  {
    var out := Trimmed(t, [], keep, todo);
    var props := At(t, p).value.props;
    assert KeptUp(keep, p);
    KeptIsKeptBelow(keep, p);
    TrimmedAt(t, [], keep, todo, p);
    assert AllKept(keep, Refs(t, p));
    TargetsStay(t, keep, todo, props);
    StatusIsNoReference(out, props);
    forall q | q in Refs(t, p)
      ensures At(out, q).Some?
    {
      TargetIsThere(t, keep, todo, p, q);
    }
  }
}
