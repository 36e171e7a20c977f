/**
 libfdtgen/fdtgen.c: the node table and the dependency table, filled by recursive walks that change
 them in place, and the trimming that restarts after every change of the tree.

 A node offset in the unmodified tree is modelled by the path of the node; table keys are paths.
 */
module Fdtgen {

  import opened FdtTree
  import opened FdtClosure
  import opened FdtTables
  import opened FdtTrim
  import opened FdtScan
  import opened FdtWork
  import opened FdtResolve
  import opened FdtCells

  class Context {
    const tree: Node
    var nodes: Table
    var order: seq<Path>
    var deps: Deps
    /** The nodes whose status was replaced, call by call. */
    ghost var log: seq<Path>

    /** `fdtgen_new_context` */
    constructor (t: Node)
      ensures tree == t && Now() == Tables(map[], [], map[]) && log == []
    {
      tree, nodes, order, deps, log := t, map[], [], map[], [];
    }

    ghost function Now(): Tables
      reads this`nodes, this`order, this`deps
    {
      Tables(nodes, order, deps)
    }

    /** `init_keep_node` */
    method InitKeepNode(paths: seq<Path>, disable: bool)
      modifies this`nodes, this`order
      ensures Listed(old(Now()), Now(), paths, disable)
    {
      hide Listed;
      ListedNothing(Now(), disable);
      for i := 0 to |paths|
        invariant Listed(old(Now()), Now(), paths[..i], disable)
        invariant deps == old(deps)
      {
        ListedMore(old(Now()), Now(), paths, i, disable);
        if paths[i] !in nodes {
          nodes := nodes[paths[i] := Entry([], 0, disable)];
          order := order + [paths[i]];
        } else {
          nodes := nodes[paths[i] := nodes[paths[i]].(disable := disable)];
        }
      }
      assert paths[..|paths|] == paths;
    }

    // ---- The listed nodes ----

    /** `find_nodes_to_keep`: enters the ancestors of the listed nodes and completes their entries. */
    method FindNodesToKeep(offset: Path, ghost n: Node, ghost listed: set<Path>) returns (find: bool)
      requires Startable(tree, listed, Now()) && At(tree, offset) == Some(n)
      modifies this`nodes, this`order
      ensures Scanned(listed, old(Now()), Now(), offset, n.children)
      ensures find <==> AnyUnder(listed, offset, n.children)
      decreases n
    {
      hide Scanned, AnyUnder, Startable, Unique;
      find := false;
      var children := At(tree, offset).value.children;
      NothingScanned(tree, listed, Now(), offset);
      StartableUnique(tree, listed, Now());
      ChildrenAt(tree, offset);
      for i := 0 to |children|
        invariant Scanned(listed, old(Now()), Now(), offset, children[..i])
        invariant find <==> AnyUnder(listed, offset, children[..i])
      {
        var curr := offset + [children[i].name];
        ghost var before := Now();
        StartableStays(tree, listed, old(Now()), before, offset, children[..i]);
        var childIsKept := FindNodesToKeep(curr, children[i], listed);
        ghost var after := Now();
        ScanChild(tree, listed, old(Now()), before, after, offset, i);
        ChildKept(tree, listed, old(Now()), before, after, offset, i);
        var inKeepList := false;
        if !childIsKept {
          inKeepList := curr in nodes;
        }
        if inKeepList || childIsKept {
          find := true;
          if curr !in nodes {
            nodes := nodes[curr := Entry(curr, 0, false)];
            order := order + [curr];
          } else {
            nodes := nodes[curr := nodes[curr].(offset := curr)];
          }
          assert Now() == WithLocated(after, curr);
        }
      }
      assert children[..|children|] == children;
    }

    // ---- Following references ----

    /** `keep_node_and_parents`: looks for `target` below `offset` and, on the way back, keeps the nodes
        between the two and registers what they refer to. */
    method KeepNodeAndParents(offset: Path, target: Path, ghost n: Node, ghost listed: set<Path>,
        ghost open: set<Path>, ghost sought: set<Path>)
      returns (keep: bool)
      requires Suitable(tree, listed) && Doing(tree, listed, Now(), open, sought)
      requires target == [] || (target in sought && target in Paths(tree))
      requires At(tree, offset) == Some(n)
      modifies this`nodes, this`order, this`deps
      ensures keep <==> target != [] && offset <= target
      ensures Since(tree, old(Now()), Now()) && Doing(tree, listed, Now(), open, sought)
      ensures !keep ==> Now() == old(Now())
      ensures keep ==> forall k | |offset| < k <= |target| :: target[..k] in nodes
      decreases Unrecorded(tree, deps), 4, n
    {
      hide Suitable, Doing, Since;
      SinceSelf(tree, Now());
      if target == [] {
        return false;
      }
      if target == offset {
        return true;
      }
      var children := At(tree, offset).value.children;
      ChildrenOf(tree, listed, offset);
      for i := 0 to |children|
        invariant Now() == old(Now())
        invariant NoneBelow(offset, children[..i], target)
      {
        var curr := offset + [children[i].name];
        ghost var before := Now();
        keep := KeepNodeAndParents(curr, target, children[i], listed, open, sought);
        if keep {
          ghost var found := Now();
          SoughtIsNeeded(tree, listed, Now(), open, sought, curr, target);
          KeepStep(tree, listed, Now(), open, sought, curr, offset, target);
          WithNodeExtends(tree, Now(), curr, offset);
          if curr !in nodes {
            nodes := nodes[curr := Entry(offset, 0, false)];
            order := order + [curr];
          }
          ghost var added := Now();
          assert added == WithNode(found, curr, offset);
          SinceTrans(tree, before, found, added);
          SinceSelf(tree, added);
          if curr !in deps {
            RegisterNodeDependencies(curr, listed, open + {curr}, sought);
            FinishStep(tree, listed, Now(), open, sought, curr);
          }
          SinceTrans(tree, before, added, Now());
          SinceTrans(tree, found, added, Now());
          SinceKeeps(tree, added, Now(), curr);
          PrefixesKept(tree, found, Now(), offset, curr, target);
          return true;
        }
        NoneBelowNext(offset, children, i, target);
      }
      assert children[..|children|] == children;
      NotBelow(tree, listed, offset, target);
      return false;
    }

    /** `register_node_dependencies` */
    method RegisterNodeDependencies(offset: Path, ghost listed: set<Path>, ghost open: set<Path>,
        ghost sought: set<Path>)
      requires Suitable(tree, listed) && Doing(tree, listed, Now(), open, sought)
      requires offset == [] || (offset in open && offset in Needed(tree, listed))
      modifies this`nodes, this`order, this`deps
      ensures Since(tree, old(Now()), Now()) && Doing(tree, listed, Now(), open, sought)
          && Registered(tree, deps, offset)
      decreases Unrecorded(tree, deps), 3
    {
      hide Suitable, Doing, Since;
      SinceSelf(tree, Now());
      if offset == [] {
        return;
      }
      PropsOf(tree, listed, offset);
      var props := At(tree, offset).value.props;
      for i := 0 to |props|
        invariant Since(tree, old(Now()), Now()) && Doing(tree, listed, Now(), open, sought)
        invariant PropsRegistered(tree, Now(), offset, props[..i])
      {
        ghost var before := Now();
        SinceKeeps(tree, old(Now()), before, offset);
        if props[i].name in PROPS_WITH_DEP {
          RegisterNodeDependency(offset, props[i], listed, open, sought);
        } else {
          SinceSelf(tree, Now());
          OtherProp(tree, Now(), offset, props[i]);
        }
        SinceTrans(tree, old(Now()), before, Now());
        OneMoreProp(tree, before, Now(), offset, props[..i], props[i]);
        assert props[..i] + [props[i]] == props[..i + 1];
      }
      assert props[..|props|] == props;
      AllPropsRegistered(tree, Now(), offset);
    }

    /** `register_node_dependency` */
    method RegisterNodeDependency(offset: Path, prop: Prop, ghost listed: set<Path>, ghost open: set<Path>,
        ghost sought: set<Path>)
      requires Suitable(tree, listed) && Doing(tree, listed, Now(), open, sought)
      requires offset in open && offset in Needed(tree, listed)
      requires prop.name in PROPS_WITH_DEP && PropOf(tree, offset, prop)
      modifies this`nodes, this`order, this`deps
      ensures Since(tree, old(Now()), Now()) && Doing(tree, listed, Now(), open, sought)
      ensures PropRegistered(tree, Now(), offset, prop)
      decreases Unrecorded(tree, deps), 2
    {
      hide Suitable, Doing, Since;
      ghost var before := Now();
      ListStep(tree, listed, before, open, sought, offset);
      if offset !in deps {
        deps := deps[offset := []];
      }
      ghost var listing := Now();
      assert listing == WithList(before, offset);
      SinceKeeps(tree, before, listing, offset);
      if prop.name == "clocks" {
        RegisterListDependency(offset, prop, "#clock-cells", false, listed, open, sought);
      } else if prop.name == "power-domains" {
        RegisterListDependency(offset, prop, "#power-domain-cells", true, listed, open, sought);
      } else {
        SingleTarget(tree, offset, prop);
        RegisterSingleDependency(offset, prop.value, 0, listed, open, sought);
        SingleEnds(tree, Now(), offset, prop, Resolve(tree, Be32(prop.value, 0)).value);
      }
      SinceTrans(tree, before, listing, Now());
    }

    /** `register_clocks_dependency`, and `register_power_domains_dependency`, where the property of the
        target that gives the number of argument cells is optional. */
    method RegisterListDependency(offset: Path, prop: Prop, cellsName: string, optional: bool,
        ghost listed: set<Path>, ghost open: set<Path>, ghost sought: set<Path>)
      requires Suitable(tree, listed) && Doing(tree, listed, Now(), open, sought)
      requires offset in open && offset in Needed(tree, listed) && offset in deps
      requires PropOf(tree, offset, prop)
      requires IsList(prop, cellsName, optional)
      modifies this`nodes, this`order, this`deps
      ensures Since(tree, old(Now()), Now()) && Doing(tree, listed, Now(), open, sought)
      ensures PropRegistered(tree, Now(), offset, prop)
      decreases Unrecorded(tree, deps), 1
    {
      hide Suitable, Doing, Since, PropOf, IsList, ListUpTo, PropRegistered;
      ghost var start := Now();
      SinceSelf(tree, start);
      ListBegins(tree, start, offset, prop, cellsName, optional);
      var done := 0;
      while |prop.value| > done
        invariant Since(tree, start, Now()) && Doing(tree, listed, Now(), open, sought)
        invariant ListUpTo(tree, Now(), offset, prop.value, done, cellsName, optional)
        decreases |prop.value| - done
      {
        ghost var before := Now();
        ghost var q, n := ListNext(tree, before, offset, prop.value, done, cellsName, optional);
        SinceKeeps(tree, start, before, offset);
        var refersTo := Resolve(tree, Be32(prop.value, done)).value;
        var cells := ArgumentCells(At(tree, refersTo).value, cellsName, optional).value;
        RegisterSingleDependency(offset, prop.value, done, listed, open, sought);
        SinceTrans(tree, start, before, Now());
        ListStepDone(tree, before, Now(), offset, prop.value, done, cellsName, optional, q, n);
        done := done + 4 + cells * 4;
      }
      ListEnds(tree, Now(), offset, prop, done, cellsName, optional);
    }

    /** `register_single_dependency` */
    method RegisterSingleDependency(offset: Path, value: seq<Byte>, at: nat, ghost listed: set<Path>,
        ghost open: set<Path>, ghost sought: set<Path>)
      requires Suitable(tree, listed) && Doing(tree, listed, Now(), open, sought)
      requires offset in open && offset in Needed(tree, listed) && offset in deps
      requires at + 4 <= |value| && Resolve(tree, Be32(value, at)).Some?
      requires Resolve(tree, Be32(value, at)).value in Refs(tree, offset)
      modifies this`nodes, this`order, this`deps
      ensures Since(tree, old(Now()), Now()) && Doing(tree, listed, Now(), open, sought)
      ensures Recorded(deps, offset, Resolve(tree, Be32(value, at)).value)
      decreases Unrecorded(tree, deps), 0
    {
      var off := Resolve(tree, Be32(value, at)).value;
      hide Suitable, Doing, Since;
      ghost var start := Now();
      SinceSelf(tree, start);
      if offset != off && off !in deps[offset] {
        ReferenceStep(tree, listed, start, open, sought, offset, off);
        NewReference(tree, listed, start, offset, off);
        deps := deps[offset := deps[offset] + [off]];
        ghost var recorded := Now();
        assert recorded == WithReference(start, offset, off);
        var found := KeepNodeAndParents([], off, tree, listed, open, if off == [] then sought else sought + {off});
        ghost var kept := Now();
        if off != [] {
          FoundStep(tree, listed, kept, open, sought, off);
        }
        OpenStep(tree, listed, kept, open, sought, off);
        RegisterNodeDependencies(off, listed, open + {off}, sought);
        FinishStep(tree, listed, Now(), open, sought, off);
        SinceTrans(tree, recorded, kept, Now());
        SinceTrans(tree, start, recorded, Now());
        SinceKeeps(tree, recorded, Now(), offset);
      }
    }
  
    // ---- Trimming ----

    /** `trim_tree`: trims the part of the tree that holds the node `n` at `path`, starting over whenever
        a child was deleted or disabled. */
    method TrimTree(n: Node, path: Path) returns (r: Node)
      requires Unique(n)
      modifies this`nodes, this`log
      ensures r == Trimmed(n, path, old(nodes).Keys, Todo(old(nodes)))
      ensures Unique(r) && Size(r) <= Size(n) && Settled(r, path, nodes.Keys, Todo(nodes))
      ensures Visited(old(nodes), nodes, path)
      ensures Logged(old(log), log, old(nodes), nodes)
      decreases Size(n), Todo(nodes)
    {
      hide Trimmed, Logged, Unique, Settled, Visited, Todo;
      r := n;
      Starts(n, path, nodes);
      LoggedNothing(log, nodes, nodes);
      var i := 0;
      while i < |r.children|
        invariant Working(n, r, i, path, old(nodes), nodes)
        invariant Logged(old(log), log, old(nodes), nodes)
        decreases |r.children| - i
      {
        var curr := path + [r.children[i].name];
        ghost var before, logged := nodes, log;
        if curr !in nodes {
          DeleteWorks(n, r, i, path, old(nodes), nodes);
          ghost var left := DropChild(r, i);
          r := TrimTree(DropChild(r, i), path);
          RestartEnds(n, left, path, old(nodes), before, nodes, r);
          LoggedTrans(old(log), logged, log, old(nodes), before, nodes);
          return;
        }
        nodes := nodes[curr := nodes[curr].(cnt := nodes[curr].cnt + 1)];
        ghost var counted := nodes;
        assert counted == Counted(before, curr);
        TodoMeans(before, curr);
        if nodes[curr].disable && nodes[curr].cnt == 1 {
          DisableWorks(n, r, i, path, old(nodes), before);
          LoggedOne(log, before, curr);
          LoggedTrans(old(log), logged, logged + [curr], old(nodes), before, counted);
          log := log + [curr];
          ghost var left := SetChild(r, i, Disabled(r.children[i]));
          r := TrimTree(SetChild(r, i, Disabled(r.children[i])), path);
          RestartEnds(n, left, path, old(nodes), counted, nodes, r);
          LoggedTrans(old(log), logged + [curr], log, old(nodes), counted, nodes);
          return;
        }
        assert counted.Keys == before.Keys;
        LoggedNothing(logged, before, counted);
        SizeSplit(r.children, i);
        UniqueChild(r, i);
        var d := TrimTree(r.children[i], curr);
        DescendWorks(n, r, i, path, old(nodes), before, nodes, d);
        LoggedTrans(logged, logged, log, before, counted, nodes);
        LoggedTrans(old(log), logged, log, old(nodes), before, nodes);
        r := SetChild(r, i, d);
        i := i + 1;
      }
      Ends(n, r, path, old(nodes), nodes);
    }
  
    // ---- The whole run ----

    /** `resolve_all_dependencies`: the table grows while it is iterated over; which entry comes next is
        fixed before an entry is worked on. */
    method ResolveAllDependencies(ghost listed: set<Path>)
      requires Entered(tree, listed, Now())
      modifies this`nodes, this`order, this`deps
      ensures nodes.Keys == Needed(tree, listed)
      ensures forall p | p in old(nodes) :: p in nodes && nodes[p] == old(nodes)[p]
      ensures forall p | p in nodes && p !in old(nodes) :: nodes[p].cnt == 0 && !nodes[p].disable
    {
      ghost var start := Now();
      WalkStarts(tree, listed, start);
      EnteredSuitable(tree, listed, start);
      var el := if order == [] then None else Some(0);
      var tmp := Next(order, el);
      while el.Some?
        invariant Walking(tree, listed, start, Now(), el, tmp)
        decreases if el.Some? then |Paths(tree)| - el.value + 1 else 0
      {
        ghost var before := Now();
        ghost var open := Waiting(start.order, el.value);
        OrderFits(tree, listed, start, before, el, tmp);
        OffsetIsNeeded(tree, listed, start, before, el.value, tmp);
        var off := nodes[order[el.value]].offset;
        OpenStep(tree, listed, before, open, {}, off);
        RegisterNodeDependencies(off, listed, open + {off}, {});
        FinishStep(tree, listed, Now(), open, {}, off);
        WalkStep(tree, listed, start, before, Now(), el.value, tmp);
        el := tmp;
        tmp := Next(order, tmp);
      }
      WalkEnds(tree, listed, start, Now(), tmp);
    }

    /** `fdtgen_generate` on a context in which only nodes were listed: all listed nodes exist and all
        references can be followed. */
    method Generate() returns (out: Node)
      requires Suitable(tree, nodes.Keys) && Ordered(Now()) && deps == map[]
      requires forall p | p in nodes :: nodes[p].cnt == 0
      modifies this
      ensures nodes.Keys == Needed(tree, old(nodes).Keys) + {[]}
      ensures out == Trimmed(tree, [], Needed(tree, old(nodes).Keys), Todo(old(nodes)))
      ensures Paths(out) == Needed(tree, old(nodes).Keys) + {[]}
      ensures multiset(log) == multiset(old(log)) + multiset(Todo(old(nodes)))
      ensures OutputSpells(tree, old(nodes), out)
    {
      hide OutputSpells, Suitable, Trimmed, Settled, Logged, Visited, Entered, Scanned, Startable, Todo, Ordered,
          Needed, Unique, At;
      ghost var listed := nodes.Keys;
      ghost var s0 := Now();
      AllListed(tree, s0);
      var found := FindNodesToKeep([], tree, listed);
      ghost var s1 := Now();
      ScanEnters(tree, listed, s0, s1);
      ResolveAllDependencies(listed);
      RootNotNeeded(tree, listed);
      SameFlags(s0.nodes, s1.nodes, nodes);
      nodes := nodes[[] := Entry([], 1, false)];
      ghost var kept := nodes;
      out := TrimTree(tree, []);
      GeneratedTree(tree, listed, s0.nodes, kept, nodes, out);
      LoggedAll(old(log), log, kept, nodes);
      OutputMeans(tree, s0.nodes, out);
    }
  }
}
