/**
 The walk of libfdtgen/fdtgen.c over the node table, which grows while it is walked over, and what
 the whole run leaves in the table.
 */
module FdtResolve {

  import opened FdtTree
  import opened FdtClosure
  import opened FdtTables
  import opened FdtScan
  import opened FdtTrim
  import opened FdtOutcome
  import opened FdtWork

  /** The entries from index `k` on. */
  ghost function Waiting(order: seq<Path>, k: nat): set<Path> {
    set j | k <= j < |order| :: order[j]
  }

  /** `hh.next` */
  function Next(order: seq<Path>, el: Option<nat>): Option<nat> {
    if el.Some? && el.value + 1 < |order| then Some(el.value + 1) else None
  }

  /** The tables after the listed nodes and their ancestors were entered. */
  ghost predicate Entered(t: Node, listed: set<Path>, s: Tables) {
    && Suitable(t, listed) && Ordered(s) && s.deps == map[]
    && (forall p :: p in s.nodes <==> p != [] && Above(listed, p))
    && (forall p | p in s.nodes :: s.nodes[p].offset == p)
  }

  /** Where the walk over the table that started in `s` is: `el` is next, and `tmp` after it. */
  ghost predicate Walking(t: Node, listed: set<Path>, s: Tables, s': Tables, el: Option<nat>, tmp: Option<nat>) {
    && Since(t, s, s')
    && (el.Some? ==> el.value < |s'.order|)
    && (tmp.Some? ==> el.Some? && tmp.value == el.value + 1 < |s'.order|)
    && (el.Some? && tmp.None? ==> el.value + 1 >= |s.order|)
    && Doing(t, listed, s', Waiting(s.order, if el.Some? then el.value else |s.order|), {})
  }

  lemma AtRoot(t: Node)
    ensures At(t, []) == Some(t)
  {
  }

  lemma ScanEnters(t: Node, listed: set<Path>, s: Tables, s': Tables)
    requires Suitable(t, listed) && Startable(t, listed, s) && s.nodes.Keys == listed && s.deps == map[]
    requires Scanned(listed, s, s', [], t.children)
    ensures Entered(t, listed, s')
    ensures s.nodes.Keys <= s'.nodes.Keys
    ensures forall p | p in s'.nodes :: s'.nodes[p].disable == (p in s.nodes && s.nodes[p].disable)
    ensures forall p | p in s'.nodes :: s'.nodes[p].cnt == if p in s.nodes then s.nodes[p].cnt else 0
  {
    hide Unique, Resolvable, Above, Under, At;
    AtRoot(t);
    forall p
      ensures p in s'.nodes <==> p != [] && Above(listed, p)
      ensures p in s'.nodes ==> s'.nodes[p] == Located(s.nodes, p)
    {
      if Above(listed, p) {
        UnderAll(t, listed, s, [], p);
      }
    }
  }

  lemma WalkStarts(t: Node, listed: set<Path>, s: Tables)
    requires Entered(t, listed, s)
    ensures var el := if s.order == [] then None else Some(0); Walking(t, listed, s, s, el, Next(s.order, el))
  {
    SinceSelf(t, s);
    StartProgress(t, listed, s.nodes.Keys);
    assert Waiting(s.order, 0) == s.nodes.Keys;
  }

  /** The node whose references the walk follows next. */
  lemma OffsetIsNeeded(t: Node, listed: set<Path>, s: Tables, s': Tables, k: nat, tmp: Option<nat>)
    requires Entered(t, listed, s) && Walking(t, listed, s, s', Some(k), tmp)
    ensures s'.order[k] in s'.nodes
    ensures var off := s'.nodes[s'.order[k]].offset; off == [] || off in Needed(t, listed)
    ensures k < |s.order| ==> s'.order[k] == s.order[k] && s'.nodes[s'.order[k]].offset == s.order[k]
    ensures Ordered(s')
  {
    hide Suitable;
    var p := s'.order[k];
    assert p in s'.order;
    if k < |s.order| {
      assert p == s.order[k] && p in s.nodes;
    } else {
      forall j | 0 <= j < |s.order|
        ensures s.order[j] != p
      {
        assert s.order[j] == s'.order[j];
      }
      var off := s'.nodes[p].offset;
      assert NewEntry(p, s'.nodes[p]);
      assert KeptUp(s'.nodes.Keys, p);
      assert off == p[..|off|];
    }
  }

  lemma SinceOrder(t: Node, s: Tables, s': Tables)
    requires Since(t, s, s')
    ensures s.order <= s'.order
  {
  }

  /** One entry less to wait for. */
  lemma WaitingStep(t: Node, listed: set<Path>, order: seq<Path>, s: Tables, k: nat)
    requires Doing(t, listed, s, Waiting(order, k), {})
    requires k < |order| ==> Registered(t, s.deps, order[k])
    ensures Doing(t, listed, s, Waiting(order, k + 1), {})
  {
    if k < |order| {
      assert Waiting(order, k) == Waiting(order, k + 1) + {order[k]};
      FinishStep(t, listed, s, Waiting(order, k + 1), {}, order[k]);
    } else {
      NothingWaits(order, k);
      NothingWaits(order, k + 1);
    }
  }

  lemma NothingWaits(order: seq<Path>, k: nat)
    requires k >= |order|
    ensures Waiting(order, k) == {}
  {
  }

  lemma WalkStep(t: Node, listed: set<Path>, s: Tables, s': Tables, s'': Tables, k: nat, tmp: Option<nat>)
    requires Entered(t, listed, s) && Walking(t, listed, s, s', Some(k), tmp) && Since(t, s', s'')
    requires Doing(t, listed, s'', Waiting(s.order, k), {})
    requires k < |s.order| ==> Registered(t, s''.deps, s.order[k])
    ensures Walking(t, listed, s, s'', tmp, Next(s''.order, tmp))
  {
    hide Suitable, Since, Doing, Waiting, Registered, Entered, Ordered;
    SinceTrans(t, s, s', s'');
    SinceOrder(t, s, s'');
    SinceOrder(t, s', s'');
    WaitingStep(t, listed, s.order, s'', k);
    if tmp.None? {
      NothingWaits(s.order, k + 1);
      NothingWaits(s.order, |s.order|);
    }
  }

  /** Distinct elements of a set are no more than the set. */
  lemma {:induction false} DistinctFit(xs: seq<Path>, all: set<Path>)
    requires forall x | x in xs :: x in all
    requires forall i, j | 0 <= i < j < |xs| :: xs[i] != xs[j]
    ensures |xs| <= |all|
  {
    if xs != [] {
      var x := xs[0];
      forall y | y in xs[1..]
        ensures y in all - {x}
      {
      }
      DistinctFit(xs[1..], all - {x});
    }
  }

  lemma OrderFits(t: Node, listed: set<Path>, s: Tables, s': Tables, el: Option<nat>, tmp: Option<nat>)
    requires Entered(t, listed, s) && Walking(t, listed, s, s', el, tmp)
    ensures |s'.order| <= |Paths(t)|
  {
    assert Ordered(s');
    assert s'.nodes.Keys <= Needed(t, listed) <= Paths(t);
    hide Suitable, Since, Doing;
    forall x | x in s'.order
      ensures x in Paths(t)
    {
      assert x in s'.nodes;
    }
    DistinctFit(s'.order, Paths(t));
  }

  lemma WalkEnds(t: Node, listed: set<Path>, s: Tables, s': Tables, tmp: Option<nat>)
    requires Entered(t, listed, s) && Walking(t, listed, s, s', None, tmp)
    ensures s'.nodes.Keys == Needed(t, listed)
    ensures forall p | p in s.nodes :: s'.nodes[p] == s.nodes[p]
    ensures forall p | p in s'.nodes && p !in s.nodes :: s'.nodes[p].cnt == 0 && !s'.nodes[p].disable
  {
    assert Waiting(s.order, |s.order|) == {};
    StartProgress(t, listed, s.nodes.Keys);
    CompleteIsNeeded(t, listed, s'.nodes.Keys, s'.deps);
  }

  lemma EnteredSuitable(t: Node, listed: set<Path>, s: Tables)
    requires Entered(t, listed, s)
    ensures Suitable(t, listed)
  {
  }

  /** At the start every entry is a listed node. */
  lemma AllListed(t: Node, s: Tables)
    requires Suitable(t, s.nodes.Keys) && Ordered(s)
    ensures Startable(t, s.nodes.Keys, s) && Unique(t) && At(t, []) == Some(t)
  {
    forall p | p in s.nodes
      ensures Above(s.nodes.Keys, p)
    {
      assert p <= p;
    }
  }

  /** The root entry makes no difference to the trimming below it. */
  lemma RootIsNoChild(n: Node, path: Path, keep: set<Path>, todo: set<Path>)
    ensures Trimmed(n, path, keep + {[]}, todo) == Trimmed(n, path, keep, todo)
    decreases n, 1
  {
    RootIsNoChildIn(n, n.children, path, keep, todo);
  }

  lemma {:induction false} RootIsNoChildIn(n: Node, cs: seq<Node>, path: Path, keep: set<Path>, todo: set<Path>)
    requires forall c | c in cs :: c in n.children
    ensures TrimmedIn(cs, path, keep + {[]}, todo) == TrimmedIn(cs, path, keep, todo)
    decreases n, 0, |cs|
  {
    if cs != [] {
      assert cs[0] in cs && forall c | c in cs[1..] :: c in cs;
      RootIsNoChild(cs[0], path + [cs[0].name], keep, todo);
      RootIsNoChildIn(n, cs[1..], path, keep, todo);
    }
  }

  /** What the run leaves: the needed nodes, each flagged one disabled. */
  lemma GeneratedTree(t: Node, listed: set<Path>, nodes: Table, kept: Table, after: Table, out: Node)
    requires Suitable(t, listed) && kept.Keys == Needed(t, listed) + {[]} && listed == nodes.Keys
    requires out == Trimmed(t, [], kept.Keys, Todo(kept)) && Todo(kept) == Todo(nodes)
    requires Visited(kept, after, []) && Settled(out, [], after.Keys, Todo(after)) && !kept[[]].disable
    ensures out == Trimmed(t, [], Needed(t, listed), Todo(nodes))
    ensures Paths(out) == Needed(t, listed) + {[]}
    ensures Todo(after) == {} && after.Keys == kept.Keys
  {
    hide Resolvable, Unique;
    var keep := Needed(t, listed);
    NeededIsClosed(t, listed);
    RootIsNoChild(t, [], keep, Todo(kept));
    TrimmedUnique(t, [], keep, Todo(kept));
    forall p
      ensures p in Paths(out) <==> p in keep + {[]}
      ensures p !in Todo(after)
    {
      OutputNodes(t, keep, Todo(kept), p);
      if p != [] && p in keep {
        PathsAreNodes(out, p);
        SettledPath(out, [], after.Keys, Todo(after), p);
        assert [] + p == p;
      }
    }
  }

  /** Only listed nodes are flagged. */
  lemma SameFlags(s0: Table, s1: Table, s2: Table)
    requires s0.Keys <= s1.Keys <= s2.Keys && [] !in s2
    requires forall p | p in s1 ::
        s1[p].disable == (p in s0 && s0[p].disable)
        && s1[p].cnt == if p in s0 then s0[p].cnt else 0
    requires forall p | p in s1 :: s2[p] == s1[p]
    requires forall p | p in s2 && p !in s1 :: s2[p].cnt == 0 && !s2[p].disable
    ensures Todo(s2[[] := Entry([], 1, false)]) == Todo(s0)
  {
  }

  lemma LoggedAll(log: seq<Path>, log': seq<Path>, a: Table, b: Table)
    requires Logged(log, log', a, b) && Todo(b) == {}
    ensures multiset(log') == multiset(log) + multiset(Todo(a))
  {
    assert Todo(a) - Todo(b) == Todo(a);
  }
}
