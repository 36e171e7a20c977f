/**
 What libfdtgen/fdtgen.c has recorded at any point while it follows references: the keys of its node
 table, the lists of its dependency table, and the calls that are still running.
 */
module FdtClosure {

  import opened FdtTree

  type Deps = map<Path, seq<Path>>

  ghost predicate Recorded(deps: Deps, p: Path, q: Path) {
    q == p || (p in deps && q in deps[p])
  }

  ghost predicate RegisteredUpTo(deps: Deps, p: Path, qs: seq<Path>) {
    forall q | q in qs :: Recorded(deps, p, q)
  }

  ghost predicate Registered(t: Node, deps: Deps, p: Path) {
    p == [] || RegisteredUpTo(deps, p, Refs(t, p))
  }

  ghost predicate Sound(t: Node, listed: set<Path>, keys: set<Path>, deps: Deps) {
    && keys <= Needed(t, listed)
    && deps.Keys <= Needed(t, listed)
    && (forall p, q | p in deps && q in deps[p] :: q in Refs(t, p))
  }

  /**
   The state of the tables while the registrations of the nodes in `open` and the searches for the
   nodes in `sought` are running: everything else that was reached is complete.
   */
  ghost predicate Progress(t: Node, listed: set<Path>, keys: set<Path>, deps: Deps, open: set<Path>,
      sought: set<Path>)
  {
    && Sound(t, listed, keys, deps)
    && sought <= Needed(t, listed)
    && (forall p | p in keys || p in deps :: p in open || Registered(t, deps, p))
    && (forall p, q | p in deps && q in deps[p] :: q in sought || KeptUp(keys, q))
    && (forall p | p in keys :: KeptUp(keys, p) || exists q | q in sought :: p <= q)
  }

  /** The pairs of nodes not yet recorded as dependencies: what makes following cycles end. */
  ghost function Unrecorded(t: Node, deps: Deps): set<(Path, Path)> {
    set p, q | p in Paths(t) && q in Paths(t) && !(p in deps && q in deps[p]) :: (p, q)
  }

  ghost predicate Grown(before: Deps, after: Deps) {
    forall p | p in before :: p in after && before[p] <= after[p]
  }

  lemma GrownKeepsRegistered(t: Node, before: Deps, after: Deps, p: Path)
    requires Grown(before, after) && Registered(t, before, p)
    ensures Registered(t, after, p)
  {
  }

  lemma GrownIsSmaller(t: Node, before: Deps, after: Deps)
    requires Grown(before, after)
    ensures Unrecorded(t, after) <= Unrecorded(t, before)
  {
  }

  // ---- The steps ----

  /** A node whose dependencies get a list. */
  lemma OpenList(t: Node, listed: set<Path>, keys: set<Path>, deps: Deps, open: set<Path>, sought: set<Path>, p: Path)
    requires Progress(t, listed, keys, deps, open, sought)
    requires p in open && p in Needed(t, listed) && p !in deps
    ensures Progress(t, listed, keys, deps[p := []], open, sought) && Grown(deps, deps[p := []])
  {
    var after := deps[p := []];
    assert Grown(deps, after);
    forall a | a in keys || a in after
      ensures a in open || Registered(t, after, a)
    {
      if a !in open {
        GrownKeepsRegistered(t, deps, after, a);
      }
    }
  }

  /** A reference that is entered in the list. */
  lemma Record(t: Node, listed: set<Path>, keys: set<Path>, deps: Deps, open: set<Path>, sought: set<Path>, p: Path,
      q: Path)
    requires Closed(t, Needed(t, listed)) && Progress(t, listed, keys, deps, open, sought)
    requires p in deps && p in open && q in Refs(t, p)
    ensures var after := deps[p := deps[p] + [q]];
            && Progress(t, listed, keys, after, open, if q == [] then sought else sought + {q})
            && Grown(deps, after)
  {
    var after := deps[p := deps[p] + [q]];
    assert Grown(deps, after);
    forall a | a in keys || a in after
      ensures a in open || Registered(t, after, a)
    {
      if a !in open {
        GrownKeepsRegistered(t, deps, after, a);
      }
    }
  }

  lemma RecordShrinks(t: Node, deps: Deps, p: Path, q: Path)
    requires p in deps && q in Refs(t, p) && q !in deps[p] && p in Paths(t)
    ensures Unrecorded(t, deps[p := deps[p] + [q]]) < Unrecorded(t, deps)
  {
    var after := deps[p := deps[p] + [q]];
    GrownIsSmaller(t, deps, after);
    RefsArePaths(t, p);
    assert q in after[p] by {
      assert after[p][|deps[p]|] == q;
    }
    assert (p, q) in Unrecorded(t, deps) && (p, q) !in Unrecorded(t, after);
  }

  /** A node on the way up from one that is sought enters the table. */
  lemma AddNode(t: Node, listed: set<Path>, keys: set<Path>, deps: Deps, open: set<Path>, sought: set<Path>, p: Path,
      q: Path)
    requires Closed(t, Needed(t, listed)) && Progress(t, listed, keys, deps, open, sought)
    requires q in sought && p <= q && p != []
    ensures Progress(t, listed, keys + {p}, deps, open + {p}, sought)
    ensures p in deps ==> Progress(t, listed, keys + {p}, deps, open, sought)
    ensures p in keys ==> Progress(t, listed, keys + {p}, deps, open, sought)
  {
    assert KeptUp(Needed(t, listed), q);
    assert p == q[..|p|];
    forall a | KeptUp(keys, a)
      ensures KeptUp(keys + {p}, a)
    {
    }
  }

  lemma Opened(t: Node, listed: set<Path>, keys: set<Path>, deps: Deps, open: set<Path>, sought: set<Path>, p: Path)
    requires Progress(t, listed, keys, deps, open, sought)
    ensures Progress(t, listed, keys, deps, open + {p}, sought)
  {
  }

  lemma Finished(t: Node, listed: set<Path>, keys: set<Path>, deps: Deps, open: set<Path>, sought: set<Path>, p: Path)
    requires Progress(t, listed, keys, deps, open + {p}, sought) && Registered(t, deps, p)
    ensures Progress(t, listed, keys, deps, open, sought)
  {
  }

  lemma Found(t: Node, listed: set<Path>, keys: set<Path>, deps: Deps, open: set<Path>, sought: set<Path>, q: Path)
    requires Progress(t, listed, keys, deps, open, sought + {q}) && KeptUp(keys, q)
    ensures Progress(t, listed, keys, deps, open, sought)
  {
    forall p | p in keys && p <= q
      ensures KeptUp(keys, p)
    {
      forall k | 0 < k <= |p|
        ensures p[..k] in keys
      {
        assert p[..k] == q[..k];
      }
    }
  }

  // ---- The ends ----

  /** The listed nodes and their ancestors, before any reference is followed. */
  ghost predicate Above(listed: set<Path>, p: Path) {
    exists l | l in listed :: p <= l
  }

  lemma StartProgress(t: Node, listed: set<Path>, keys: set<Path>)
    requires Unique(t) && listed <= Paths(t) - {[]}
    requires forall p :: p in keys <==> p != [] && Above(listed, p)
    ensures Progress(t, listed, keys, map[], keys, {})
    ensures listed <= keys
  {
    NeededIsClosed(t, listed);
    forall p | p in keys
      ensures p in Needed(t, listed) && KeptUp(keys, p)
    {
      var l :| l in listed && p <= l;
      assert KeptUp(Needed(t, listed), l);
      assert p == l[..|p|];
      forall k | 0 < k <= |p|
        ensures p[..k] in keys
      {
        assert p[..k] <= l;
      }
    }
    forall l | l in listed
      ensures l in keys
    {
      assert l <= l;
    }
  }

  /** When nothing is running any more, the table holds exactly the least closed set. */
  lemma CompleteIsNeeded(t: Node, listed: set<Path>, keys: set<Path>, deps: Deps)
    requires Progress(t, listed, keys, deps, {}, {}) && listed <= keys && [] !in keys
    ensures keys == Needed(t, listed)
  {
    forall p, q | p in keys && q in Refs(t, p) && q != []
      ensures q in keys
    {
      assert Registered(t, deps, p);
      assert Recorded(deps, p, q);
      if q != p {
        assert KeptUp(keys, q);
        assert q[..|q|] == q;
      }
    }
    assert Closed(t, keys);
    NeededIsLeast(t, listed, keys);
  }
}
