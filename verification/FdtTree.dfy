/**
 Device trees as libfdtgen/fdtgen.c sees them through libfdt: named nodes with properties, paths
 from the root, phandle lookup, and the references that the trimming code follows.
 */
module FdtTree {

  datatype Option<+T> = None | Some(value: T)

  type Byte = b: nat | b < 256

  datatype Prop = Prop(name: string, value: seq<Byte>)

  datatype Node = Node(name: string, props: seq<Prop>, children: seq<Node>)

  /** The names from below the root down to a node; the root is []. */
  type Path = seq<string>

  // ---- Paths ----

  function Paths(t: Node): set<Path> {
    {[]} + PathsIn(t.children)
  }

  function PathsIn(cs: seq<Node>): set<Path> {
    if cs == [] then {}
    else (set q | q in Paths(cs[0]) :: [cs[0].name] + q) + PathsIn(cs[1..])
  }

  /** Siblings have different names, all over the tree. */
  ghost predicate Unique(t: Node) {
    && (forall i, j | 0 <= i < j < |t.children| :: t.children[i].name != t.children[j].name)
    && (forall i | 0 <= i < |t.children| :: Unique(t.children[i]))
  }

  function FindChild(cs: seq<Node>, name: string): (r: Option<nat>)
    ensures r.Some? ==> r.value < |cs| && cs[r.value].name == name
    ensures r.None? ==> forall i | 0 <= i < |cs| :: cs[i].name != name
  {
    if cs == [] then None
    else if cs[0].name == name then Some(0)
    else match FindChild(cs[1..], name)
         case None => None
         case Some(i) => Some(i + 1)
  }

  /** The node at a path. */
  function At(t: Node, p: Path): Option<Node>
    decreases |p|
  {
    if p == [] then Some(t)
    else match FindChild(t.children, p[0])
         case None => None
         case Some(i) => At(t.children[i], p[1..])
  }

  lemma {:induction false} PathsInIff(cs: seq<Node>, p: Path)
    ensures p in PathsIn(cs) <==> p != [] && exists i | 0 <= i < |cs| :: cs[i].name == p[0] && p[1..] in Paths(cs[i])
  {
    if cs != [] {
      PathsInIff(cs[1..], p);
      if p in PathsIn(cs) {
        if p !in PathsIn(cs[1..]) {
          var q :| q in Paths(cs[0]) && p == [cs[0].name] + q;
          assert cs[0].name == p[0] && p[1..] == q;
        } else {
          var i :| 0 <= i < |cs[1..]| && cs[1..][i].name == p[0] && p[1..] in Paths(cs[1..][i]);
          assert cs[i + 1].name == p[0] && p[1..] in Paths(cs[i + 1]);
        }
      }
      if p != [] && exists i | 0 <= i < |cs| :: cs[i].name == p[0] && p[1..] in Paths(cs[i]) {
        var i :| 0 <= i < |cs| && cs[i].name == p[0] && p[1..] in Paths(cs[i]);
        if i == 0 {
          assert p == [cs[0].name] + p[1..];
        } else {
          assert cs[1..][i - 1] == cs[i];
        }
      }
    }
  }

  /** One step down. */
  lemma PathsStep(t: Node, p: Path)
    requires Unique(t) && p != []
    ensures p in Paths(t)
        <==> FindChild(t.children, p[0]).Some? && p[1..] in Paths(t.children[FindChild(t.children, p[0]).value])
  {
    PathsInIff(t.children, p);
  }

  lemma {:induction false} PathsAreNodes(t: Node, p: Path)
    requires Unique(t)
    ensures p in Paths(t) <==> At(t, p).Some?
    decreases |p|
  {
    if p != [] {
      PathsStep(t, p);
      if FindChild(t.children, p[0]).Some? {
        PathsAreNodes(t.children[FindChild(t.children, p[0]).value], p[1..]);
      }
    }
  }

  lemma {:induction false} AtUnique(t: Node, p: Path)
    requires Unique(t) && At(t, p).Some?
    ensures Unique(At(t, p).value)
    decreases |p|
  {
    if p != [] {
      AtUnique(t.children[FindChild(t.children, p[0]).value], p[1..]);
    }
  }

  /** The children of the node at `p` are the nodes at `p` extended by their names. */
  lemma {:induction false} AtChild(t: Node, p: Path, i: nat)
    requires Unique(t) && At(t, p).Some? && i < |At(t, p).value.children|
    ensures At(t, p + [At(t, p).value.children[i].name]) == Some(At(t, p).value.children[i])
    decreases |p|
  {
    var c := At(t, p).value.children[i];
    if p == [] {
      assert ([] + [c.name])[1..] == [];
    } else {
      var d := t.children[FindChild(t.children, p[0]).value];
      AtChild(d, p[1..], i);
      assert (p + [c.name])[1..] == p[1..] + [c.name];
    }
  }

  /** Going down in two legs. */
  lemma {:induction false} AtConcat(t: Node, p: Path, q: Path)
    requires At(t, p).Some?
    ensures At(t, p + q) == At(At(t, p).value, q)
    decreases |p|
  {
    if p == [] {
      assert [] + q == q;
    } else {
      AtConcat(t.children[FindChild(t.children, p[0]).value], p[1..], q);
      assert (p + q)[1..] == p[1..] + q;
    }
  }

  lemma {:induction false} AtPrefix(t: Node, p: Path, q: Path)
    requires At(t, p + q).Some?
    ensures At(t, p).Some?
    decreases |p|
  {
    if p != [] {
      assert (p + q)[1..] == p[1..] + q;
      AtPrefix(t.children[FindChild(t.children, p[0]).value], p[1..], q);
    }
  }

  lemma ChildrenAt(t: Node, p: Path)
    requires Unique(t) && At(t, p).Some?
    ensures var cs := At(t, p).value.children; forall i | 0 <= i < |cs| :: At(t, p + [cs[i].name]) == Some(cs[i])
  {
    var cs := At(t, p).value.children;
    forall i | 0 <= i < |cs|
      ensures At(t, p + [cs[i].name]) == Some(cs[i])
    {
      AtChild(t, p, i);
    }
  }

  /** The child on the way from a node down to another. */
  lemma OnTheWay(t: Node, p: Path, q: Path) returns (i: nat)
    requires Unique(t) && q in Paths(t) && p <= q && p != q
    ensures At(t, p).Some? && i < |At(t, p).value.children| && p + [At(t, p).value.children[i].name] <= q
  {
    PathsAreNodes(t, q);
    assert q == p + q[|p|..];
    AtPrefix(t, p, q[|p|..]);
    AtConcat(t, p, q[|p|..]);
    i := FindChild(At(t, p).value.children, q[|p|]).value;
  }

  // ---- Properties and phandles ----

  function GetProp(props: seq<Prop>, name: string): Option<seq<Byte>> {
    if props == [] then None
    else if props[0].name == name then Some(props[0].value)
    else GetProp(props[1..], name)
  }

  /** `fdt32_ld`. */
  function Be32(v: seq<Byte>, off: nat): nat
    requires off + 4 <= |v|
  {
    var a: nat, b: nat, c: nat, d: nat := v[off], v[off + 1], v[off + 2], v[off + 3];
    ((a * 256 + b) * 256 + c) * 256 + d
  }

  function Phandle(n: Node): Option<nat> {
    match GetProp(n.props, "phandle")
    case Some(v) => if |v| == 4 then Some(Be32(v, 0)) else None
    case None => None
  }

  /** `fdt_node_offset_by_phandle`: the first node, in tree order, that has the phandle. */
  function ByPhandle(t: Node, ph: nat): Option<Path> {
    if Phandle(t) == Some(ph) then Some([]) else ByPhandleIn(t.children, ph)
  }

  function ByPhandleIn(cs: seq<Node>, ph: nat): Option<Path> {
    if cs == [] then None
    else match ByPhandle(cs[0], ph)
         case Some(q) => Some([cs[0].name] + q)
         case None => ByPhandleIn(cs[1..], ph)
  }

  /** 0 and -1 are no phandles. */
  function Resolve(t: Node, ph: nat): Option<Path> {
    if ph == 0 || ph == 0xFFFF_FFFF then None else ByPhandle(t, ph)
  }

  lemma {:induction false} PhandleIsPath(t: Node, ph: nat)
    ensures ByPhandle(t, ph).Some? ==> ByPhandle(t, ph).value in Paths(t)
    decreases t, 1
  {
    PhandleInIsPath(t, t.children, ph);
  }

  lemma {:induction false} PhandleInIsPath(t: Node, cs: seq<Node>, ph: nat)
    requires forall c | c in cs :: c < t
    ensures ByPhandleIn(cs, ph).Some? ==> ByPhandleIn(cs, ph).value in PathsIn(cs)
    decreases t, 0, |cs|
  {
    if cs != [] {
      assert cs[0] in cs && forall c | c in cs[1..] :: c in cs;
      PhandleIsPath(cs[0], ph);
      PhandleInIsPath(t, cs[1..], ph);
    }
  }

  // ---- The references that are followed ----

  const PROPS_WITH_DEP: set<string> :=
    {"phy-handle", "next-level-cache", "interrupt-parent", "interrupts-extended", "clocks", "power-domains"}

  const MAX_CELLS: nat := 0x1000_0000

  /** How many argument cells follow a reference to `target`; None when that cannot be told, or when
      the count of bytes would not fit an int. */
  function ArgumentCells(target: Node, cellsName: string, optional: bool): Option<nat> {
    match GetProp(target.props, cellsName)
    case None => if optional then Some(0) else None
    case Some(v) => if |v| < 4 || Be32(v, 0) >= MAX_CELLS then None else Some(Be32(v, 0))
  }

  /** The targets of a list of references with arguments, from byte `done` on. */
  function ListTargets(t: Node, value: seq<Byte>, done: nat, cellsName: string, optional: bool): Option<seq<Path>>
    decreases |value| - done
  {
    if |value| <= done then Some([])
    else if |value| < done + 4 then None
    else
      match Resolve(t, Be32(value, done))
      case None => None
      case Some(q) =>
        match At(t, q)
        case None => None
        case Some(target) =>
          match ArgumentCells(target, cellsName, optional)
          case None => None
          case Some(cells) =>
            match ListTargets(t, value, done + 4 + cells * 4, cellsName, optional)
            case None => None
            case Some(rest) => Some([q] + rest)
  }

  /** The first reference of a list and the rest. */
  lemma ListTargetsFirst(t: Node, value: seq<Byte>, done: nat, cellsName: string, optional: bool, q: Path, cells: nat)
    requires done + 4 <= |value| && Resolve(t, Be32(value, done)) == Some(q)
    requires At(t, q).Some? && ArgumentCells(At(t, q).value, cellsName, optional) == Some(cells)
    ensures var rest := ListTargets(t, value, done + 4 + cells * 4, cellsName, optional);
            ListTargets(t, value, done, cellsName, optional) == if rest.Some? then Some([q] + rest.value) else None
  {
  }

  lemma ListTargetsParts(t: Node, value: seq<Byte>, done: nat, cellsName: string, optional: bool)
      returns (q: Path, cells: nat)
    requires done < |value| && ListTargets(t, value, done, cellsName, optional).Some?
    ensures done + 4 <= |value| && Resolve(t, Be32(value, done)) == Some(q)
    ensures At(t, q).Some? && ArgumentCells(At(t, q).value, cellsName, optional) == Some(cells)
    ensures ListTargets(t, value, done + 4 + cells * 4, cellsName, optional).Some?
  {
    q := Resolve(t, Be32(value, done)).value;
    cells := ArgumentCells(At(t, q).value, cellsName, optional).value;
  }

  /** The nodes one property refers to, as far as the code follows it: all of `clocks` and
      `power-domains`, the first cell of the other four kinds. None for a malformed property. */
  function PropTargets(t: Node, p: Prop): Option<seq<Path>> {
    if p.name == "clocks" then ListTargets(t, p.value, 0, "#clock-cells", false)
    else if p.name == "power-domains" then ListTargets(t, p.value, 0, "#power-domain-cells", true)
    else if p.name in PROPS_WITH_DEP then
      if |p.value| < 4 then None
      else match Resolve(t, Be32(p.value, 0))
           case None => None
           case Some(q) => Some([q])
    else Some([])
  }

  function Targets(t: Node, props: seq<Prop>): Option<seq<Path>> {
    if props == [] then Some([])
    else
      match (PropTargets(t, props[0]), Targets(t, props[1..]))
      case (Some(a), Some(b)) => Some(a + b)
      case _ => None
  }

  lemma {:induction false} TargetsHold(t: Node, props: seq<Prop>, i: nat)
    requires Targets(t, props).Some? && i < |props|
    ensures PropTargets(t, props[i]).Some?
    ensures forall q | q in PropTargets(t, props[i]).value :: q in Targets(t, props).value
  {
    if i > 0 {
      TargetsHold(t, props[1..], i - 1);
    }
  }

  lemma {:induction false} TargetsComeFrom(t: Node, props: seq<Prop>, q: Path) returns (i: nat)
    requires Targets(t, props).Some? && q in Targets(t, props).value
    ensures i < |props| && PropTargets(t, props[i]).Some? && q in PropTargets(t, props[i]).value
  {
    if q in PropTargets(t, props[0]).value {
      i := 0;
    } else {
      i := TargetsComeFrom(t, props[1..], q);
      i := i + 1;
    }
  }

  /** Every reference below the root can be followed. */
  ghost predicate Resolvable(t: Node) {
    forall p | p in Paths(t) && p != [] :: At(t, p).Some? && Targets(t, At(t, p).value.props).Some?
  }

  /** The nodes that the node at `p` refers to. */
  function Refs(t: Node, p: Path): seq<Path> {
    match At(t, p)
    case None => []
    case Some(n) =>
      match Targets(t, n.props)
      case None => []
      case Some(qs) => qs
  }

  lemma {:induction false} ListTargetsArePaths(t: Node, value: seq<Byte>, done: nat, cellsName: string, optional: bool)
    ensures var r := ListTargets(t, value, done, cellsName, optional);
            r.Some? ==> forall q | q in r.value :: q in Paths(t)
    decreases |value| - done
  {
    if done + 4 <= |value| && Resolve(t, Be32(value, done)).Some? {
      PhandleIsPath(t, Be32(value, done));
      var q := Resolve(t, Be32(value, done)).value;
      if At(t, q).Some? && ArgumentCells(At(t, q).value, cellsName, optional).Some? {
        ListTargetsArePaths(t, value, done + 4 + ArgumentCells(At(t, q).value, cellsName, optional).value * 4,
            cellsName, optional);
      }
    }
  }

  lemma {:induction false} TargetsArePaths(t: Node, props: seq<Prop>)
    ensures var r := Targets(t, props); r.Some? ==> forall q | q in r.value :: q in Paths(t)
  {
    if props != [] {
      TargetsArePaths(t, props[1..]);
      var p := props[0];
      ListTargetsArePaths(t, p.value, 0, "#clock-cells", false);
      ListTargetsArePaths(t, p.value, 0, "#power-domain-cells", true);
      if |p.value| >= 4 {
        PhandleIsPath(t, Be32(p.value, 0));
      }
    }
  }

  lemma RefsArePaths(t: Node, p: Path)
    ensures forall q | q in Refs(t, p) :: q in Paths(t)
  {
    if At(t, p).Some? {
      TargetsArePaths(t, At(t, p).value.props);
    }
  }

  // ---- What has to be kept ----

  /** The node and all its ancestors below the root are in the set. */
  ghost predicate KeptUp(keep: set<Path>, p: Path) {
    forall k | 0 < k <= |p| :: p[..k] in keep
  }

  /** Every node of the set comes with its ancestors and the nodes it refers to; the root, which is
      always kept, is left out of account. */
  ghost predicate Closed(t: Node, keep: set<Path>) {
    && (forall p | p in keep :: KeptUp(keep, p))
    && (forall p, q | p in keep && q in Refs(t, p) && q != [] :: q in keep)
  }

  /** The least closed set that holds the listed nodes. */
  ghost function Needed(t: Node, listed: set<Path>): set<Path> {
    set p | p in Paths(t) && p != [] && forall keep: set<Path> | Closed(t, keep) && listed <= keep :: p in keep
  }

  lemma RootNotNeeded(t: Node, listed: set<Path>)
    ensures [] !in Needed(t, listed)
  {
  }

  lemma NeededIsClosed(t: Node, listed: set<Path>)
    requires Unique(t) && listed <= Paths(t) - {[]}
    ensures Closed(t, Needed(t, listed)) && listed <= Needed(t, listed)
  {
    var needed := Needed(t, listed);
    forall p, k: nat | p in needed && 0 < k <= |p|
      ensures p[..k] in needed
    {
      PathsAreNodes(t, p);
      assert p == p[..k] + p[k..];
      AtPrefix(t, p[..k], p[k..]);
      PathsAreNodes(t, p[..k]);
      forall keep: set<Path> | Closed(t, keep) && listed <= keep
        ensures p[..k] in keep
      {
        assert KeptUp(keep, p);
      }
    }
    forall p, q | p in needed && q in Refs(t, p) && q != []
      ensures q in needed
    {
      RefsArePaths(t, p);
    }
  }

  lemma NeededIsLeast(t: Node, listed: set<Path>, keep: set<Path>)
    requires Closed(t, keep) && listed <= keep
    ensures Needed(t, listed) <= keep
  {
  }

  // ---- The same as reachability ----

  /** From a node to its parent below the root, or to a node it refers to. */
  ghost predicate Leads(t: Node, p: Path, q: Path) {
    (|p| > 1 && q == p[..|p| - 1]) || (q in Refs(t, p) && q != [])
  }

  /** A way from a listed node. */
  ghost predicate Way(t: Node, listed: set<Path>, w: seq<Path>) {
    && w != [] && w[0] in listed
    && forall i | 0 < i < |w| :: Leads(t, w[i - 1], w[i])
  }

  ghost predicate Reachable(t: Node, listed: set<Path>, p: Path) {
    exists w :: Way(t, listed, w) && w[|w| - 1] == p
  }

  lemma GoOn(t: Node, listed: set<Path>, p: Path, q: Path)
    requires Reachable(t, listed, p) && Leads(t, p, q)
    ensures Reachable(t, listed, q)
  {
    var w :| Way(t, listed, w) && w[|w| - 1] == p;
    assert Way(t, listed, w + [q]);
  }

  lemma {:induction false} ReachUp(t: Node, listed: set<Path>, p: Path, k: nat)
    requires Reachable(t, listed, p) && 0 < k <= |p|
    ensures Reachable(t, listed, p[..k])
    decreases |p| - k
  {
    if k < |p| {
      ReachUp(t, listed, p, k + 1);
      assert p[..k + 1][..k] == p[..k];
      GoOn(t, listed, p[..k + 1], p[..k]);
    } else {
      assert p[..k] == p;
    }
  }

  lemma {:induction false} WayIsNeeded(t: Node, listed: set<Path>, w: seq<Path>, i: nat)
    requires Unique(t) && listed <= Paths(t) - {[]} && Way(t, listed, w) && i < |w|
    ensures w[i] in Needed(t, listed)
  {
    NeededIsClosed(t, listed);
    if i > 0 {
      WayIsNeeded(t, listed, w, i - 1);
      assert Leads(t, w[i - 1], w[i]) && KeptUp(Needed(t, listed), w[i - 1]);
    }
  }

  /** The nodes needed are exactly those that a way from a listed node leads to, over parents and
      references. */
  lemma NeededIsReachable(t: Node, listed: set<Path>, p: Path)
    requires Unique(t) && listed <= Paths(t) - {[]}
    ensures p in Needed(t, listed) <==> Reachable(t, listed, p)
  {
    if p in Needed(t, listed) {
      NeededIsReached(t, listed);
    } else if Reachable(t, listed, p) {
      var w :| Way(t, listed, w) && w[|w| - 1] == p;
      WayIsNeeded(t, listed, w, |w| - 1);
    }
  }

  lemma NeededIsReached(t: Node, listed: set<Path>)
    requires Unique(t) && listed <= Paths(t) - {[]}
    ensures forall p | p in Needed(t, listed) :: Reachable(t, listed, p)
  {
    var reached := set p | p in Needed(t, listed) && Reachable(t, listed, p);
    NeededIsClosed(t, listed);
    ReachedIsClosed(t, listed, reached);
    hide Needed, Closed, Refs, Paths;
    forall p | p in listed
      ensures p in reached
    {
      ListedIsReachable(t, listed, p);
    }
    NeededIsLeast(t, listed, reached);
  }

  lemma ListedIsReachable(t: Node, listed: set<Path>, p: Path)
    requires p in listed
    ensures Reachable(t, listed, p)
  {
    assert Way(t, listed, [p]);
  }

  lemma ReachedIsClosed(t: Node, listed: set<Path>, reached: set<Path>)
    requires Unique(t) && listed <= Paths(t) - {[]}
    requires reached == set q | q in Needed(t, listed) && Reachable(t, listed, q)
    ensures Closed(t, reached)
  {
    NeededIsClosed(t, listed);
    hide Reachable, Needed;
    forall q, k | q in reached && 0 < k <= |q|
      ensures q[..k] in reached
    {
      assert KeptUp(Needed(t, listed), q);
      ReachUp(t, listed, q, k);
    }
    forall q, r | q in reached && r in Refs(t, q) && r != []
      ensures r in reached
    {
      GoOn(t, listed, q, r);
    }
  }
}
