/**
 What the properties of a device tree mean, cell by cell: which nodes a property refers to, and what it is
 to be disabled. A reference is the four bytes of the phandle of its target; in a list, each reference is
 followed by as many argument cells as the target's own property spells.
 */
module FdtCells {

  import opened FdtTree
  import opened FdtTrim
  import opened FdtTables
  import opened FdtOutcome
  import opened FdtWork

  // ---- The first property of a name ----

  ghost predicate IsProp(props: seq<Prop>, name: string, value: seq<Byte>) {
    exists i | 0 <= i < |props| ::
      props[i] == Prop(name, value) && forall j | 0 <= j < i :: props[j].name != name
  }

  lemma {:induction false} GetPropMeans(props: seq<Prop>, name: string, value: seq<Byte>)
    ensures GetProp(props, name) == Some(value) <==> IsProp(props, name, value)
    ensures GetProp(props, name) == None <==> forall p | p in props :: p.name != name
  {
    if props != [] {
      GetPropMeans(props[1..], name, value);
      if props[0].name != name {
        if IsProp(props[1..], name, value) {
          var i :| 0 <= i < |props[1..]| && props[1..][i] == Prop(name, value)
            && forall j | 0 <= j < i :: props[1..][j].name != name;
          assert props[i + 1] == Prop(name, value);
          assert forall j | 0 < j < i + 1 :: props[j] == props[1..][j - 1];
        }
        if IsProp(props, name, value) {
          var i :| 0 <= i < |props| && props[i] == Prop(name, value) && forall j | 0 <= j < i :: props[j].name != name;
          assert props[1..][i - 1] == props[i];
          assert forall j | 0 <= j < i - 1 :: props[1..][j] == props[j + 1];
        }
      }
    }
  }

  // ---- Cells ----

  /** The four bytes of a 32-bit number, the most significant one first. */
  function BigEndian(n: nat): (r: seq<Byte>)
    requires n < 0x1_0000_0000
    ensures |r| == 4
  {
    [n / 0x100_0000, n / 0x1_0000 % 0x100, n / 0x100 % 0x100, n % 0x100]
  }

  lemma CellMeans(v: seq<Byte>, off: nat, n: nat)
    requires off + 4 <= |v| && n < 0x1_0000_0000
    ensures Be32(v, off) < 0x1_0000_0000
    ensures Be32(v, off) == n <==> v[off..off + 4] == BigEndian(n)
  {
    var cell := v[off..off + 4];
    assert Be32(v, off) == Be32(cell, 0);
    CellSpells(cell);
    SpellsCell(n);
  }

  lemma CellSpells(cell: seq<Byte>)
    requires |cell| == 4
    ensures Be32(cell, 0) < 0x1_0000_0000 && BigEndian(Be32(cell, 0)) == cell
  {
    var a: nat, b: nat, c: nat, d: nat := cell[0], cell[1], cell[2], cell[3];
    var n := ((a * 256 + b) * 256 + c) * 256 + d;
    assert n / 0x100 == (a * 256 + b) * 256 + c && n % 0x100 == d;
    assert n / 0x1_0000 == a * 256 + b && n / 0x100 % 0x100 == c;
    assert n / 0x100_0000 == a && n / 0x1_0000 % 0x100 == b;
  }

  lemma SpellsCell(n: nat)
    requires n < 0x1_0000_0000
    ensures Be32(BigEndian(n), 0) == n
  {
    var k := n / 0x100;
    assert n / 0x1_0000 == k / 0x100 && n / 0x100_0000 == k / 0x100 / 0x100;
  }

  // ---- Nodes in the order of the tree ----

  /** All nodes, each before what is below it. */
  function Preorder(t: Node): seq<Path> {
    [[]] + PreorderIn(t.children)
  }

  function PreorderIn(cs: seq<Node>): seq<Path> {
    if cs == [] then []
    else Under(cs[0].name, Preorder(cs[0])) + PreorderIn(cs[1..])
  }

  function Under(name: string, ps: seq<Path>): seq<Path> {
    seq(|ps|, i requires 0 <= i < |ps| => [name] + ps[i])
  }

  /** The node has this phandle property. */
  ghost predicate HasPhandle(t: Node, q: Path, cell: seq<Byte>) {
    At(t, q).Some? && IsProp(At(t, q).value.props, "phandle", cell)
  }

  /** Of these nodes, the first one with that phandle. */
  ghost predicate IsFirst(t: Node, ps: seq<Path>, cell: seq<Byte>, q: Path) {
    exists i | 0 <= i < |ps| :: ps[i] == q && HasPhandle(t, q, cell) && NoneBefore(t, ps, i, cell)
  }

  ghost predicate NoneBefore(t: Node, ps: seq<Path>, i: nat, cell: seq<Byte>)
    requires i <= |ps|
  {
    forall j | 0 <= j < i :: !HasPhandle(t, ps[j], cell)
  }

  /** The cell is the phandle of the node, and of no node before it. */
  ghost predicate Points(t: Node, cell: seq<Byte>, q: Path) {
    && |cell| == 4 && cell != [0, 0, 0, 0] && cell != [0xFF, 0xFF, 0xFF, 0xFF]
    && IsFirst(t, Preorder(t), cell, q)
  }

  ghost function FirstWith(t: Node, ps: seq<Path>, cell: seq<Byte>): Option<Path> {
    if ps == [] then None
    else if HasPhandle(t, ps[0], cell) then Some(ps[0])
    else FirstWith(t, ps[1..], cell)
  }

  lemma {:induction false} FirstWithMeans(t: Node, ps: seq<Path>, cell: seq<Byte>, q: Path)
    ensures FirstWith(t, ps, cell) == Some(q) <==> IsFirst(t, ps, cell, q)
  {
    hide HasPhandle;
    if ps != [] {
      FirstWithMeans(t, ps[1..], cell, q);
      if HasPhandle(t, ps[0], cell) {
        assert NoneBefore(t, ps, 0, cell);
      } else {
        if IsFirst(t, ps[1..], cell, q) {
          var i :| 0 <= i < |ps[1..]| && ps[1..][i] == q && HasPhandle(t, q, cell) && NoneBefore(t, ps[1..], i, cell);
          assert ps[i + 1] == q && forall j | 0 < j < i + 1 :: ps[j] == ps[1..][j - 1];
          assert NoneBefore(t, ps, i + 1, cell);
        }
        if IsFirst(t, ps, cell, q) {
          var i :| 0 <= i < |ps| && ps[i] == q && HasPhandle(t, q, cell) && NoneBefore(t, ps, i, cell);
          assert ps[1..][i - 1] == q && forall j | 0 <= j < i - 1 :: ps[1..][j] == ps[j + 1];
          assert NoneBefore(t, ps[1..], i - 1, cell);
        }
      }
    }
  }

  lemma {:induction false} FirstWithAppend(t: Node, a: seq<Path>, b: seq<Path>, cell: seq<Byte>)
    ensures FirstWith(t, a + b, cell) ==
              if FirstWith(t, a, cell).Some? then FirstWith(t, a, cell) else FirstWith(t, b, cell)
  {
    if a == [] {
      assert a + b == b;
    } else {
      assert (a + b)[1..] == a[1..] + b;
      FirstWithAppend(t, a[1..], b, cell);
    }
  }

  /** Below a child, looking from the tree is looking from the child. */
  lemma {:induction false} FirstWithUnder(t: Node, i: nat, ps: seq<Path>, cell: seq<Byte>)
    requires Unique(t) && i < |t.children|
    ensures var c := t.children[i];
            FirstWith(t, Under(c.name, ps), cell) ==
              match FirstWith(c, ps, cell) case None => None case Some(q) => Some([c.name] + q)
  {
    if ps != [] {
      var c := t.children[i];
      assert Under(c.name, ps)[1..] == Under(c.name, ps[1..]);
      FirstWithUnder(t, i, ps[1..], cell);
      AtUnder(t, i, ps[0]);
    }
  }

  lemma AtUnder(t: Node, i: nat, p: Path)
    requires Unique(t) && i < |t.children|
    ensures At(t, [t.children[i].name] + p) == At(t.children[i], p)
  {
    AtChild(t, [], i);
    assert ([t.children[i].name] + p)[1..] == p;
  }

  lemma PhandleMeans(n: Node, ph: nat)
    requires ph < 0x1_0000_0000
    ensures Phandle(n) == Some(ph) <==> IsProp(n.props, "phandle", BigEndian(ph))
  {
    GetPropMeans(n.props, "phandle", BigEndian(ph));
    var v := GetProp(n.props, "phandle");
    if v.Some? && |v.value| == 4 {
      CellMeans(v.value, 0, ph);
      assert v.value[0..4] == v.value;
    }
  }

  /** Looking for a phandle finds the first node in the order of the tree that has it. */
  lemma {:induction false} ByPhandleMeans(t: Node, ph: nat)
    requires Unique(t) && ph < 0x1_0000_0000
    ensures ByPhandle(t, ph) == FirstWith(t, Preorder(t), BigEndian(ph))
    decreases t, 1
  {
    var cell := BigEndian(ph);
    PhandleMeans(t, ph);
    assert Preorder(t)[0] == [] && Preorder(t)[1..] == PreorderIn(t.children);
    assert At(t, []) == Some(t);
    ByPhandleInMeans(t, 0, ph);
    assert t.children[0..] == t.children;
  }

  lemma {:induction false} ByPhandleInMeans(t: Node, i: nat, ph: nat)
    requires Unique(t) && ph < 0x1_0000_0000 && i <= |t.children|
    ensures ByPhandleIn(t.children[i..], ph) == FirstWith(t, PreorderIn(t.children[i..]), BigEndian(ph))
    decreases t, 0, |t.children| - i
  {
    if i < |t.children| {
      var cs, cell := t.children[i..], BigEndian(ph);
      assert cs[0] == t.children[i] && cs[1..] == t.children[i + 1..];
      ByPhandleMeans(t.children[i], ph);
      ByPhandleInMeans(t, i + 1, ph);
      FirstWithUnder(t, i, Preorder(cs[0]), cell);
      FirstWithAppend(t, Under(cs[0].name, Preorder(cs[0])), PreorderIn(cs[1..]), cell);
    }
  }

  /** Following a reference leads to the node whose phandle it spells. */
  lemma ResolveMeans(t: Node, value: seq<Byte>, off: nat, q: Path)
    requires Unique(t) && off + 4 <= |value|
    ensures Resolve(t, Be32(value, off)) == Some(q) <==> Points(t, value[off..off + 4], q)
  {
    var cell, ph := value[off..off + 4], Be32(value, off);
    CellMeans(value, off, 0);
    CellMeans(value, off, 0xFFFF_FFFF);
    CellMeans(value, off, ph);
    assert BigEndian(0) == [0, 0, 0, 0] && BigEndian(0xFFFF_FFFF) == [0xFF, 0xFF, 0xFF, 0xFF];
    hide *;
    FoundMeans(t, ph, cell, q);
  }

  lemma FoundMeans(t: Node, ph: nat, cell: seq<Byte>, q: Path)
    requires Unique(t) && ph < 0x1_0000_0000 && cell == BigEndian(ph)
    requires ph == 0 <==> cell == [0, 0, 0, 0]
    requires ph == 0xFFFF_FFFF <==> cell == [0xFF, 0xFF, 0xFF, 0xFF]
    ensures Resolve(t, ph) == Some(q) <==> Points(t, cell, q)
  {
    ByPhandleMeans(t, ph);
    FirstWithMeans(t, Preorder(t), cell, q);
    hide IsFirst, Preorder, ByPhandle, FirstWith, Unique;
  }

  // ---- What a property refers to ----

  /** Each reference of a list with the number of its argument cells. */
  datatype Group = Group(target: Path, args: nat)

  /** The node wants that many argument cells: the property spells the number, or is absent and optional. */
  ghost predicate Wants(n: Node, cellsName: string, optional: bool, args: nat) {
    || (optional && args == 0 && forall p | p in n.props :: p.name != cellsName)
    || (args < 0x1000_0000 && exists v :: IsProp(n.props, cellsName, v) && |v| >= 4 && v[..4] == BigEndian(args))
  }

  /** The value is the references of the groups, each followed by its argument cells; the arguments of the
      last one may be cut short. */
  ghost predicate Spells(t: Node, value: seq<Byte>, cellsName: string, optional: bool, groups: seq<Group>)
    decreases |groups|
  {
    if groups == [] then value == []
    else
      var g := groups[0];
      && |value| >= 4 && Points(t, value[..4], g.target)
      && At(t, g.target).Some? && Wants(At(t, g.target).value, cellsName, optional, g.args)
      && if |value| < 4 + 4 * g.args then |groups| == 1
         else Spells(t, value[4 + 4 * g.args..], cellsName, optional, groups[1..])
  }

  function Target(groups: seq<Group>): seq<Path> {
    seq(|groups|, i requires 0 <= i < |groups| => groups[i].target)
  }

  lemma WantsMeans(n: Node, cellsName: string, optional: bool, args: nat)
    ensures ArgumentCells(n, cellsName, optional) == Some(args) <==> Wants(n, cellsName, optional, args)
  {
    var w := GetProp(n.props, cellsName);
    GetPropMeans(n.props, cellsName, if w.Some? then w.value else []);
    if w.Some? && |w.value| >= 4 && args < MAX_CELLS {
      CellMeans(w.value, 0, args);
      assert w.value[0..4] == w.value[..4];
    }
    forall v | IsProp(n.props, cellsName, v)
      ensures w == Some(v)
    {
      GetPropMeans(n.props, cellsName, v);
    }
  }

  function From(value: seq<Byte>, done: nat): seq<Byte> {
    if done < |value| then value[done..] else []
  }

  lemma {:induction false} ListIsSpelled(t: Node, value: seq<Byte>, done: nat, cellsName: string, optional: bool)
      returns (groups: seq<Group>)
    requires Unique(t) && ListTargets(t, value, done, cellsName, optional).Some?
    ensures Spells(t, From(value, done), cellsName, optional, groups)
    ensures ListTargets(t, value, done, cellsName, optional) == Some(Target(groups))
    decreases |value| - done
  {
    if done >= |value| {
      groups := [];
      assert Target(groups) == [];
    } else {
      var q, args := ListTargetsParts(t, value, done, cellsName, optional);
      var next := done + 4 + args * 4;
      var more := ListIsSpelled(t, value, next, cellsName, optional);
      ResolveMeans(t, value, done, q);
      WantsMeans(At(t, q).value, cellsName, optional, args);
      hide *;
      FromSteps(value, done, args, next);
      OneGroup(t, value, done, cellsName, optional, Group(q, args), next);
      SpellsMore(t, From(value, done), From(value, next), cellsName, optional, Group(q, args), more);
      groups := [Group(q, args)] + more;
    }
  }

  lemma FromSteps(value: seq<Byte>, done: nat, args: nat, next: nat)
    requires done + 4 <= |value| && next == done + 4 + args * 4
    ensures |From(value, done)| >= 4 && From(value, done)[..4] == value[done..done + 4]
    ensures From(value, next) == Behind(From(value, done), args)
  {
  }

  /** What follows a reference and its arguments. */
  function Behind(value: seq<Byte>, args: nat): seq<Byte> {
    if |value| < 4 + 4 * args then [] else value[4 + 4 * args..]
  }

  lemma OneGroup(t: Node, value: seq<Byte>, done: nat, cellsName: string, optional: bool, g: Group, next: nat)
    requires Unique(t) && done + 4 <= |value| && next == done + 4 + g.args * 4
    requires Points(t, value[done..done + 4], g.target)
    requires At(t, g.target).Some? && Wants(At(t, g.target).value, cellsName, optional, g.args)
    ensures var rest := ListTargets(t, value, next, cellsName, optional);
            ListTargets(t, value, done, cellsName, optional) == if rest.Some? then Some([g.target] + rest.value)
                else None
  {
    ResolveMeans(t, value, done, g.target);
    WantsMeans(At(t, g.target).value, cellsName, optional, g.args);
    hide Points, Wants, ListTargets;
    ListTargetsFirst(t, value, done, cellsName, optional, g.target, g.args);
  }

  lemma SpellsMore(t: Node, value: seq<Byte>, rest: seq<Byte>, cellsName: string, optional: bool, g: Group,
      more: seq<Group>)
    requires |value| >= 4 && Points(t, value[..4], g.target)
    requires At(t, g.target).Some? && Wants(At(t, g.target).value, cellsName, optional, g.args)
    requires rest == Behind(value, g.args) && Spells(t, rest, cellsName, optional, more)
    ensures Spells(t, value, cellsName, optional, [g] + more)
    ensures Target([g] + more) == [g.target] + Target(more)
  {
    hide Points, Wants;
    assert ([g] + more)[0] == g && ([g] + more)[1..] == more;
  }

  lemma {:induction false} SpelledIsList(t: Node, value: seq<Byte>, done: nat, cellsName: string, optional: bool,
      groups: seq<Group>)
    requires Unique(t) && Spells(t, From(value, done), cellsName, optional, groups)
    ensures ListTargets(t, value, done, cellsName, optional) == Some(Target(groups))
    decreases |groups|
  {
    if groups == [] {
      assert Target(groups) == [];
    } else {
      SpellsFirst(t, From(value, done), cellsName, optional, groups);
      assert done + 4 <= |value|;
      hide *;
      var g := groups[0];
      var next := done + 4 + g.args * 4;
      FromSteps(value, done, g.args, next);
      OneGroup(t, value, done, cellsName, optional, g, next);
      SpelledIsList(t, value, next, cellsName, optional, groups[1..]);
    }
  }

  lemma SpellsFirst(t: Node, value: seq<Byte>, cellsName: string, optional: bool, groups: seq<Group>)
    requires groups != [] && Spells(t, value, cellsName, optional, groups)
    ensures var g := groups[0];
            && |value| >= 4 && Points(t, value[..4], g.target)
            && At(t, g.target).Some? && Wants(At(t, g.target).value, cellsName, optional, g.args)
            && Spells(t, Behind(value, g.args), cellsName, optional, groups[1..])
    ensures Target(groups) == [groups[0].target] + Target(groups[1..])
  {
    hide Points, Wants;
    assert |groups| == 1 ==> groups[1..] == [];
  }

  ghost predicate SpellsList(t: Node, value: seq<Byte>, cellsName: string, optional: bool, targets: seq<Path>) {
    exists groups :: Spells(t, value, cellsName, optional, groups) && Target(groups) == targets
  }

  /** The nodes that a property refers to, by its name and its bytes. */
  ghost predicate SpellsTargets(t: Node, p: Prop, targets: seq<Path>) {
    match p.name
    case "clocks" => SpellsList(t, p.value, "#clock-cells", false, targets)
    case "power-domains" => SpellsList(t, p.value, "#power-domain-cells", true, targets)
    case "phy-handle" => SpellsOne(t, p.value, targets)
    case "next-level-cache" => SpellsOne(t, p.value, targets)
    case "interrupt-parent" => SpellsOne(t, p.value, targets)
    case "interrupts-extended" => SpellsOne(t, p.value, targets)
    case _ => targets == []
  }

  ghost predicate SpellsOne(t: Node, value: seq<Byte>, targets: seq<Path>) {
    |value| >= 4 && |targets| == 1 && Points(t, value[..4], targets[0])
  }

  lemma ListMeans(t: Node, value: seq<Byte>, cellsName: string, optional: bool, targets: seq<Path>)
    requires Unique(t)
    ensures ListTargets(t, value, 0, cellsName, optional) == Some(targets)
        <==> SpellsList(t, value, cellsName, optional, targets)
  {
    assert From(value, 0) == value;
    if ListTargets(t, value, 0, cellsName, optional) == Some(targets) {
      var groups := ListIsSpelled(t, value, 0, cellsName, optional);
    }
    if SpellsList(t, value, cellsName, optional, targets) {
      var groups :| Spells(t, value, cellsName, optional, groups) && Target(groups) == targets;
      SpelledIsList(t, value, 0, cellsName, optional, groups);
    }
  }

  lemma OneMeans(t: Node, value: seq<Byte>, targets: seq<Path>)
    requires Unique(t) && |value| >= 4
    ensures (exists q :: Resolve(t, Be32(value, 0)) == Some(q) && targets == [q]) <==> SpellsOne(t, value, targets)
  {
    assert value[0..4] == value[..4];
    if targets != [] {
      ResolveMeans(t, value, 0, targets[0]);
      hide Points;
      assert |targets| == 1 ==> targets == [targets[0]];
    }
  }

  /** A property refers to exactly the nodes whose phandles it spells, in order. */
  lemma PropTargetsMean(t: Node, p: Prop, targets: seq<Path>)
    requires Unique(t)
    ensures PropTargets(t, p) == Some(targets) <==> SpellsTargets(t, p, targets)
  {
    ListMeans(t, p.value, "#clock-cells", false, targets);
    ListMeans(t, p.value, "#power-domain-cells", true, targets);
    if |p.value| >= 4 {
      OneMeans(t, p.value, targets);
    }
    hide ListTargets, SpellsList, Points;
  }

  // ---- What the node at a path refers to, and what is kept for it ----

  ghost predicate RefersTo(t: Node, p: Path, q: Path) {
    At(t, p).Some? && exists i, targets: seq<Path> | 0 <= i < |At(t, p).value.props| ::
      SpellsTargets(t, At(t, p).value.props[i], targets) && q in targets
  }

  lemma RefsMean(t: Node, p: Path, q: Path)
    requires Unique(t) && Resolvable(t) && p in Paths(t) && p != []
    ensures q in Refs(t, p) <==> RefersTo(t, p, q)
  {
    hide SpellsTargets, PropTargets;
    var props := At(t, p).value.props;
    if q in Refs(t, p) {
      var i := TargetsComeFrom(t, props, q);
      PropTargetsMean(t, props[i], PropTargets(t, props[i]).value);
    }
    if RefersTo(t, p, q) {
      var i, targets: seq<Path> :| 0 <= i < |props| && SpellsTargets(t, props[i], targets) && q in targets;
      PropTargetsMean(t, props[i], targets);
      TargetsHold(t, props, i);
    }
  }

  /** A way from a listed node over parents and spelled references. */
  ghost predicate CellWay(t: Node, listed: set<Path>, w: seq<Path>) {
    && w != [] && w[0] in listed
    && forall i | 0 < i < |w| :: CellStep(t, w[i - 1], w[i])
  }

  ghost predicate CellStep(t: Node, p: Path, q: Path) {
    (|p| > 1 && q == p[..|p| - 1]) || (RefersTo(t, p, q) && q != [])
  }

  ghost predicate Called(t: Node, listed: set<Path>, p: Path) {
    exists w :: CellWay(t, listed, w) && w[|w| - 1] == p
  }

  lemma StepMeans(t: Node, p: Path, q: Path)
    requires Unique(t) && Resolvable(t) && p in Paths(t) && p != []
    ensures Leads(t, p, q) <==> CellStep(t, p, q)
    ensures Leads(t, p, q) ==> q in Paths(t) && q != []
  {
    RefsMean(t, p, q);
    RefsArePaths(t, p);
    if |p| > 1 && q == p[..|p| - 1] {
      PathsAreNodes(t, p);
      assert p == q + p[|p| - 1..];
      AtPrefix(t, q, p[|p| - 1..]);
      PathsAreNodes(t, q);
    }
  }

  lemma {:induction false} WayMeans(t: Node, listed: set<Path>, w: seq<Path>, i: nat)
    requires Unique(t) && Resolvable(t) && listed <= Paths(t) - {[]} && i < |w|
    requires Way(t, listed, w) || CellWay(t, listed, w)
    ensures w[i] in Paths(t) && w[i] != []
    ensures i > 0 ==> Leads(t, w[i - 1], w[i]) && CellStep(t, w[i - 1], w[i])
  {
    if i > 0 {
      WayMeans(t, listed, w, i - 1);
      StepMeans(t, w[i - 1], w[i]);
    }
  }

  /** The nodes needed are exactly those that a way from a listed node leads to, over parents and over the
      references that the bytes of its properties spell. */
  lemma NeededIsCalled(t: Node, listed: set<Path>, p: Path)
    requires Unique(t) && Resolvable(t) && listed <= Paths(t) - {[]}
    ensures p in Needed(t, listed) <==> Called(t, listed, p)
  {
    NeededIsReachable(t, listed, p);
    hide Needed, Paths, CellStep, Leads;
    if Reachable(t, listed, p) {
      var w :| Way(t, listed, w) && w[|w| - 1] == p;
      forall i | 0 < i < |w|
        ensures CellStep(t, w[i - 1], w[i])
      {
        WayMeans(t, listed, w, i);
      }
      assert CellWay(t, listed, w);
    }
    if Called(t, listed, p) {
      var w :| CellWay(t, listed, w) && w[|w| - 1] == p;
      forall i | 0 < i < |w|
        ensures Leads(t, w[i - 1], w[i])
      {
        WayMeans(t, listed, w, i);
      }
      assert Way(t, listed, w);
    }
  }

  // ---- What a flagged node looks like afterwards ----

  /** The bytes of a string with its terminating NUL. */
  ghost predicate IsCString(v: seq<Byte>, s: string) {
    |v| == |s| + 1 && v[|s|] == 0 && forall i | 0 <= i < |s| :: v[i] == s[i] as nat
  }

  /** The first property of that name is replaced in place; if there is none, the property becomes the first. */
  ghost predicate PutInPlace(before: seq<Prop>, after: seq<Prop>, p: Prop) {
    if forall q | q in before :: q.name != p.name then after == [p] + before
    else exists i: nat :: FirstNamed(before, i, p.name) && after == before[i := p]
  }

  ghost predicate FirstNamed(props: seq<Prop>, i: nat, name: string) {
    i < |props| && props[i].name == name && forall j | 0 <= j < i :: props[j].name != name
  }

  /** The status says "disabled", and all else is as before. */
  ghost predicate TurnedOff(before: seq<Prop>, after: seq<Prop>) {
    exists v :: IsCString(v, "disabled") && PutInPlace(before, after, Prop("status", v))
  }

  lemma {:induction false} ReplaceMeans(props: seq<Prop>, name: string, value: seq<Byte>) returns (i: nat)
    requires GetProp(props, name).Some?
    ensures FirstNamed(props, i, name) && Replace(props, name, value) == props[i := Prop(name, value)]
  {
    i := 0;
    if props[0].name != name {
      i := ReplaceMeans(props[1..], name, value);
      assert props == [props[0]] + props[1..];
      assert forall j | 0 < j <= i :: props[j] == props[1..][j - 1];
      i := i + 1;
    }
  }

  lemma DisabledMeans(n: Node)
    ensures TurnedOff(n.props, Disabled(n).props)
    ensures Disabled(n).name == n.name && Disabled(n).children == n.children
  {
    GetPropMeans(n.props, "status", []);
    if GetProp(n.props, STATUS).Some? {
      var i := ReplaceMeans(n.props, STATUS, DISABLED);
      assert n.props[i] in n.props;
    }
    assert IsCString(DISABLED, "disabled") && PutInPlace(n.props, Disabled(n).props, Prop("status", DISABLED));
  }

  /** In a trimmed tree every node is the one that was there before, flagged ones turned off. */
  lemma TrimmedProps(t: Node, keep: set<Path>, todo: set<Path>, p: Path)
    requires p != [] && At(Trimmed(t, [], keep, todo), p).Some?
    ensures At(t, p).Some?
    ensures var before, after := At(t, p).value, At(Trimmed(t, [], keep, todo), p).value;
            && after.name == before.name
            && if p in todo then TurnedOff(before.props, after.props) else after.props == before.props
  {
    TrimmedAt(t, [], keep, todo, p);
    assert [] + p == p;
    DisabledMeans(At(t, p).value);
  }

  /** What the output of fdtgen is, said in paths and bytes: the root and the nodes that a way over parents and
      spelled references leads to, each as it was, the flagged ones turned off. */
  ghost predicate OutputSpells(t: Node, table: Table, out: Node) {
    && out.name == t.name && out.props == t.props
    && (forall p :: p in Paths(out) <==> p == [] || Called(t, table.Keys, p))
    && (forall p | p in Paths(out) && p != [] :: SameNode(t, out, p, p in table && table[p].disable))
  }

  ghost predicate SameNode(t: Node, out: Node, p: Path, off: bool) {
    && At(t, p).Some? && At(out, p).Some? && At(out, p).value.name == At(t, p).value.name
    && if off then TurnedOff(At(t, p).value.props, At(out, p).value.props)
       else At(out, p).value.props == At(t, p).value.props
  }

  lemma OutputPath(t: Node, listed: set<Path>, out: Node, p: Path)
    requires Suitable(t, listed) && Paths(out) == Needed(t, listed) + {[]}
    ensures p in Paths(out) <==> p == [] || Called(t, listed, p)
  {
    NeededIsCalled(t, listed, p);
    hide Needed, Called, Paths;
  }

  lemma OutputNode(t: Node, keep: set<Path>, todo: set<Path>, p: Path)
    requires Unique(t) && p != [] && p in Paths(Trimmed(t, [], keep, todo))
    ensures SameNode(t, Trimmed(t, [], keep, todo), p, p in todo)
  {
    TrimmedUnique(t, [], keep, todo);
    PathsAreNodes(Trimmed(t, [], keep, todo), p);
    TrimmedProps(t, keep, todo, p);
    hide TurnedOff, Trimmed, Paths;
  }

  lemma OutputMeans(t: Node, table: Table, out: Node)
    requires Suitable(t, table.Keys) && forall p | p in table :: table[p].cnt == 0
    requires out == Trimmed(t, [], Needed(t, table.Keys), Todo(table))
    requires Paths(out) == Needed(t, table.Keys) + {[]}
    ensures OutputSpells(t, table, out)
  {
    hide Needed, Called, SameNode, Trimmed, Paths, Unique, Resolvable;
    forall p
      ensures p in Paths(out) <==> p == [] || Called(t, table.Keys, p)
    {
      OutputPath(t, table.Keys, out, p);
    }
    forall p | p in Paths(out) && p != []
      ensures SameNode(t, out, p, p in table && table[p].disable)
    {
      OutputNode(t, Needed(t, table.Keys), Todo(table), p);
    }
  }
}
