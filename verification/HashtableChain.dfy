/**
 The pairs of a hashtable on their circular intrusive list (list_insert and list_remove of
 libjansson/jansson-2.7/src/hashtable.c), and what it means that buckets own stretches of it.
 */
module HashtableChain {
  import opened HashtableSegments

  type Key = string

  /** A reference to a JSON value. */
  type Value = nat

  /** What the table stores under a key. */
  datatype Entry = Entry(value: Value, serial: nat)

  /** A list node together with the pair that embeds it; the table's own list head is one too. */
  class Link {
    var prev: Link
    var next: Link
    const hash: nat
    const key: Key
    const serial: nat
    var value: Value

    /** A node that is its own list (`list_init`). */
    constructor (hash: nat, key: Key, serial: nat, value: Value)
      ensures this.hash == hash && this.key == key && this.serial == serial && this.value == value
      ensures prev == this && next == this
    {
      this.hash, this.key, this.serial, this.value := hash, key, serial, value;
      prev, next := this, this;
    }
  }

  datatype Bucket = Bucket(first: Link, last: Link)

  // ---- The circular list ----

  /** Position 0 and position |nodes| + 1 of the ring are the list head. */
  ghost function At(head: Link, nodes: seq<Link>, i: nat): Link {
    if 1 <= i <= |nodes| then nodes[i - 1] else head
  }

  ghost function Links(nodes: seq<Link>): set<Link> {
    set x | x in nodes
  }

  ghost predicate Distinct(head: Link, nodes: seq<Link>) {
    && head !in nodes
    && (forall i, j | 0 <= i < j < |nodes| :: nodes[i] != nodes[j])
  }

  ghost predicate Linked(head: Link, nodes: seq<Link>)
    reads head`next, head`prev, Links(nodes)`next, Links(nodes)`prev
  {
    && Distinct(head, nodes)
    && (forall i | 0 <= i <= |nodes| :: At(head, nodes, i).next == At(head, nodes, i + 1))
    && (forall i | 0 <= i <= |nodes| :: At(head, nodes, i + 1).prev == At(head, nodes, i))
  }

  lemma AtInjective(head: Link, nodes: seq<Link>, i: nat, j: nat)
    requires Distinct(head, nodes) && i <= |nodes| && j <= |nodes| && i != j
    ensures At(head, nodes, i) != At(head, nodes, j)
  {
  }

  lemma InsertedAt(head: Link, nodes: seq<Link>, p: nat, node: Link)
    requires p <= |nodes| && node != head && node !in nodes && Distinct(head, nodes)
    ensures var ns := InsertAt(nodes, p, node);
            && Distinct(head, ns)
            && (forall i | 0 <= i <= |nodes| + 2 ::
                  At(head, ns, i) == if i <= p then At(head, nodes, i)
                                     else if i == p + 1 then node
                                     else At(head, nodes, i - 1))
  {
  }

  lemma RemovedAt(head: Link, nodes: seq<Link>, k: nat)
    requires k < |nodes| && Distinct(head, nodes)
    ensures var ns := RemoveAt(nodes, k);
            && Distinct(head, ns) && nodes[k] !in ns
            && (forall i | 0 <= i <= |nodes| :: At(head, ns, i) == At(head, nodes, if i <= k then i else i + 1))
  {
  }

  /** `list_insert`: put `node` before the node at ring position p + 1. */
  method ListInsert(head: Link, ghost nodes: seq<Link>, ghost p: nat, before: Link, node: Link)
    requires Linked(head, nodes) && p <= |nodes| && before == At(head, nodes, p + 1)
    requires node != head && node !in nodes
    modifies head`next, head`prev, Links(nodes)`next, Links(nodes)`prev, node`next, node`prev
    ensures Linked(head, InsertAt(nodes, p, node))
  {
    InsertedAt(head, nodes, p, node);
    ghost var after := At(head, nodes, p);
    assert before.prev == after;
    node.next := before;
    node.prev := before.prev;
    before.prev.next := node;
    before.prev := node;
    ghost var ns := InsertAt(nodes, p, node);
    forall i | 0 <= i <= |ns|
      ensures At(head, ns, i).next == At(head, ns, i + 1)
      ensures At(head, ns, i + 1).prev == At(head, ns, i)
    {
      if i < p {
        AtInjective(head, nodes, i, p);
      } else if i > p + 1 {
        AtInjective(head, nodes, i - 1, p);
        assert At(head, nodes, i).prev == At(head, nodes, i - 1);
      }
    }
  }

  /** `list_remove`. */
  method ListRemove(head: Link, ghost nodes: seq<Link>, ghost k: nat, node: Link)
    requires Linked(head, nodes) && k < |nodes| && node == nodes[k]
    modifies head`next, head`prev, Links(nodes)`next, Links(nodes)`prev
    ensures Linked(head, RemoveAt(nodes, k))
  {
    RemovedAt(head, nodes, k);
    assert At(head, nodes, k + 1) == node;
    assert node.prev == At(head, nodes, k) && node.next == At(head, nodes, k + 2);
    node.prev.next := node.next;
    node.next.prev := node.prev;
    ghost var ns := RemoveAt(nodes, k);
    forall i | 0 <= i <= |ns|
      ensures At(head, ns, i).next == At(head, ns, i + 1)
      ensures At(head, ns, i + 1).prev == At(head, ns, i)
    {
      if i < k {
        AtInjective(head, nodes, i, k);
      } else if i > k {
        AtInjective(head, nodes, i + 1, k);
        assert At(head, nodes, i + 2).prev == At(head, nodes, i + 1);
        assert At(head, nodes, i + 1).next == At(head, nodes, i + 2);
      }
    }
  }

  // ---- The table ----

  ghost function Classes(nodes: seq<Link>, m: nat): seq<nat>
    requires m > 0
  {
    seq(|nodes|, i requires 0 <= i < |nodes| => nodes[i].hash % m)
  }

  ghost predicate BucketsMatch(head: Link, nodes: seq<Link>, segs: seq<Seg>, buckets: seq<Bucket>) {
    && |buckets| == |segs|
    && (forall c | 0 <= c < |segs| ::
          && segs[c].lo <= segs[c].hi <= |nodes|
          && buckets[c] == if segs[c].Empty() then Bucket(head, head)
                           else Bucket(nodes[segs[c].lo], nodes[segs[c].hi - 1]))
  }

  lemma GrownBuckets(head: Link, nodes: seq<Link>, segs: seq<Seg>, buckets: seq<Bucket>, c: nat, node: Link)
    requires BucketsMatch(head, nodes, segs, buckets) && c < |segs|
    requires forall d | 0 <= d < |segs| && d != c && !segs[d].Empty() ::
               segs[d].hi <= Place(segs, c, |nodes|) || segs[d].lo >= Place(segs, c, |nodes|)
    ensures var p := Place(segs, c, |nodes|);
            var b := if segs[c].Empty() then Bucket(node, node) else Bucket(node, buckets[c].last);
            BucketsMatch(head, InsertAt(nodes, p, node), GrowSegs(segs, c, p), buckets[c := b])
  {
    var p := Place(segs, c, |nodes|);
    var ns, segs' := InsertAt(nodes, p, node), GrowSegs(segs, c, p);
    var b := if segs[c].Empty() then Bucket(node, node) else Bucket(node, buckets[c].last);
    forall d | 0 <= d < |segs|
      ensures segs'[d].lo <= segs'[d].hi <= |ns|
      ensures buckets[c := b][d] == if segs'[d].Empty() then Bucket(head, head)
                                    else Bucket(ns[segs'[d].lo], ns[segs'[d].hi - 1])
    {
    }
  }

  /** Every bucket owns the stretch of the chain that holds its hash class. */
  ghost predicate Fitted(head: Link, nodes: seq<Link>, segs: seq<Seg>, buckets: seq<Bucket>) {
    && |buckets| > 0
    && Segmented(Classes(nodes, |buckets|), segs)
    && BucketsMatch(head, nodes, segs, buckets)
  }

  ghost function NoSegs(m: nat): seq<Seg> {
    seq(m, _ => Seg(0, 0))
  }

  lemma EmptyFitted(head: Link, buckets: seq<Bucket>)
    requires |buckets| > 0 && forall c | 0 <= c < |buckets| :: buckets[c] == Bucket(head, head)
    ensures Fitted(head, [], NoSegs(|buckets|), buckets) && Links([]) == {}
  {
  }

  lemma InsertionFitted(head: Link, nodes: seq<Link>, segs: seq<Seg>, buckets: seq<Bucket>, c: nat, node: Link)
    requires Fitted(head, nodes, segs, buckets) && c < |segs| && node.hash % |buckets| == c
    requires head !in nodes
    ensures buckets[c].first == head && buckets[c].first == buckets[c].last <==> segs[c].Empty()
    ensures var p := Place(segs, c, |nodes|);
            && p <= |nodes|
            && At(head, nodes, p + 1) == buckets[c].first
            && var b := if segs[c].Empty() then Bucket(node, node) else Bucket(node, buckets[c].last);
               Fitted(head, InsertAt(nodes, p, node), GrowSegs(segs, c, p), buckets[c := b])
  {
    var cls := Classes(nodes, |buckets|);
    var p := Place(segs, c, |nodes|);
    InsertKeepsSegmented(cls, segs, c);
    SegmentsApart(cls, segs, c);
    GrownBuckets(head, nodes, segs, buckets, c, node);
    assert Classes(InsertAt(nodes, p, node), |buckets|) == InsertAt(cls, p, c);
  }

  /** The nodes hold exactly the pairs of `m`, each once. */
  ghost predicate Holds(links: set<Link>, m: map<Key, Entry>)
    reads links`value
  {
    && (forall x, y | x in links && y in links && x.key == y.key :: x == y)
    && (forall x | x in links :: x.key in m && m[x.key] == Entry(x.value, x.serial))
    && (forall k | k in m :: exists x | x in links :: x.key == k)
  }

  /** Every pair carries the hash of its key. */
  ghost predicate Hashed(links: set<Link>, hashFn: Key -> nat) {
    forall x | x in links :: x.hash == hashFn(x.key)
  }

  lemma InsertedHashed(links: set<Link>, x: Link, hashFn: Key -> nat)
    requires Hashed(links, hashFn) && x.hash == hashFn(x.key)
    ensures Hashed(links + {x}, hashFn)
  {
  }

  lemma InsertedLinks(a: seq<Link>, p: nat, x: Link)
    requires p <= |a|
    ensures Links(InsertAt(a, p, x)) == Links(a) + {x}
  {
    assert a == a[..p] + a[p..];
  }

  lemma RemovedLinks(head: Link, a: seq<Link>, k: nat)
    requires k < |a| && Distinct(head, a)
    ensures Links(RemoveAt(a, k)) == Links(a) - {a[k]}
  {
    assert a == a[..k] + [a[k]] + a[k + 1..];
  }

  lemma InsertedHolds(links: set<Link>, x: Link, m: map<Key, Entry>)
    requires Holds(links, m) && x.key !in m
    ensures Holds(links + {x}, m[x.key := Entry(x.value, x.serial)])
  {
  }

  lemma RemovedHolds(links: set<Link>, x: Link, m: map<Key, Entry>)
    requires Holds(links, m) && x in links
    ensures Holds(links - {x}, m - {x.key})
  {
    forall k | k in m - {x.key}
      ensures exists y | y in links - {x} :: y.key == k
    {
      var y :| y in links && y.key == k;
      assert y in links - {x};
    }
  }

  /** The nodes after the first `k` of an old chain still lead to its end. */
  ghost predicate StillChained(head: Link, olds: seq<Link>, k: nat)
    reads Links(olds)`next
  {
    forall i | k < i <= |olds| :: At(head, olds, i).next == At(head, olds, i + 1)
  }

  /** The bucket of a pair that is about to leave: only its own end points can name the pair. */
  function WithoutPair(b: Bucket, head: Link, pair: Link, before: Link, after: Link): Bucket {
    if b.first == pair && b.last == pair then Bucket(head, head)
    else if b.first == pair then b.(first := after)
    else if b.last == pair then b.(last := before)
    else b
  }

  lemma ShrunkBuckets(head: Link, nodes: seq<Link>, segs: seq<Seg>, buckets: seq<Bucket>, c: nat, k: nat)
    requires BucketsMatch(head, nodes, segs, buckets) && Distinct(head, nodes)
    requires c < |segs| && segs[c].lo <= k < segs[c].hi
    requires forall d | 0 <= d < |segs| && d != c :: segs[d].hi <= k || segs[d].lo > k || segs[d].Empty()
    ensures var b := WithoutPair(buckets[c], head, nodes[k], At(head, nodes, k), At(head, nodes, k + 2));
            BucketsMatch(head, RemoveAt(nodes, k), ShrinkSegs(segs, c, k), buckets[c := b])
  {
    var ns, segs' := RemoveAt(nodes, k), ShrinkSegs(segs, c, k);
    var b := WithoutPair(buckets[c], head, nodes[k], At(head, nodes, k), At(head, nodes, k + 2));
    assert buckets[c].first == nodes[k] <==> segs[c].lo == k;
    assert buckets[c].last == nodes[k] <==> segs[c].hi == k + 1;
    forall d | 0 <= d < |segs|
      ensures segs'[d].lo <= segs'[d].hi <= |ns|
      ensures buckets[c := b][d] == if segs'[d].Empty() then Bucket(head, head)
                                    else Bucket(ns[segs'[d].lo], ns[segs'[d].hi - 1])
    {
    }
  }

  lemma RemovalFitted(head: Link, nodes: seq<Link>, segs: seq<Seg>, buckets: seq<Bucket>, k: nat)
    requires Fitted(head, nodes, segs, buckets) && Distinct(head, nodes) && k < |nodes|
    ensures var c := nodes[k].hash % |buckets|;
            && c < |segs| && segs[c].lo <= k < segs[c].hi
            && var b := WithoutPair(buckets[c], head, nodes[k], At(head, nodes, k), At(head, nodes, k + 2));
               Fitted(head, RemoveAt(nodes, k), ShrinkSegs(segs, c, k), buckets[c := b])
  {
    var cls := Classes(nodes, |buckets|);
    RemoveKeepsSegmented(cls, segs, k);
    SegmentsClear(cls, segs, k);
    ShrunkBuckets(head, nodes, segs, buckets, cls[k], k);
    assert Classes(RemoveAt(nodes, k), |buckets|) == RemoveAt(cls, k);
  }

  lemma {:induction false} HoldsSize(links: set<Link>, m: map<Key, Entry>)
    requires Holds(links, m)
    ensures |links| == |m|
    decreases |links|
  {
    if links == {} {
      assert m == map[];
    } else {
      var x :| x in links;
      RemovedHolds(links, x, m);
      HoldsSize(links - {x}, m - {x.key});
      assert m == (m - {x.key})[x.key := m[x.key]];
    }
  }

  lemma {:induction false} DistinctSize(head: Link, nodes: seq<Link>)
    requires Distinct(head, nodes)
    ensures |Links(nodes)| == |nodes|
    decreases |nodes|
  {
    if nodes == [] {
    } else {
      var rest := nodes[..|nodes| - 1];
      DistinctSize(head, rest);
      assert Links(nodes) == Links(rest) + {nodes[|nodes| - 1]};
    }
  }

  /** The values in list order. */
  ghost function Values(nodes: seq<Link>): seq<Value>
    reads Links(nodes)`value
  {
    if nodes == [] then [] else
      assert nodes[|nodes| - 1] in Links(nodes);
      assert Links(nodes[..|nodes| - 1]) <= Links(nodes);
      Values(nodes[..|nodes| - 1]) + [nodes[|nodes| - 1].value]
  }

  lemma {:induction false} ValuesAre(nodes: seq<Link>)
    ensures |Values(nodes)| == |nodes| && forall i | 0 <= i < |nodes| :: Values(nodes)[i] == nodes[i].value
  {
    if nodes != [] {
      var front := nodes[..|nodes| - 1];
      ValuesAre(front);
      assert forall i | 0 <= i < |front| :: front[i] == nodes[i];
    }
  }
}
