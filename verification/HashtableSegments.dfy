/**
 Value-level facts behind the hashtable: a chain of hash classes in which every class is one
 contiguous segment.
 */
module HashtableSegments {

  /** The part [lo, hi) of the chain that one bucket owns. */
  datatype Seg = Seg(lo: nat, hi: nat) {
    predicate Empty() {
      lo == hi
    }
  }

  /** The elements of class `c` are exactly those at the positions of `segs[c]`. */
  ghost predicate Segmented(cls: seq<nat>, segs: seq<Seg>) {
    && (forall c | 0 <= c < |segs| :: segs[c].lo <= segs[c].hi <= |cls|)
    && (forall i | 0 <= i < |cls| :: cls[i] < |segs|)
    && (forall c, i | 0 <= c < |segs| && 0 <= i < |cls| :: segs[c].lo <= i < segs[c].hi <==> cls[i] == c)
  }

  function InsertAt<T>(s: seq<T>, p: nat, x: T): (r: seq<T>)
    requires p <= |s|
    ensures |r| == |s| + 1 && r[p] == x
    ensures forall i | 0 <= i < |r| :: r[i] == if i < p then s[i] else if i == p then x else s[i - 1]
  {
    s[..p] + [x] + s[p..]
  }

  function RemoveAt<T>(s: seq<T>, k: nat): (r: seq<T>)
    requires k < |s|
    ensures |r| == |s| - 1
    ensures forall i | 0 <= i < |r| :: r[i] == s[if i < k then i else i + 1]
  {
    s[..k] + s[k + 1..]
  }

  /** Where a new element of class `c` goes: before its segment, or at the end of the chain. */
  function Place(segs: seq<Seg>, c: nat, length: nat): nat
    requires c < |segs|
  {
    if segs[c].Empty() then length else segs[c].lo
  }

  function GrowSegs(segs: seq<Seg>, c: nat, p: nat): seq<Seg>
    requires c < |segs|
  {
    seq(|segs|, d requires 0 <= d < |segs| =>
      if d == c then Seg(p, if segs[c].Empty() then p + 1 else segs[c].hi + 1)
      else if segs[d].lo >= p then Seg(segs[d].lo + 1, segs[d].hi + 1)
      else segs[d])
  }

  lemma SegmentsApart(cls: seq<nat>, segs: seq<Seg>, c: nat)
    requires Segmented(cls, segs) && c < |segs|
    ensures forall d | 0 <= d < |segs| && d != c ::
              segs[d].hi <= Place(segs, c, |cls|) || segs[d].lo >= Place(segs, c, |cls|)
  {
    var p := Place(segs, c, |cls|);
    forall d | 0 <= d < |segs| && d != c
      ensures segs[d].hi <= p || segs[d].lo >= p
    {
      assert p < |cls| ==> (segs[d].lo <= p < segs[d].hi <==> cls[p] == d);
    }
  }

  lemma InsertKeepsSegmented(cls: seq<nat>, segs: seq<Seg>, c: nat)
    requires Segmented(cls, segs) && c < |segs|
    ensures var p := Place(segs, c, |cls|);
            p <= |cls| && Segmented(InsertAt(cls, p, c), GrowSegs(segs, c, p))
  {
    var p := Place(segs, c, |cls|);
    var cls', segs' := InsertAt(cls, p, c), GrowSegs(segs, c, p);
    SegmentsApart(cls, segs, c);
    forall d, i | 0 <= d < |segs'| && 0 <= i < |cls'|
      ensures segs'[d].lo <= i < segs'[d].hi <==> cls'[i] == d
    {
      assert cls'[i] == if i < p then cls[i] else if i == p then c else cls[i - 1];
    }
  }

  function ShrinkSegs(segs: seq<Seg>, c: nat, k: nat): seq<Seg>
    requires c < |segs| && segs[c].lo <= k < segs[c].hi
  {
    seq(|segs|, d requires 0 <= d < |segs| =>
      if d == c then Seg(segs[c].lo, segs[c].hi - 1)
      else if segs[d].lo > k then Seg(segs[d].lo - 1, if segs[d].hi > 0 then segs[d].hi - 1 else 0)
      else segs[d])
  }

  lemma SegmentsClear(cls: seq<nat>, segs: seq<Seg>, k: nat)
    requires Segmented(cls, segs) && k < |cls|
    ensures forall d | 0 <= d < |segs| && d != cls[k] :: segs[d].hi <= k || segs[d].lo > k || segs[d].Empty()
  {
    forall d | 0 <= d < |segs| && d != cls[k]
      ensures segs[d].hi <= k || segs[d].lo > k || segs[d].Empty()
    {
      assert segs[d].lo <= k < segs[d].hi <==> cls[k] == d;
    }
  }

  lemma RemoveKeepsSegmented(cls: seq<nat>, segs: seq<Seg>, k: nat)
    requires Segmented(cls, segs) && k < |cls|
    ensures segs[cls[k]].lo <= k < segs[cls[k]].hi
    ensures Segmented(RemoveAt(cls, k), ShrinkSegs(segs, cls[k], k))
  {
    var c := cls[k];
    var cls', segs' := RemoveAt(cls, k), ShrinkSegs(segs, c, k);
    SegmentsClear(cls, segs, k);
    forall d, i | 0 <= d < |segs'| && 0 <= i < |cls'|
      ensures segs'[d].lo <= i < segs'[d].hi <==> cls'[i] == d
    {
      if i < k {
        assert cls'[i] == cls[i];
      } else {
        assert cls'[i] == cls[i + 1];
      }
    }
  }
}
