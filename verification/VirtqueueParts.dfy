/**
 The three structures inside a virtqueue, each with its own invariant and what the virtqueue
 operations do to it: a ring with wrapping indices, descriptor chains linked through the table,
 and the partition of all descriptors among the chains and the free list.
 */
module VirtqueueParts {
  import opened Arithmetic
  import opened VirtqueueSpec

  // ---- A ring with an index to write next and an index last seen ----

  /** Of all `entries` ever put in, those from `from` on are still in the ring. */
  ghost predicate RingHolds<T>(n: nat, ring: seq<T>, idx: nat, seen: nat, from: nat, entries: seq<T>) {
    var holds :=
      && idx < n && seen < n && |ring| == n
      && from <= |entries| < from + n
      && idx == Position(|entries|, n) && NextSlot(seen, n) == Position(from, n)
      && (forall k | from <= k < |entries| :: ring[Position(k, n)] == entries[k]);
    holds
  }

  lemma RingPut<T>(n: nat, ring: seq<T>, idx: nat, seen: nat, from: nat, entries: seq<T>, e: T)
    requires RingHolds(n, ring, idx, seen, from, entries)
    requires |entries| + 1 < from + n
    ensures RingHolds(n, ring[idx := e], NextSlot(idx, n), seen, from, entries + [e])
  {
    var ring', entries' := ring[idx := e], entries + [e];
    forall k | from <= k < |entries'|
      ensures ring'[Position(k, n)] == entries'[k]
    {
      if k < |entries| {
        PositionsDiffer(k, |entries|, n);
      }
    }
  }

  lemma RingTake<T>(n: nat, ring: seq<T>, idx: nat, seen: nat, from: nat, entries: seq<T>)
    requires RingHolds(n, ring, idx, seen, from, entries) && from < |entries|
    ensures NextSlot(seen, n) != idx && ring[NextSlot(seen, n)] == entries[from]
    ensures RingHolds(n, ring, idx, NextSlot(seen, n), from + 1, entries)
  {
    PositionsDiffer(from, |entries|, n);
  }

  lemma RingEmpty<T>(n: nat, ring: seq<T>, idx: nat, seen: nat, from: nat, entries: seq<T>)
    requires RingHolds(n, ring, idx, seen, from, entries)
    ensures from == |entries| ==> NextSlot(seen, n) == idx
  {
  }

  /** One entry too many and the ring looks empty: all n entries are lost to the other side. */
  lemma RingOverflow(n: nat, idx: nat, seen: nat, from: nat, count: nat)
    requires idx < n && seen < n
    requires idx == Position(count, n) && NextSlot(seen, n) == Position(from, n) && count + 1 == from + n
    ensures NextSlot(seen, n) == NextSlot(idx, n)
  {
    PositionsRepeat(from, n);
  }

  // ---- Chains in the descriptor table ----

  function Head(chain: seq<nat>, n: nat): nat {
    if chain == [] then n else chain[0]
  }

  /** What follows position i of a chain. */
  function After(chain: seq<nat>, i: nat, n: nat): nat {
    if i + 1 < |chain| then chain[i + 1] else n
  }

  /** `chain` is linked through `next` and ends with n. */
  ghost predicate Chained(n: nat, desc: seq<Desc>, chain: seq<nat>) {
    && (forall i | 0 <= i < |chain| :: chain[i] < |desc|)
    && (forall i {:trigger After(chain, i, n)} | 0 <= i < |chain| :: desc[chain[i]].next == After(chain, i, n))
  }

  ghost predicate Carries(desc: seq<Desc>, chain: seq<nat>, bufs: seq<Buf>) {
    && |chain| == |bufs|
    && (forall i | 0 <= i < |chain| :: chain[i] < |desc| && desc[chain[i]].buf == bufs[i])
  }

  /** What is left of a payload when all but its last k buffers have been gathered. */
  function Rest(payload: seq<Buf>, k: nat): seq<Buf>
    requires k <= |payload|
  {
    payload[|payload| - k..]
  }

  ghost predicate Linked(n: nat, desc: seq<Desc>, freeHead: nat, ids: seq<seq<nat>>, payload: seq<seq<Buf>>,
      free: seq<nat>)
  {
    var linked :=
      && freeHead == Head(free, n) && Chained(n, desc, free)
      && |payload| == |ids|
      && (forall c | 0 <= c < |ids| ::
            && Chained(n, desc, ids[c])
            && |ids[c]| <= |payload[c]| && Carries(desc, ids[c], Rest(payload[c], |ids[c]|)));
    linked
  }

  lemma UntouchedChain(n: nat, desc: seq<Desc>, desc': seq<Desc>, chain: seq<nat>)
    requires Chained(n, desc, chain) && |desc'| == |desc|
    requires forall i | 0 <= i < |chain| :: desc'[chain[i]] == desc[chain[i]]
    ensures Chained(n, desc', chain)
    ensures forall bufs :: Carries(desc, chain, bufs) ==> Carries(desc', chain, bufs)
  {
  }

  // ---- Who owns which descriptor ----

  ghost predicate Owned(ids: seq<seq<nat>>, x: nat) {
    exists c | 0 <= c < |ids| :: x in ids[c]
  }

  ghost predicate NoRepeat(chain: seq<nat>) {
    forall i, j | 0 <= i < j < |chain| :: chain[i] != chain[j]
  }

  ghost predicate Disjoint(a: seq<nat>, b: seq<nat>) {
    forall x | x in a :: x !in b
  }

  /** Every descriptor is in exactly one place: the free list or one position of one chain. */
  ghost predicate Partitioned(n: nat, ids: seq<seq<nat>>, free: seq<nat>) {
    var exact :=
      && NoRepeat(free) && (forall c | 0 <= c < |ids| :: NoRepeat(ids[c]) && Disjoint(free, ids[c]))
      && (forall c, d | 0 <= c < d < |ids| :: Disjoint(ids[c], ids[d]))
      && (forall x: nat :: x < n <==> x in free || Owned(ids, x));
    exact
  }

  /** Moving the first free descriptor to the end of chain c. */
  lemma MoveToChain(n: nat, ids: seq<seq<nat>>, free: seq<nat>, c: nat)
    requires Partitioned(n, ids, free) && c < |ids| && free != []
    ensures Partitioned(n, ids[c := ids[c] + [free[0]]], free[1..])
  {
    var ids', free' := ids[c := ids[c] + [free[0]]], free[1..];
    assert free == [free[0]] + free';
    assert free[0] in free && !Owned(ids, free[0]);
    forall x: nat
      ensures x < n <==> x in free' || Owned(ids', x)
    {
      OwnedAfterAppend(ids, c, free[0], x);
    }
  }

  lemma OwnedAfterAppend(ids: seq<seq<nat>>, c: nat, y: nat, x: nat)
    requires c < |ids|
    ensures Owned(ids[c := ids[c] + [y]], x) <==> Owned(ids, x) || x == y
  {
    var ids' := ids[c := ids[c] + [y]];
    if d :| 0 <= d < |ids| && x in ids[d] {
      assert x in ids'[d];
    }
    if x == y {
      assert x in ids'[c];
    }
  }

  lemma NewChain(n: nat, ids: seq<seq<nat>>, free: seq<nat>)
    requires Partitioned(n, ids, free)
    ensures Partitioned(n, ids + [[]], free)
  {
    forall x: nat
      ensures Owned(ids + [[]], x) <==> Owned(ids, x)
    {
      if d :| 0 <= d < |ids| && x in ids[d] {
        assert x in (ids + [[]])[d];
      }
    }
  }

  /** Moving the first descriptor of chain c to the front of the free list. */
  lemma MoveToFree(n: nat, ids: seq<seq<nat>>, free: seq<nat>, c: nat)
    requires Partitioned(n, ids, free) && c < |ids| && ids[c] != []
    ensures Partitioned(n, ids[c := ids[c][1..]], [ids[c][0]] + free)
  {
    var y := ids[c][0];
    var ids', free' := ids[c := ids[c][1..]], [y] + free;
    assert ids[c] == [y] + ids'[c];
    assert y in ids[c] && y !in free && y !in ids'[c];
    forall x: nat
      ensures x < n <==> x in free' || Owned(ids', x)
    {
      if d :| 0 <= d < |ids| && x in ids[d] {
        assert x == y || x in ids'[d];
      }
      if d :| 0 <= d < |ids'| && x in ids'[d] {
        assert x in ids[d];
      }
    }
    forall d | 0 <= d < |ids'|
      ensures Disjoint(free', ids'[d])
    {
      assert d < c ==> Disjoint(ids[d], ids[c]);
      assert c < d ==> Disjoint(ids[c], ids[d]);
    }
  }

  // ---- The table under the two elementary updates ----

  /** The table after a new last descriptor `idx` for `chain`. */
  function WithLast(n: nat, desc: seq<Desc>, chain: seq<nat>, idx: nat, buf: Buf): seq<Desc>
    requires idx < |desc| && forall i | 0 <= i < |chain| :: chain[i] < |desc|
  {
    var desc1 := desc[idx := Desc(buf, n)];
    if chain == [] then desc1
    else desc1[chain[|chain| - 1] := desc1[chain[|chain| - 1]].(next := idx)]
  }

  lemma AppendedChain(n: nat, desc: seq<Desc>, chain: seq<nat>, payload: seq<Buf>, idx: nat, buf: Buf)
    requires Chained(n, desc, chain) && Carries(desc, chain, payload) && NoRepeat(chain)
    requires idx !in chain && idx < |desc|
    ensures Chained(n, WithLast(n, desc, chain, idx, buf), chain + [idx])
    ensures Carries(WithLast(n, desc, chain, idx, buf), chain + [idx], payload + [buf])
  {
    var desc', chain', payload' := WithLast(n, desc, chain, idx, buf), chain + [idx], payload + [buf];
    var last := |chain| - 1;
    forall i | 0 <= i < |chain|
      ensures chain'[i] < |desc'| && desc'[chain'[i]] == Desc(payload'[i], chain'[i + 1])
    {
      assert chain'[i] == chain[i] != idx && payload'[i] == payload[i];
      assert desc[chain[i]] == Desc(payload[i], After(chain, i, n));
      if i == last {
        assert chain'[i + 1] == idx;
      } else {
        assert chain[i] != chain[last] && chain'[i + 1] == chain[i + 1];
        assert desc'[chain[i]] == desc[chain[i]];
      }
    }
    assert chain != [] ==> chain[last] != idx;
    assert desc'[idx] == Desc(buf, n) && chain'[|chain|] == idx;
  }

  lemma OtherChain(n: nat, desc: seq<Desc>, chain: seq<nat>, idx: nat, buf: Buf, other: seq<nat>)
    requires Chained(n, desc, chain) && Chained(n, desc, other) && Disjoint(other, chain)
    requires idx !in other && idx < |desc|
    ensures var desc' := WithLast(n, desc, chain, idx, buf);
            && Chained(n, desc', other)
            && forall bufs :: Carries(desc, other, bufs) ==> Carries(desc', other, bufs)
  {
    assert chain != [] ==> chain[|chain| - 1] in chain;
    UntouchedChain(n, desc, WithLast(n, desc, chain, idx, buf), other);
  }

  lemma ChainTail(n: nat, desc: seq<Desc>, chain: seq<nat>)
    requires Chained(n, desc, chain) && chain != []
    ensures Chained(n, desc, chain[1..]) && desc[chain[0]].next == Head(chain[1..], n)
  {
    var rest := chain[1..];
    forall i | 0 <= i < |rest|
      ensures desc[rest[i]].next == After(rest, i, n)
    {
      assert rest[i] == chain[i + 1] && After(chain, i + 1, n) == After(rest, i, n);
    }
    assert After(chain, 0, n) == Head(rest, n);
  }

  lemma AppendLinks(n: nat, desc: seq<Desc>, ids: seq<seq<nat>>, payload: seq<seq<Buf>>, free: seq<nat>, c: nat,
      buf: Buf)
    requires Linked(n, desc, Head(free, n), ids, payload, free) && Partitioned(n, ids, free) && |desc| == n
    requires c < |ids| && free != [] && |ids[c]| == |payload[c]|
    ensures var idx := free[0];
            && idx < n && desc[idx].next == Head(free[1..], n)
            && Chained(n, desc, ids[c])
            && Linked(n, WithLast(n, desc, ids[c], idx, buf), Head(free[1..], n),
                      ids[c := ids[c] + [idx]], payload[c := payload[c] + [buf]], free[1..])
  {
    var idx, rest := free[0], free[1..];
    var desc' := WithLast(n, desc, ids[c], idx, buf);
    var ids', payload' := ids[c := ids[c] + [idx]], payload[c := payload[c] + [buf]];
    assert free == [idx] + rest && idx in free && idx !in rest;
    ChainTail(n, desc, free);
    assert Disjoint(rest, ids[c]);
    OtherChain(n, desc, ids[c], idx, buf, rest);
    assert Rest(payload[c], |ids[c]|) == payload[c] && Rest(payload'[c], |ids'[c]|) == payload'[c];
    AppendedChain(n, desc, ids[c], payload[c], idx, buf);
    forall d | 0 <= d < |ids'|
      ensures Chained(n, desc', ids'[d]) && Carries(desc', ids'[d], Rest(payload'[d], |ids'[d]|))
    {
      if d != c {
        assert d < c ==> Disjoint(ids[d], ids[c]);
        assert c < d ==> Disjoint(ids[c], ids[d]);
        OtherChain(n, desc, ids[c], idx, buf, ids[d]);
      }
    }
  }

  /** A chain without its first descriptor, which now leads elsewhere. */
  lemma PoppedChain(n: nat, desc: seq<Desc>, chain: seq<nat>, bufs: seq<Buf>, next: nat)
    requires Chained(n, desc, chain) && Carries(desc, chain, bufs) && NoRepeat(chain) && chain != []
    ensures var desc' := desc[chain[0] := desc[chain[0]].(next := next)];
            Chained(n, desc', chain[1..]) && Carries(desc', chain[1..], bufs[1..])
  {
    var rest := chain[1..];
    var desc' := desc[chain[0] := desc[chain[0]].(next := next)];
    forall i | 0 <= i < |rest|
      ensures rest[i] < |desc| && desc'[rest[i]] == Desc(bufs[1..][i], After(rest, i, n))
    {
      assert rest[i] == chain[i + 1] != chain[0];
      assert After(rest, i, n) == After(chain, i + 1, n);
    }
  }

  lemma FreedChain(n: nat, desc: seq<Desc>, free: seq<nat>, idx: nat)
    requires Chained(n, desc, free) && idx !in free && idx < |desc|
    ensures Chained(n, desc[idx := desc[idx].(next := Head(free, n))], [idx] + free)
  {
    var desc', free' := desc[idx := desc[idx].(next := Head(free, n))], [idx] + free;
    forall i | 0 <= i < |free'|
      ensures free'[i] < |desc'| && desc'[free'[i]].next == After(free', i, n)
    {
      if i > 0 {
        assert free'[i] == free[i - 1] != idx && After(free', i, n) == After(free, i - 1, n);
      }
    }
  }

  lemma PopLinks(n: nat, desc: seq<Desc>, ids: seq<seq<nat>>, payload: seq<seq<Buf>>, free: seq<nat>, c: nat)
    requires Linked(n, desc, Head(free, n), ids, payload, free) && Partitioned(n, ids, free) && |desc| == n
    requires c < |ids| && ids[c] != []
    ensures var idx := ids[c][0];
            && idx < n && |ids[c]| <= |payload[c]|
            && desc[idx] == Desc(Rest(payload[c], |ids[c]|)[0], Head(ids[c][1..], n))
            && Linked(n, desc[idx := desc[idx].(next := Head(free, n))], idx, ids[c := ids[c][1..]], payload,
                [idx] + free)
  {
    var idx := ids[c][0];
    var desc' := desc[idx := desc[idx].(next := Head(free, n))];
    var ids' := ids[c := ids[c][1..]];
    assert idx in ids[c] && idx !in free;
    assert After(ids[c], 0, n) == Head(ids[c][1..], n);
    FreedChain(n, desc, free, idx);
    PoppedChain(n, desc, ids[c], Rest(payload[c], |ids[c]|), Head(free, n));
    assert Rest(payload[c], |ids[c]|)[1..] == Rest(payload[c], |ids'[c]|);
    forall d | 0 <= d < |ids'|
      ensures Chained(n, desc', ids'[d]) && Carries(desc', ids'[d], Rest(payload[d], |ids'[d]|))
    {
      if d != c {
        assert d < c ==> Disjoint(ids[d], ids[c]);
        assert c < d ==> Disjoint(ids[c], ids[d]);
        assert idx !in ids[d];
        UntouchedChain(n, desc, desc', ids[d]);
      }
    }
  }
}
