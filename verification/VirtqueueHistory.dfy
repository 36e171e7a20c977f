/**
 What driver and device have done to a virtqueue so far, and the rules they keep to.
 */
module VirtqueueHistory {
  import opened Arithmetic
  import opened VirtqueueSpec

  /** A chain handed back by the device: its number and the length the device reported. */
  datatype Done = Done(chain: nat, len: nat)

  /** Chains are numbered by publication. Those below `taken` have been taken by the device; `done`
      lists the chains it returned, in order, of which the driver has fetched the first `reclaimed`.
      `ids[c]` are the descriptors chain c still owns, `payload[c]` is all the driver ever put into it,
      `heads` and `returned` are all entries ever written to the two rings. No call reads this. */
  datatype History = History(taken: nat, reclaimed: nat, done: seq<Done>,
                             ids: seq<seq<nat>>, payload: seq<seq<Buf>>,
                             heads: seq<nat>, returned: seq<Used>, free: seq<nat>)

  predicate Returned(h: History, c: nat) {
    exists k | 0 <= k < |h.done| :: h.done[k].chain == c
  }

  /** The driver has the chain back and may gather it. */
  predicate Fetched(h: History, c: nat) {
    exists k | 0 <= k < |h.done| :: k < h.reclaimed && h.done[k].chain == c
  }

  ghost predicate Ledger(h: History) {
    var balanced :=
      && |h.payload| == |h.ids| == |h.heads| && |h.returned| == |h.done|
      && h.reclaimed <= |h.done| <= h.taken <= |h.ids|
      && (forall k | 0 <= k < |h.done| ::
            && h.done[k].chain < h.taken
            && h.returned[k] == Used(h.heads[h.done[k].chain], h.done[k].len))
      && (forall k, l | 0 <= k < l < |h.done| :: h.done[k].chain != h.done[l].chain)
      && (forall c | 0 <= c < |h.ids| && !Fetched(h, c) :: Whole(h, c));
    balanced
  }

  /** No descriptor of the chain has been freed yet. */
  ghost predicate Whole(h: History, c: nat)
    requires c < |h.ids| == |h.payload| == |h.heads|
  {
    h.ids[c] != [] && |h.ids[c]| == |h.payload[c]| && h.heads[c] == h.ids[c][0]
  }

  // ---- The calls ----

  datatype Op =
    | Publish(buf: Buf)          // driver: first buffer of a new chain
    | Extend(c: nat, buf: Buf)   // driver: one more buffer, before the device takes the chain
    | Take                       // device: next available chain
    | Return(c: nat, len: nat)   // device: a chain it holds is done
    | Fetch                      // driver: next returned chain
    | Pop(c: nat)                // driver: gather one buffer of a fetched chain

  /** The calls that have an effect, and what the two sides keep to: at most n - 1 chains in flight, a chain
      is complete before it is taken, the device returns each chain it took once, the driver gathers what it
      has fetched. */
  predicate Acts(n: nat, h: History, op: Op) {
    match op
    case Publish(_) => |h.ids| + 1 < h.reclaimed + n && h.free != []
    case Extend(c, _) => h.taken <= c < |h.ids| && h.free != []
    case Take => h.taken < |h.ids|
    case Return(c, _) => c < h.taken && !Returned(h, c)
    case Fetch => h.reclaimed < |h.done|
    case Pop(c) => c < |h.ids| && Fetched(h, c) && h.ids[c] != []
  }

  /** The calls that find nothing to do: no descriptor is free, nothing is there to take or to fetch, or
      the chain is at its end. */
  predicate Idles(h: History, op: Op) {
    match op
    case Publish(_) => h.free == []
    case Extend(c, _) => h.taken <= c < |h.ids| && h.free == []
    case Take => h.taken == |h.ids|
    case Return(_, _) => false
    case Fetch => h.reclaimed == |h.done|
    case Pop(c) => c < |h.ids| && Fetched(h, c) && h.ids[c] == []
  }

  predicate Can(n: nat, h: History, op: Op) {
    Acts(n, h, op) || Idles(h, op)
  }

  /** The handle the driver holds while it builds chain c. */
  function OpenHandle(h: History, c: nat): Handle
    requires c < |h.ids| && h.ids[c] != []
  {
    Handle(h.ids[c][|h.ids[c]| - 1], h.ids[c][0])
  }

  function Record(h: History, op: Op, n: nat): History
    requires Ledger(h) && Can(n, h, op)
  {
    if Idles(h, op) then h
    else
      match op
      case Publish(buf) =>
        h.(ids := h.ids + [[h.free[0]]], payload := h.payload + [[buf]], heads := h.heads + [h.free[0]],
            free := h.free[1..])
      case Extend(c, buf) =>
        h.(ids := h.ids[c := h.ids[c] + [h.free[0]]], payload := h.payload[c := h.payload[c] + [buf]],
            free := h.free[1..])
      case Take => h.(taken := h.taken + 1)
      case Return(c, len) => h.(done := h.done + [Done(c, len)], returned := h.returned + [Used(h.heads[c], len)])
      case Fetch => h.(reclaimed := h.reclaimed + 1)
      case Pop(c) => h.(ids := h.ids[c := h.ids[c][1..]], free := [h.ids[c][0]] + h.free)
  }

  lemma NotFetchedYet(h: History, c: nat)
    requires Ledger(h) && h.taken <= c < |h.ids|
    ensures !Returned(h, c) && !Fetched(h, c) && Whole(h, c)
  {
  }

  /** A chain the device still holds leaves room among those it has returned. */
  lemma ReturnedRoom(h: History, c: nat)
    requires Ledger(h) && c < h.taken && !Returned(h, c)
    ensures |h.done| < h.taken && Whole(h, c)
  {
    var chains := seq(|h.done|, k requires 0 <= k < |h.done| => h.done[k].chain);
    DistinctBelow(chains + [c], h.taken);
  }

  // ---- Each call keeps the ledger ----

  lemma PublishLedger(h: History, n: nat, buf: Buf)
    requires Ledger(h) && Acts(n, h, Publish(buf))
    ensures Ledger(Record(h, Publish(buf), n))
  {
    var h' := Record(h, Publish(buf), n);
    forall d | 0 <= d < |h'.ids| && !Fetched(h', d)
      ensures Whole(h', d)
    {
      assert Fetched(h, d) <==> Fetched(h', d);
      assert d < |h.ids| ==> Whole(h, d);
    }
  }

  lemma ExtendLedger(h: History, n: nat, c: nat, buf: Buf)
    requires Ledger(h) && Acts(n, h, Extend(c, buf))
    ensures Ledger(Record(h, Extend(c, buf), n))
  {
    var h' := Record(h, Extend(c, buf), n);
    NotFetchedYet(h, c);
    forall d | 0 <= d < |h'.ids| && !Fetched(h', d)
      ensures Whole(h', d)
    {
      assert Fetched(h, d) <==> Fetched(h', d);
      assert Whole(h, d);
    }
  }

  lemma TakeLedger(h: History, n: nat)
    requires Ledger(h) && Acts(n, h, Take)
    ensures Ledger(Record(h, Take, n)) && Whole(h, h.taken)
  {
    var h' := Record(h, Take, n);
    NotFetchedYet(h, h.taken);
    forall d | 0 <= d < |h'.ids| && !Fetched(h', d)
      ensures Whole(h', d)
    {
      assert Fetched(h, d) <==> Fetched(h', d);
      assert Whole(h, d);
    }
  }

  lemma ReturnLedger(h: History, n: nat, c: nat, len: nat)
    requires Ledger(h) && Acts(n, h, Return(c, len))
    ensures Ledger(Record(h, Return(c, len), n))
  {
    var h' := Record(h, Return(c, len), n);
    ReturnedRoom(h, c);
    forall k, l | 0 <= k < l < |h'.done|
      ensures h'.done[k].chain != h'.done[l].chain
    {
      assert l == |h.done| ==> h.done[k].chain != c;
    }
    forall d | 0 <= d < |h'.ids| && !Fetched(h', d)
      ensures Whole(h', d)
    {
      FetchedAfterReturn(h, n, c, len, d);
      assert Whole(h, d);
    }
  }

  lemma FetchedAfterReturn(h: History, n: nat, c: nat, len: nat, d: nat)
    requires Ledger(h) && Acts(n, h, Return(c, len))
    ensures Fetched(Record(h, Return(c, len), n), d) <==> Fetched(h, d)
  {
    var h' := Record(h, Return(c, len), n);
    assert forall k | 0 <= k < |h.done| :: h'.done[k] == h.done[k];
  }

  lemma FetchLedger(h: History, n: nat)
    requires Ledger(h) && Acts(n, h, Fetch)
    ensures Ledger(Record(h, Fetch, n)) && Whole(h, h.done[h.reclaimed].chain)
  {
    var h' := Record(h, Fetch, n);
    assert !Fetched(h, h.done[h.reclaimed].chain);
    forall d | 0 <= d < |h'.ids| && !Fetched(h', d)
      ensures Whole(h', d)
    {
      assert !Fetched(h, d);
      assert Whole(h, d);
    }
  }

  lemma PopLedger(h: History, n: nat, c: nat)
    requires Ledger(h) && Acts(n, h, Pop(c))
    ensures Ledger(Record(h, Pop(c), n))
  {
    var h' := Record(h, Pop(c), n);
    forall d | 0 <= d < |h'.ids| && !Fetched(h', d)
      ensures Whole(h', d)
    {
      assert Fetched(h, d) <==> Fetched(h', d);
      assert Whole(h, d);
    }
  }
}
