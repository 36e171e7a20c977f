/**
 What driver and device can rely on over whole runs: conservation of descriptors, exact round trips,
 and where the available ring overflows.
 */
module VirtqueueTheorems {
  import opened Arithmetic
  import opened VirtqueueSpec
  import opened VirtqueueHistory
  import opened VirtqueueParts
  import opened VirtqueueState
  import opened VirtqueueProtocol

  // ---- Runs ----

  function Range(n: nat): (r: seq<nat>)
    ensures |r| == n && forall i | 0 <= i < n :: r[i] == i
  {
    seq(n, i requires 0 <= i < n => i)
  }

  /** Before the first call. */
  function NoHistory(n: nat): History {
    History(0, 0, [], [], [], [], [], Range(n))
  }

  lemma InitInv(n: nat, availRing: seq<nat>, usedRing: seq<Used>)
    requires n > 0 && GoodLength(n) && |availRing| == |usedRing| == n
    ensures Inv(Init(n, availRing, usedRing), NoHistory(n))
  {
    var v, h := Init(n, availRing, usedRing), NoHistory(n);
    forall x: nat
      ensures x < n <==> x in h.free || Owned(h.ids, x)
    {
      assert x < n ==> h.free[x] == x;
    }
    assert Partitioned(n, h.ids, h.free);
    assert RingHolds(n, v.availRing, v.availIdx, v.aSeen, h.taken, h.heads);
    assert RingHolds(n, v.usedRing, v.usedIdx, v.uSeen, h.reclaimed, h.returned);
  }

  /** `ops` leads from (v, h) to (v', h'), each side keeping to the rules. Asking for `Inv` on the way
      excludes no run, it makes the calls defined: StepKeepsInv shows that no allowed call loses it. */
  ghost predicate Leads(v: Vq, h: History, ops: seq<Op>, v': Vq, h': History)
    decreases |ops|
  {
    if ops == [] then v == v' && h == h'
    else Inv(v, h) && Can(v.n, h, ops[0]) && Leads(Call(v, h, ops[0]), Record(h, ops[0], v.n), ops[1..], v', h')
  }

  lemma {:induction false} RunKeepsInv(v: Vq, h: History, ops: seq<Op>, v': Vq, h': History)
    requires Inv(v, h) && Leads(v, h, ops, v', h')
    ensures Inv(v', h') && v'.n == v.n
    decreases |ops|
  {
    if ops != [] {
      StepKeepsInv(v, h, ops[0]);
      RunKeepsInv(Call(v, h, ops[0]), Record(h, ops[0], v.n), ops[1..], v', h');
    }
  }

  /** Conservation: in every reachable state each descriptor is in exactly one place (the free list or
      one position of one chain), every list is linked through the table and ends, and a chain that
      the driver has not fetched back still has all its descriptors. */
  lemma DescriptorsConserved(n: nat, availRing: seq<nat>, usedRing: seq<Used>, ops: seq<Op>, v: Vq, h: History)
    requires n > 0 && GoodLength(n) && |availRing| == |usedRing| == n
    requires Leads(Init(n, availRing, usedRing), NoHistory(n), ops, v, h)
    ensures v.n == n && Partitioned(n, h.ids, h.free)
    ensures v.freeHead == Head(h.free, n) && Chained(n, v.desc, h.free)
    ensures forall c | 0 <= c < |h.ids| :: Chained(n, v.desc, h.ids[c])
    ensures Ledger(h) && forall c | 0 <= c < |h.ids| && !Fetched(h, c) :: |h.ids[c]| == |h.payload[c]| > 0
  {
    InitInv(n, availRing, usedRing);
    RunKeepsInv(Init(n, availRing, usedRing), NoHistory(n), ops, v, h);
    assert forall c | 0 <= c < |h.ids| && !Fetched(h, c) :: Whole(h, c);
  }

  // ---- Round trips ----

  /** What the device gathers from `cur` on, at most `fuel` buffers. */
  function Walk(v: Vq, obj: Handle, fuel: nat): seq<Buf>
    requires WellFormed(v)
    decreases fuel
  {
    if fuel == 0 then []
    else
      match GatherAvailable(v, obj)
      case End => []
      case Got(buf, obj') => [buf] + Walk(v, obj', fuel - 1)
  }

  lemma {:induction false} WalkFrom(v: Vq, chain: seq<nat>, payload: seq<Buf>, i: nat, first: nat, fuel: nat)
    requires WellFormed(v) && Chained(v.n, v.desc, chain) && Carries(v.desc, chain, payload)
    requires i <= |chain| && fuel > |chain| - i
    ensures Walk(v, Handle(if i < |chain| then chain[i] else v.n, first), fuel) == payload[i..]
    decreases |chain| - i
  {
    if i < |chain| {
      assert v.desc[chain[i]] == Desc(payload[i], After(chain, i, v.n));
      WalkFrom(v, chain, payload, i + 1, first, fuel - 1);
      assert payload[i..] == [payload[i]] + payload[i + 1..];
    }
  }

  /** A chain that the device has taken stays as it is until the driver has fetched it back. */
  lemma StepKeepsChain(h: History, op: Op, n: nat, c: nat)
    requires Ledger(h) && Can(n, h, op) && c < h.taken
    ensures var h' := Record(h, op, n);
            && c < h'.taken <= |h'.ids| && |h'.payload| == |h'.heads| == |h'.ids|
            && (Fetched(h, c) ==> Fetched(h', c))
            && (!Fetched(h, c) ==>
                  h'.ids[c] == h.ids[c] && h'.payload[c] == h.payload[c] && h'.heads[c] == h.heads[c])
  {
    var h' := Record(h, op, n);
    if k :| 0 <= k < |h.done| && k < h.reclaimed && h.done[k].chain == c {
      assert h'.done[k].chain == c;
    }
  }

  lemma {:induction false} RunKeepsChain(v: Vq, h: History, ops: seq<Op>, v': Vq, h': History, c: nat)
    requires Inv(v, h) && Leads(v, h, ops, v', h') && c < h.taken
    ensures Inv(v', h') && v'.n == v.n && c < h'.taken
    ensures Fetched(h, c) ==> Fetched(h', c)
    ensures !Fetched(h', c) ==>
              h'.ids[c] == h.ids[c] && h'.payload[c] == h.payload[c] && h'.heads[c] == h.heads[c]
    decreases |ops|
  {
    if ops != [] {
      hide Linked, RingHolds, Partitioned, WellFormed;
      StepKeepsInv(v, h, ops[0]);
      StepKeepsChain(h, ops[0], v.n, c);
      RunKeepsChain(Call(v, h, ops[0]), Record(h, ops[0], v.n), ops[1..], v', h', c);
    }
  }

  /** The handle that stands at buffer i of chain c, or behind its end. */
  function ChainHandle(h: History, c: nat, i: nat, n: nat): Handle
    requires c < |h.ids| == |h.heads| && i <= |h.ids[c]|
  {
    Handle(if i < |h.ids[c]| then h.ids[c][i] else n, h.heads[c])
  }

  /** Whatever either side does between the device's calls, gathering a chain it holds goes from one of its
      buffers to the next, and behind the last one it ends. */
  lemma HeldChainGathers(v: Vq, h: History, ops: seq<Op>, v': Vq, h': History, c: nat, i: nat)
    requires Inv(v, h) && Leads(v, h, ops, v', h')
    requires c < h.taken && !Fetched(h', c) && i <= |h.payload[c]|
    ensures |h.ids[c]| == |h.payload[c]| && WellFormed(v')
    ensures GatherAvailable(v', ChainHandle(h, c, i, v.n))
         == if i == |h.payload[c]| then End else Got(h.payload[c][i], ChainHandle(h, c, i + 1, v.n))
  {
    RunKeepsChain(v, h, ops, v', h', c);
    assert Whole(h', c);
    var chain := h'.ids[c];
    assert Rest(h'.payload[c], |chain|) == h'.payload[c];
    if i < |chain| {
      assert v'.desc[chain[i]] == Desc(h'.payload[c][i], After(chain, i, v.n));
    }
  }

  lemma HeldChainWalks(v: Vq, h: History, c: nat, fuel: nat)
    requires Inv(v, h) && fuel > v.n && c < h.taken && !Fetched(h, c)
    ensures Walk(v, Handle(h.heads[c], h.heads[c]), fuel) == h.payload[c]
  {
    assert Whole(h, c);
    ChainFits(v.n, h.ids, h.free, c);
    assert Rest(h.payload[c], |h.ids[c]|) == h.payload[c];
    WalkFrom(v, h.ids[c], h.payload[c], 0, h.heads[c], fuel);
  }

  /** Driver to device: there is something to take exactly while a published chain is untaken; the next
      chain taken is the next one published,
          and with nothing left the call changes nothing; and until the driver has fetched it back, whatever the two
      sides do meanwhile, gathering it yields exactly the buffers the driver chained, in order, and stops. */
  lemma ChainsArriveInOrder(v: Vq, h: History, fuel: nat, ops: seq<Op>, v': Vq, h': History,
      obj: Handle)
    requires Inv(v, h) && fuel > v.n
    requires h.taken < |h.ids| ==> Leads(GetAvailable(v, NEW_HANDLE).0, h.(taken := h.taken + 1), ops, v', h')
    ensures h.taken == |h.ids| <==> !GetAvailable(v, NEW_HANDLE).2
    ensures h.taken == |h.ids| ==> GetAvailable(v, obj) == (v, obj, false)
    ensures h.taken < |h.ids| && !Fetched(h', h.taken) ==>
              WellFormed(v') && Walk(v', GetAvailable(v, NEW_HANDLE).1, fuel) == h.payload[h.taken]
  {
    if h.taken < |h.ids| {
      var v1, h1 := Taken(v, h);
      RunKeepsChain(v1, h1, ops, v', h', h.taken);
      if !Fetched(h', h.taken) {
        HeldChainWalks(v', h', h.taken, fuel);
      }
    } else {
      RingEmpty(v.n, v.availRing, v.availIdx, v.aSeen, h.taken, h.heads);
    }
  }

  lemma Taken(v: Vq, h: History) returns (v1: Vq, h1: History)
    requires Inv(v, h) && h.taken < |h.ids|
    ensures h1 == h.(taken := h.taken + 1) && Inv(v1, h1) && v1.n == v.n
    ensures GetAvailable(v, NEW_HANDLE) == (v1, Handle(h.heads[h.taken], h.heads[h.taken]), true)
  {
    TakeStep(v, h);
    TakeOutput(v, h);
    v1, h1 := Call(v, h, Take), Record(h, Take, v.n);
  }

  lemma ChainFits(n: nat, ids: seq<seq<nat>>, free: seq<nat>, c: nat)
    requires Partitioned(n, ids, free) && c < |ids|
    ensures |ids[c]| <= n
  {
    assert forall i | 0 <= i < |ids[c]| :: ids[c][i] in ids[c];
    DistinctBelow(ids[c], n);
  }

  /** Gathering a returned chain to its end, at most `fuel` buffers. */
  function Drain(v: Vq, obj: Handle, fuel: nat): (r: (Vq, seq<Buf>))
    requires WellFormed(v)
    ensures WellFormed(r.0)
    decreases fuel
  {
    if fuel == 0 then (v, [])
    else
      match GatherUsed(v, obj)
      case (v', End) => (v', [])
      case (v', Got(buf, obj')) =>
        var (v'', bufs) := Drain(v', obj', fuel - 1);
        (v'', [buf] + bufs)
  }

  function Reverse(s: seq<nat>): seq<nat> {
    if s == [] then [] else Reverse(s[1..]) + [s[0]]
  }

  /** A fetched chain of which everything has been gathered. */
  function Emptied(h: History, c: nat): History
    requires c < |h.ids|
  {
    h.(ids := h.ids[c := []], free := Reverse(h.ids[c]) + h.free)
  }

  /** What draining chain c is to achieve: all that is left of its payload, and all of it free. */
  ghost predicate Drained(v: Vq, h: History, c: nat, fuel: nat) {
    var drained :=
      && WellFormed(v) && c < |h.ids| == |h.heads| == |h.payload| && |h.ids[c]| <= |h.payload[c]|
      && var (v', bufs) := Drain(v, Handle(Head(h.ids[c], v.n), h.heads[c]), fuel);
         bufs == Rest(h.payload[c], |h.ids[c]|) && Inv(v', Emptied(h, c));
    drained
  }

  lemma DrainEmpty(v: Vq, h: History, c: nat, fuel: nat)
    requires Inv(v, h) && c < |h.ids| && h.ids[c] == [] && fuel > 0
    ensures Drained(v, h, c, fuel)
  {
    assert h.ids[c := []] == h.ids && [] + h.free == h.free;
  }

  /** (v1, h1) is (v, h) after one buffer has been gathered from the fetched chain c. */
  ghost predicate Popped(v: Vq, h: History, c: nat, v1: Vq, h1: History) {
    var popped :=
      && WellFormed(v) && WellFormed(v1) && v1.n == v.n
      && c < |h.ids| == |h.heads| == |h.payload| && 0 < |h.ids[c]| <= |h.payload[c]|
      && h1 == h.(ids := h.ids[c := h.ids[c][1..]], free := [h.ids[c][0]] + h.free)
      && GatherUsed(v, Handle(h.ids[c][0], h.heads[c]))
           == (v1, Got(Rest(h.payload[c], |h.ids[c]|)[0], Handle(Head(h.ids[c][1..], v.n), h.heads[c])))
      && Fetched(h1, c);
    popped
  }

  lemma PopOne(v: Vq, h: History, c: nat) returns (v1: Vq, h1: History)
    requires Inv(v, h) && c < |h.ids| && Fetched(h, c) && h.ids[c] != []
    ensures Inv(v1, h1) && Popped(v, h, c, v1, h1)
    ensures c < |h1.ids| && |h1.ids[c]| + 1 == |h.ids[c]| && Fetched(h1, c)
  {
    PopStep(v, h, c);
    v1, h1 := Call(v, h, Pop(c)), Record(h, Pop(c), v.n);
    assert Fetched(h1, c);
  }

  lemma DrainCons(v: Vq, h: History, c: nat, fuel: nat, v1: Vq, h1: History)
    requires fuel > 0 && Popped(v, h, c, v1, h1) && Drained(v1, h1, c, fuel - 1)
    ensures Drained(v, h, c, fuel)
  {
    RestCons(h.payload[c], |h.ids[c]|);
    assert h1.ids[c := []] == h.ids[c := []];
    assert Reverse(h1.ids[c]) + h1.free == Reverse(h.ids[c]) + h.free;
    assert Emptied(h1, c) == Emptied(h, c);
    DrainOnce(v, Handle(h.ids[c][0], h.heads[c]), fuel, v1, Rest(h.payload[c], |h.ids[c]|)[0],
              Handle(Head(h.ids[c][1..], v.n), h.heads[c]));
  }

  /** Gathering a fetched chain to its end yields what is left of its payload and frees all of it. */
  lemma {:induction false} DrainFrees(v: Vq, h: History, c: nat, k: nat, fuel: nat)
    requires Inv(v, h) && c < |h.ids| && Fetched(h, c) && |h.ids[c]| == k < fuel
    ensures Drained(v, h, c, fuel)
    decreases k
  {
    hide Inv, Drained;
    if k == 0 {
      DrainEmpty(v, h, c, fuel);
    } else {
      var v1, h1 := PopOne(v, h, c);
      DrainFrees(v1, h1, c, k - 1, fuel - 1);
      DrainCons(v, h, c, fuel, v1, h1);
    }
  }

  lemma RestCons(payload: seq<Buf>, k: nat)
    requires 0 < k <= |payload|
    ensures Rest(payload, k) == [Rest(payload, k)[0]] + Rest(payload, k - 1)
  {
  }

  lemma DrainOnce(v: Vq, obj: Handle, fuel: nat, v1: Vq, buf: Buf, next: Handle)
    requires WellFormed(v) && WellFormed(v1) && fuel > 0 && GatherUsed(v, obj) == (v1, Got(buf, next))
    ensures Drain(v, obj, fuel) == (Drain(v1, next, fuel - 1).0, [buf] + Drain(v1, next, fuel - 1).1)
  {
  }

  /** The driver's next fetch: the handle of the chain returned next, all of it still there. */
  ghost predicate Delivers(v: Vq, h: History, v1: Vq, h1: History) {
    var delivered :=
      && WellFormed(v) && h.reclaimed < |h.done| && h1 == h.(reclaimed := h.reclaimed + 1)
      && var e := h.done[h.reclaimed];
         && e.chain < |h1.ids| == |h1.payload| == |h1.heads|
         && |h1.ids[e.chain]| == |h1.payload[e.chain]| <= v.n && v1.n == v.n
         && GetUsed(v, NEW_HANDLE) == (v1, Handle(Head(h1.ids[e.chain], v1.n), h1.heads[e.chain]), e.len, true);
    delivered
  }

  lemma FetchWhole(v: Vq, h: History) returns (v1: Vq, h1: History)
    requires Inv(v, h) && h.reclaimed < |h.done|
    ensures Inv(v1, h1) && Delivers(v, h, v1, h1) && Fetched(h1, h.done[h.reclaimed].chain)
  {
    FetchStep(v, h);
    FetchOutput(v, h);
    v1, h1 := Call(v, h, Fetch), Record(h, Fetch, v.n);
    var c := h.done[h.reclaimed].chain;
    ChainFits(v.n, h.ids, h.free, c);
    assert h1.done[h.reclaimed].chain == c;
  }

  /** Device to driver: there is something to fetch exactly while a returned chain is unfetched, and with
      nothing left the call changes nothing; the next handle fetched is the chain the device returned next,
          with the length it reported; gathering it
      yields exactly what was chained and puts every descriptor on the free list. */
  lemma ReturnsArriveInOrder(v: Vq, h: History, fuel: nat, obj: Handle) returns (v1: Vq, h1: History)
    requires Inv(v, h) && fuel > v.n
    ensures h.reclaimed == |h.done| <==> !GetUsed(v, NEW_HANDLE).3
    ensures h.reclaimed == |h.done| ==> GetUsed(v, obj) == (v, obj, 0, false)
    ensures h.reclaimed < |h.done| ==> Delivers(v, h, v1, h1) && Drained(v1, h1, h.done[h.reclaimed].chain, fuel)
  {
    if h.reclaimed < |h.done| {
      v1, h1 := FetchWhole(v, h);
      var c := h.done[h.reclaimed].chain;
      DrainFrees(v1, h1, c, |h1.ids[c]|, fuel);
    } else {
      v1, h1 := v, h;
      RingEmpty(v.n, v.usedRing, v.usedIdx, v.uSeen, h.reclaimed, h.returned);
    }
  }

  /** Publishing reports success exactly if a descriptor is free, but the device can see the chain only while
      fewer than n chains wait in the available ring: with n of them the indices coincide and all n are
      lost. The driver is on the safe side while the chains it published and has not fetched back,
      the new one included, are fewer than n; then it holds the handle to continue the chain with. */
  lemma PublishedIsVisibleIff(v: Vq, h: History, buf: Buf)
    requires Inv(v, h)
    ensures var (v', obj, ok) := AddAvailable(v, NEW_HANDLE, buf);
            && (ok <==> h.free != [])
            && (!ok ==> v' == v && obj == NEW_HANDLE)
            && (ok ==> (GetAvailable(v', NEW_HANDLE).2 <==> |h.ids| + 1 - h.taken < v.n))
            && (ok && |h.ids| + 1 < h.reclaimed + v.n ==>
                  GetAvailable(v', NEW_HANDLE).2 && obj == OpenHandle(Record(h, Publish(buf), v.n), |h.ids|))
  {
    if h.free != [] {
      assert h.free[0] in h.free;
      PublishVisible(v, h, buf);
      if |h.ids| + 1 < h.reclaimed + v.n {
        PublishOutput(v, h, buf);
      }
    }
  }

  /** Continuing a chain with the handle that stands for it succeeds if and only if a descriptor is free. Then
      the buffer is the last of the chain and the handle stands for the longer chain; otherwise handle and
      virtqueue stay as they were. Nothing is published. */
  lemma ContinuedIff(v: Vq, h: History, c: nat, buf: Buf)
    requires Inv(v, h) && h.taken <= c < |h.ids|
    ensures h.ids[c] != []
    ensures var (v', obj, ok) := AddAvailable(v, OpenHandle(h, c), buf);
            && (ok <==> h.free != [])
            && (!ok ==> v' == v && obj == OpenHandle(h, c))
            && (ok ==>
                  var h' := Record(h, Extend(c, buf), v.n);
                  && Inv(v', h') && h'.payload == h.payload[c := h.payload[c] + [buf]]
                  && h'.ids == h.ids[c := h.ids[c] + [h.free[0]]]
                  && obj == Handle(h.free[0], h.ids[c][0]))
            && (v'.availRing, v'.availIdx) == (v.availRing, v.availIdx)
  {
    NotFetchedYet(h, c);
    if h.free == [] {
      IdleCall(v, h, Extend(c, buf), OpenHandle(h, c), buf);
    } else {
      ExtendStep(v, h, c, buf);
      assert h.ids[c][0] in h.ids[c];
      assert Owned(h.ids, h.ids[c][0]);
    }
  }

  lemma PublishVisible(v: Vq, h: History, buf: Buf)
    requires Inv(v, h) && h.free != [] && h.free[0] < v.n
    ensures AddAvailable(v, NEW_HANDLE, buf).2
    ensures GetAvailable(AddAvailable(v, NEW_HANDLE, buf).0, NEW_HANDLE).2 <==> |h.ids| + 1 - h.taken < v.n
  {
    PublishShape(v, buf);
    var (v', _, _) := AddAvailable(v, NEW_HANDLE, buf);
    if |h.ids| + 1 == h.taken + v.n {
      RingOverflow(v.n, v.availIdx, v.aSeen, h.taken, |h.heads|);
    } else {
      RingPut(v.n, v.availRing, v.availIdx, v.aSeen, h.taken, h.heads, h.free[0]);
      RingTake(v.n, v'.availRing, v'.availIdx, v'.aSeen, h.taken, h.heads + [h.free[0]]);
    }
  }

  lemma {:induction false} OneMore(v: Vq, h: History, ops: seq<Op>, v1: Vq, h1: History, op: Op)
    requires Leads(v, h, ops, v1, h1) && Inv(v1, h1) && Can(v1.n, h1, op)
    ensures Leads(v, h, ops + [op], Call(v1, h1, op), Record(h1, op, v1.n))
    decreases |ops|
  {
    hide Inv, Can;
    if ops == [] {
      assert ([] + [op])[1..] == [];
    } else {
      LedgerOf(v, h);
      OneMore(Call(v, h, ops[0]), Record(h, ops[0], v.n), ops[1..], v1, h1, op);
      assert (ops + [op])[1..] == ops[1..] + [op];
    }
  }

  /** `k` chains of one buffer published one after another, and none taken. */
  lemma {:induction false} PublishMany(n: nat, availRing: seq<nat>, usedRing: seq<Used>, buf: Buf, k: nat)
      returns (ops: seq<Op>, v: Vq, h: History)
    requires n > 0 && GoodLength(n) && |availRing| == |usedRing| == n && k < n
    ensures Leads(Init(n, availRing, usedRing), NoHistory(n), ops, v, h) && Inv(v, h) && v.n == n
    ensures h.taken == h.reclaimed == 0 && |h.ids| == k && |h.free| == n - k
  {
    if k == 0 {
      InitInv(n, availRing, usedRing);
      ops, v, h := [], Init(n, availRing, usedRing), NoHistory(n);
    } else {
      hide Inv, Leads, Init, NoHistory;
      var ops1, v1, h1 := PublishMany(n, availRing, usedRing, buf, k - 1);
      LedgerOf(v1, h1);
      StepKeepsInv(v1, h1, Publish(buf));
      OneMore(Init(n, availRing, usedRing), NoHistory(n), ops1, v1, h1, Publish(buf));
      ops, v, h := ops1 + [Publish(buf)], Call(v1, h1, Publish(buf)), Record(h1, Publish(buf), n);
    }
  }

  lemma LedgerOf(v: Vq, h: History)
    requires Inv(v, h)
    ensures Ledger(h) && WellFormed(v)
  {
  }

  /** The overflow is within reach from the start: after n - 1 publications by the rules, one more reports
      success, and the device sees none of them. */
  lemma OverflowReachable(n: nat, availRing: seq<nat>, usedRing: seq<Used>, buf: Buf)
      returns (ops: seq<Op>, v: Vq, h: History)
    requires n > 0 && GoodLength(n) && |availRing| == |usedRing| == n
    ensures Leads(Init(n, availRing, usedRing), NoHistory(n), ops, v, h) && Inv(v, h)
    ensures h.taken == 0 && |h.ids| + 1 == v.n == n
    ensures AddAvailable(v, NEW_HANDLE, buf).2
    ensures !GetAvailable(AddAvailable(v, NEW_HANDLE, buf).0, NEW_HANDLE).2
  {
    ops, v, h := PublishMany(n, availRing, usedRing, buf, n - 1);
    PublishedIsVisibleIff(v, h, buf);
  }

  // ---- The same on the way back ----

  /** A return never fails, but the driver can see it only while fewer than n chains wait in the used ring,
      the new one included; of these there are always fewer if the driver keeps to fewer than n chains
      that it has not fetched back. */
  lemma ReturnIsVisibleIff(v: Vq, fetched: nat, returned: seq<Used>, obj: Handle, len: nat)
    requires WellFormed(v) && RingHolds(v.n, v.usedRing, v.usedIdx, v.uSeen, fetched, returned)
    ensures GetUsed(AddUsed(v, obj, len), NEW_HANDLE).3 <==> |returned| + 1 - fetched < v.n
  {
    var v' := AddUsed(v, obj, len);
    if |returned| + 1 == fetched + v.n {
      RingOverflow(v.n, v.usedIdx, v.uSeen, fetched, |returned|);
    } else {
      var e := Used(obj.first, len);
      RingPut(v.n, v.usedRing, v.usedIdx, v.uSeen, fetched, returned, e);
      RingTake(v.n, v'.usedRing, v'.usedIdx, v'.uSeen, fetched, returned + [e]);
    }
  }

  lemma AllowedReturnIsVisible(v: Vq, h: History, c: nat, len: nat)
    requires Inv(v, h) && Acts(v.n, h, Return(c, len))
    ensures GetUsed(Call(v, h, Return(c, len)), NEW_HANDLE).3
  {
    ReturnedRoom(h, c);
    ReturnIsVisibleIff(v, h.reclaimed, h.returned, Handle(h.heads[c], h.heads[c]), len);
  }

  /** A driver that looks only at the chains still waiting to be taken can lose them on the way back: of two
      descriptors each makes a chain, the device takes each at once and returns both, and the used
      ring looks empty. */
  lemma ReturnsLost(availRing: seq<nat>, usedRing: seq<Used>, a: Buf, b: Buf, k: nat, l: nat)
    requires |availRing| == |usedRing| == 2
    ensures GoodLength(2)
    ensures var v0 := Init(2, availRing, usedRing);
            var (v1, _, ok1) := AddAvailable(v0, NEW_HANDLE, a);
            var (v2, obj, seen1) := GetAvailable(v1, NEW_HANDLE);
            var (v3, _, ok2) := AddAvailable(v2, NEW_HANDLE, b);
            var (v4, obj', seen2) := GetAvailable(v3, NEW_HANDLE);
            && ok1 && seen1 && ok2 && seen2
            && !GetUsed(AddUsed(AddUsed(v4, obj, k), obj', l), NEW_HANDLE).3
  {
    assert Pow2(1) == 2;
  }
}
