/**
 A driver and a device sharing a virtqueue: every call that changes something, on either side, keeps
 the invariant and returns what its caller relies on. The calls of the two sides may alternate in any
 order; gathering an available buffer changes nothing and may come at any time in between.
 */
module VirtqueueProtocol {
  import opened Arithmetic
  import opened VirtqueueSpec
  import opened VirtqueueHistory
  import opened VirtqueueParts
  import opened VirtqueueState

  // ---- Each call keeps the invariant and does what its side relies on ----

  lemma PublishShape(v: Vq, buf: Buf)
    requires WellFormed(v) && v.freeHead < v.n
    ensures var idx := v.freeHead;
            var v' := v.(desc := v.desc[idx := Desc(buf, v.n)], freeHead := v.desc[idx].next,
                         availRing := v.availRing[v.availIdx := idx], availIdx := NextSlot(v.availIdx, v.n));
            AddAvailable(v, NEW_HANDLE, buf) == (v', Handle(idx, idx), true)
  {
  }

  lemma PublishInv(v: Vq, h: History, v': Vq, h': History)
    requires Inv(v, h) && WellFormed(v') && Ledger(h') && |h'.ids| < h.reclaimed + v.n
    requires v'.n == v.n && Partitioned(v.n, h'.ids, h'.free)
    requires Linked(v.n, v'.desc, v'.freeHead, h'.ids, h'.payload, h'.free)
    requires RingHolds(v.n, v'.availRing, v'.availIdx, v.aSeen, h.taken, h'.heads)
    requires (v'.aSeen, v'.usedRing, v'.usedIdx, v'.uSeen) == (v.aSeen, v.usedRing, v.usedIdx, v.uSeen)
    requires (h'.taken, h'.reclaimed, h'.returned) == (h.taken, h.reclaimed, h.returned)
    ensures Inv(v', h')
  {
  }

  lemma PublishStep(v: Vq, h: History, buf: Buf)
    requires Inv(v, h) && Acts(v.n, h, Publish(buf))
    ensures Inv(Call(v, h, Publish(buf)), Record(h, Publish(buf), v.n))
  {
    PublishLinks(v, h, buf);
    RingPut(v.n, v.availRing, v.availIdx, v.aSeen, h.taken, h.heads, h.free[0]);
    PublishLedger(h, v.n, buf);
    PublishShape(v, buf);
    PublishInv(v, h, Call(v, h, Publish(buf)), Record(h, Publish(buf), v.n));
  }

  lemma PublishOutput(v: Vq, h: History, buf: Buf)
    requires Inv(v, h) && Acts(v.n, h, Publish(buf))
    ensures var (_, obj, ok) := AddAvailable(v, NEW_HANDLE, buf);
            ok && obj == OpenHandle(Record(h, Publish(buf), v.n), |h.ids|)
  {
    PublishLinks(v, h, buf);
    PublishShape(v, buf);
  }

  lemma PublishLinks(v: Vq, h: History, buf: Buf)
    requires Inv(v, h) && Acts(v.n, h, Publish(buf))
    ensures var h' := Record(h, Publish(buf), v.n);
            && v.freeHead == h.free[0] < v.n
            && Partitioned(v.n, h'.ids, h'.free)
            && Linked(v.n, v.desc[v.freeHead := Desc(buf, v.n)], v.desc[v.freeHead].next, h'.ids, h'.payload, h'.free)
  {
    var h' := Record(h, Publish(buf), v.n);
    var c := |h.ids|;
    var ids, payload := h.ids + [[]], h.payload + [[]];
    NewChain(v.n, h.ids, h.free);
    MoveToChain(v.n, ids, h.free, c);
    AppendLinks(v.n, v.desc, ids, payload, h.free, c, buf);
    assert ids[c] + [h.free[0]] == [h.free[0]] && payload[c] + [buf] == [buf];
    assert h'.ids == ids[c := ids[c] + [h.free[0]]] && h'.payload == payload[c := payload[c] + [buf]];
  }

  lemma ExtendStep(v: Vq, h: History, c: nat, buf: Buf)
    requires Inv(v, h) && Acts(v.n, h, Extend(c, buf))
    ensures Inv(Call(v, h, Extend(c, buf)), Record(h, Extend(c, buf), v.n))
    ensures h.ids[c] != []
    ensures var (_, obj, ok) := AddAvailable(v, OpenHandle(h, c), buf);
            ok && obj == OpenHandle(Record(h, Extend(c, buf), v.n), c)
  {
    NotFetchedYet(h, c);
    MoveToChain(v.n, h.ids, h.free, c);
    AppendLinks(v.n, v.desc, h.ids, h.payload, h.free, c, buf);
    ExtendLedger(h, v.n, c, buf);
  }

  lemma TakeShape(v: Vq)
    requires WellFormed(v) && NextSlot(v.aSeen, v.n) != v.availIdx
    ensures var next := NextSlot(v.aSeen, v.n);
            GetAvailable(v, NEW_HANDLE) == (v.(aSeen := next), Handle(v.availRing[next], v.availRing[next]), true)
  {
  }

  lemma TakeInv(v: Vq, h: History, next: nat)
    requires Inv(v, h) && next < v.n && Ledger(h.(taken := h.taken + 1))
    requires RingHolds(v.n, v.availRing, v.availIdx, next, h.taken + 1, h.heads)
    ensures Inv(v.(aSeen := next), h.(taken := h.taken + 1))
  {
  }

  lemma TakeOutput(v: Vq, h: History)
    requires Inv(v, h) && Acts(v.n, h, Take)
    ensures var next := NextSlot(v.aSeen, v.n);
            && GetAvailable(v, NEW_HANDLE) == (v.(aSeen := next), Handle(h.heads[h.taken], h.heads[h.taken]), true)
            && RingHolds(v.n, v.availRing, v.availIdx, next, h.taken + 1, h.heads)
  {
    RingTake(v.n, v.availRing, v.availIdx, v.aSeen, h.taken, h.heads);
    TakeShape(v);
  }

  lemma TakeStep(v: Vq, h: History)
    requires Inv(v, h) && Acts(v.n, h, Take)
    ensures Inv(Call(v, h, Take), Record(h, Take, v.n)) && Whole(h, h.taken)
  {
    TakeLedger(h, v.n);
    TakeOutput(v, h);
    assert Call(v, h, Take) == v.(aSeen := NextSlot(v.aSeen, v.n));
    assert Record(h, Take, v.n) == h.(taken := h.taken + 1);
    TakeInv(v, h, NextSlot(v.aSeen, v.n));
  }

  lemma ReturnStep(v: Vq, h: History, c: nat, len: nat)
    requires Inv(v, h) && Acts(v.n, h, Return(c, len))
    ensures Inv(Call(v, h, Return(c, len)), Record(h, Return(c, len), v.n))
  {
    ReturnedRoom(h, c);
    ReturnLedger(h, v.n, c, len);
    var e := Used(h.heads[c], len);
    RingPut(v.n, v.usedRing, v.usedIdx, v.uSeen, h.reclaimed, h.returned, e);
    assert Call(v, h, Return(c, len))
        == v.(usedRing := v.usedRing[v.usedIdx := e], usedIdx := NextSlot(v.usedIdx, v.n));
  }

  lemma FetchShape(v: Vq)
    requires WellFormed(v) && NextSlot(v.uSeen, v.n) != v.usedIdx
    ensures var next := NextSlot(v.uSeen, v.n);
            var e := v.usedRing[next];
            GetUsed(v, NEW_HANDLE) == (v.(uSeen := next), Handle(e.id, e.id), e.len, true)
  {
  }

  lemma FetchInv(v: Vq, h: History, next: nat)
    requires Inv(v, h) && next < v.n && Ledger(h.(reclaimed := h.reclaimed + 1))
    requires RingHolds(v.n, v.usedRing, v.usedIdx, next, h.reclaimed + 1, h.returned)
    ensures Inv(v.(uSeen := next), h.(reclaimed := h.reclaimed + 1))
  {
  }

  lemma FetchOutput(v: Vq, h: History)
    requires Inv(v, h) && Acts(v.n, h, Fetch)
    ensures var next := NextSlot(v.uSeen, v.n);
            var e := h.done[h.reclaimed];
            && e.chain < |h.heads|
            && GetUsed(v, NEW_HANDLE) == (v.(uSeen := next), Handle(h.heads[e.chain], h.heads[e.chain]), e.len, true)
            && RingHolds(v.n, v.usedRing, v.usedIdx, next, h.reclaimed + 1, h.returned)
  {
    RingTake(v.n, v.usedRing, v.usedIdx, v.uSeen, h.reclaimed, h.returned);
    FetchShape(v);
  }

  lemma FetchStep(v: Vq, h: History)
    requires Inv(v, h) && Acts(v.n, h, Fetch)
    ensures Inv(Call(v, h, Fetch), Record(h, Fetch, v.n)) && Whole(h, h.done[h.reclaimed].chain)
  {
    FetchLedger(h, v.n);
    FetchOutput(v, h);
    assert Call(v, h, Fetch) == v.(uSeen := NextSlot(v.uSeen, v.n));
    assert Record(h, Fetch, v.n) == h.(reclaimed := h.reclaimed + 1);
    FetchInv(v, h, NextSlot(v.uSeen, v.n));
  }

  lemma PopStep(v: Vq, h: History, c: nat)
    requires Inv(v, h) && Acts(v.n, h, Pop(c))
    ensures Inv(Call(v, h, Pop(c)), Record(h, Pop(c), v.n))
    ensures |h.ids[c]| <= |h.payload[c]|
    ensures GatherUsed(v, Handle(h.ids[c][0], h.heads[c])).1
         == Got(Rest(h.payload[c], |h.ids[c]|)[0], Handle(Head(h.ids[c][1..], v.n), h.heads[c]))
  {
    MoveToFree(v.n, h.ids, h.free, c);
    PopLinks(v.n, v.desc, h.ids, h.payload, h.free, c);
    PopLedger(h, v.n, c);
  }

  /** A call that finds nothing to do answers so, and leaves the virtqueue and the handle of its caller as
      they were, whatever handle that is. */
  lemma IdleCall(v: Vq, h: History, op: Op, obj: Handle, buf: Buf)
    requires Inv(v, h) && Idles(h, op)
    ensures op.Publish? || op.Extend? ==> AddAvailable(v, obj, buf) == (v, obj, false)
    ensures op.Take? ==> GetAvailable(v, obj) == (v, obj, false)
    ensures op.Fetch? ==> GetUsed(v, obj) == (v, obj, 0, false)
    ensures op.Pop? ==> GatherUsed(v, Handle(v.n, obj.first)) == (v, End)
  {
    RingEmpty(v.n, v.availRing, v.availIdx, v.aSeen, h.taken, h.heads);
    RingEmpty(v.n, v.usedRing, v.usedIdx, v.uSeen, h.reclaimed, h.returned);
  }

  lemma IdleStep(v: Vq, h: History, op: Op)
    requires Inv(v, h) && Idles(h, op)
    ensures Call(v, h, op) == v && Record(h, op, v.n) == h
  {
    match op
    case Publish(buf) => IdleCall(v, h, op, NEW_HANDLE, buf);
    case Extend(c, buf) =>
      NotFetchedYet(h, c);
      IdleCall(v, h, op, OpenHandle(h, c), buf);
    case Take => IdleCall(v, h, op, NEW_HANDLE, Buf(0, 0, Read));
    case Fetch => IdleCall(v, h, op, NEW_HANDLE, Buf(0, 0, Read));
    case Pop(c) => IdleCall(v, h, op, Handle(v.n, h.heads[c]), Buf(0, 0, Read));
  }

  lemma StepKeepsInv(v: Vq, h: History, op: Op)
    requires Inv(v, h) && Can(v.n, h, op)
    ensures Inv(Call(v, h, op), Record(h, op, v.n))
    ensures Idles(h, op) ==> Call(v, h, op) == v && Record(h, op, v.n) == h
  {
    if Idles(h, op) {
      IdleStep(v, h, op);
    } else {
      match op
      case Publish(buf) => PublishStep(v, h, buf);
      case Extend(c, buf) => ExtendStep(v, h, c, buf);
      case Take => TakeStep(v, h);
      case Return(c, len) => ReturnStep(v, h, c, len);
      case Fetch => FetchStep(v, h);
      case Pop(c) => PopStep(v, h, c);
    }
  }
}
