/**
 A virtqueue together with its history: what always holds of the two, and the calls that change
 both.
 */
module VirtqueueState {
  import opened VirtqueueSpec
  import opened VirtqueueHistory
  import opened VirtqueueParts

  ghost predicate Inv(v: Vq, h: History) {
    var consistent :=
      && WellFormed(v)
      && Ledger(h) && |h.ids| < h.reclaimed + v.n
      && Partitioned(v.n, h.ids, h.free)
      && Linked(v.n, v.desc, v.freeHead, h.ids, h.payload, h.free)
      && RingHolds(v.n, v.availRing, v.availIdx, v.aSeen, h.taken, h.heads)
      && RingHolds(v.n, v.usedRing, v.usedIdx, v.uSeen, h.reclaimed, h.returned);
    consistent
  }

  /** The virtqueue after the call of `op`, with the handles its caller holds. */
  function Call(v: Vq, h: History, op: Op): (v': Vq)
    requires Inv(v, h) && Can(v.n, h, op)
    ensures WellFormed(v') && v'.n == v.n
  {
    match op
    case Publish(buf) => AddAvailable(v, NEW_HANDLE, buf).0
    case Extend(c, buf) =>
      NotFetchedYet(h, c);
      AddAvailable(v, OpenHandle(h, c), buf).0
    case Take => GetAvailable(v, NEW_HANDLE).0
    case Return(c, len) => AddUsed(v, Handle(h.heads[c], h.heads[c]), len)
    case Fetch => GetUsed(v, NEW_HANDLE).0
    case Pop(c) => GatherUsed(v, Handle(Head(h.ids[c], v.n), h.heads[c])).0
  }
}
