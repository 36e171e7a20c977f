/**
 The virtqueue operations of libvirtqueue/src/virtqueue.c on values: the descriptor table, the two
 rings and the private indices of both sides. Driver and device share all of this memory.
 */
module VirtqueueSpec {
  import opened Arithmetic

  datatype Flag = Read | Write | ReadWrite

  /** A buffer as the driver hands it over: address, length, flag. */
  datatype Buf = Buf(addr: nat, len: nat, flag: Flag)

  datatype Desc = Desc(buf: Buf, next: nat)

  datatype Used = Used(id: nat, len: nat)

  /** A handle on a scatter list: where iteration stands, and the head. */
  datatype Handle = Handle(cur: nat, first: nat)

  const NO_INDEX: nat := 0xFFFF_FFFF

  /** `virtqueue_init_ring_object`. */
  const NEW_HANDLE := Handle(NO_INDEX, NO_INDEX)

  const LEN_SIZE: nat := 0x1_0000_0000

  datatype Vq = Vq(n: nat, desc: seq<Desc>, freeHead: nat,
                   availRing: seq<nat>, availIdx: nat, usedRing: seq<Used>, usedIdx: nat,
                   aSeen: nat, uSeen: nat)

  /** Queue lengths are powers of two, and n itself has to fit the 16-bit `next` field. */
  predicate GoodLength(n: nat) {
    n <= 0x8000 && PowerOfTwo(n)
  }

  ghost predicate WellFormed(v: Vq) {
    && v.n > 0 && GoodLength(v.n)
    && |v.desc| == |v.availRing| == |v.usedRing| == v.n
    && v.freeHead <= v.n
    && (forall d | 0 <= d < v.n :: v.desc[d].next <= v.n)
    && v.availIdx < v.n && v.usedIdx < v.n && v.aSeen < v.n && v.uSeen < v.n
  }

  /** What the driver initialises; the entries of the rings are whatever the memory held. */
  function Init(n: nat, availRing: seq<nat>, usedRing: seq<Used>): (v: Vq)
    requires n > 0 && GoodLength(n) && |availRing| == |usedRing| == n
    ensures WellFormed(v)
  {
    Vq(n, seq(n, d requires 0 <= d < n => Desc(Buf(0, 0, Read), d + 1)), 0, availRing, 0, usedRing, 0, n - 1, n - 1)
  }

  /** `vq_add_desc`; the index returned is n when the table is full. */
  function AddDesc(v: Vq, buf: Buf, prev: nat): (r: (Vq, nat))
    requires WellFormed(v)
    ensures WellFormed(r.0) && r.1 <= v.n
  {
    var idx := v.freeHead;
    if idx == v.n then
      (v, idx)
    else
      var desc := v.desc[idx := Desc(buf, v.n)];
      var desc' := if prev < v.n then desc[prev := desc[prev].(next := idx)] else desc;
      (v.(freeHead := v.desc[idx].next, desc := desc'), idx)
  }

  /** `virtqueue_add_available_buf`. */
  function AddAvailable(v: Vq, obj: Handle, buf: Buf): (r: (Vq, Handle, bool))
    requires WellFormed(v)
    ensures WellFormed(r.0)
  {
    var (v', idx) := AddDesc(v, buf, obj.cur);
    if idx == v.n then
      (v', obj, false)
    else if obj.first >= v.n then
      (v'.(availRing := v'.availRing[v'.availIdx := idx], availIdx := NextSlot(v'.availIdx, v.n)), Handle(idx, idx),
          true)
    else
      (v', obj.(cur := idx), true)
  }

  /** `virtqueue_get_used_buf`: the handle and length of the next returned chain. */
  function GetUsed(v: Vq, obj: Handle): (r: (Vq, Handle, nat, bool))
    requires WellFormed(v)
    ensures WellFormed(r.0)
  {
    var next := NextSlot(v.uSeen, v.n);
    if next == v.usedIdx then
      (v, obj, 0, false)
    else
      var e := v.usedRing[next];
      (v.(uSeen := next), Handle(e.id, e.id), e.len, true)
  }

  /** `virtqueue_add_used_buf`. */
  function AddUsed(v: Vq, obj: Handle, len: nat): (v': Vq)
    requires WellFormed(v)
    ensures WellFormed(v')
  {
    v.(usedRing := v.usedRing[v.usedIdx := Used(obj.first, len)], usedIdx := NextSlot(v.usedIdx, v.n))
  }

  /** A handle is returned by its head, wherever it stands after gathering. */
  lemma ReturnedIsHead(v: Vq, obj: Handle, len: nat)
    requires WellFormed(v)
    ensures var v' := AddUsed(v, obj, len);
            && v'.usedRing[v.usedIdx] == Used(obj.first, len)
            && v' == AddUsed(v, Handle(obj.first, obj.first), len)
  {
  }

  /** `virtqueue_get_available_buf`. */
  function GetAvailable(v: Vq, obj: Handle): (r: (Vq, Handle, bool))
    requires WellFormed(v)
    ensures WellFormed(r.0)
  {
    var next := NextSlot(v.aSeen, v.n);
    if next == v.availIdx then
      (v, obj, false)
    else
      var id := v.availRing[next];
      (v.(aSeen := next), Handle(id, id), true)
  }

  datatype Gathered = End | Got(buf: Buf, obj: Handle)

  /** `virtqueue_gather_available`. */
  function GatherAvailable(v: Vq, obj: Handle): Gathered
    requires WellFormed(v)
  {
    if obj.cur >= v.n then End else Got(v.desc[obj.cur].buf, obj.(cur := v.desc[obj.cur].next))
  }

  /** `virtqueue_gather_used`: like gathering, and the descriptor goes back to the free list. */
  function GatherUsed(v: Vq, obj: Handle): (r: (Vq, Gathered))
    requires WellFormed(v)
    ensures WellFormed(r.0)
  {
    if obj.cur >= v.n then
      (v, End)
    else
      var d := v.desc[obj.cur];
      (v.(desc := v.desc[obj.cur := d.(next := v.freeHead)], freeHead := obj.cur), Got(d.buf, obj.(cur := d.next)))
  }
}
