/**
 The two sides of a virtqueue as objects over one shared memory, as libvirtqueue/src/virtqueue.c
 has them. Each method is tied to the operation on values that it performs.
 */
module Virtqueue {
  import opened Arithmetic
  import opened VirtqueueSpec
  import opened VirtqueueHistory
  import opened VirtqueueParts
  import opened VirtqueueState

  /** The memory both sides map: descriptor table, available ring and used ring. */
  class Memory {
    const desc: array<Desc>
    const availRing: array<nat>
    const usedRing: array<Used>
    var availIdx: nat
    var usedIdx: nat

    constructor (n: nat)
      ensures fresh(desc) && fresh(availRing) && fresh(usedRing)
      ensures desc.Length == availRing.Length == usedRing.Length == n
    {
      desc := new Desc[n](_ => Desc(Buf(0, 0, Read), 0));
      availRing := new nat[n](_ => 0);
      usedRing := new Used[n](_ => Used(0, 0));
      availIdx, usedIdx := 0, 0;
    }
  }

  class RingObject {
    var cur: nat
    var first: nat

    /** `virtqueue_init_ring_object`. */
    constructor ()
      ensures Value() == NEW_HANDLE
    {
      cur, first := NO_INDEX, NO_INDEX;
    }

    ghost function Value(): Handle
      reads this
    {
      Handle(cur, first)
    }
  }

  class Driver {
    const mem: Memory
    const queueLen: nat
    var freeDescHead: nat
    var uRingLastSeen: nat

    /** The whole virtqueue, given the device's private index. */
    ghost function View(aSeen: nat): Vq
      reads this, mem, mem.desc, mem.availRing, mem.usedRing
    {
      Vq(queueLen, mem.desc[..], freeDescHead, mem.availRing[..], mem.availIdx, mem.usedRing[..], mem.usedIdx,
         aSeen, uRingLastSeen)
    }

    /** `virtqueue_init_driver`: also initialises the shared memory. */
    constructor (n: nat, mem: Memory)
      requires n > 0 && GoodLength(n)
      requires mem.desc.Length == mem.availRing.Length == mem.usedRing.Length == n
      modifies mem, mem.desc
      ensures this.mem == mem && queueLen == n
      ensures View(n - 1) == Init(n, mem.availRing[..], mem.usedRing[..])
    {
      this.mem, queueLen := mem, n;
      freeDescHead, uRingLastSeen := 0, n - 1;
      new;
      for i := 0 to n
        invariant forall d | 0 <= d < i :: mem.desc[d] == Desc(Buf(0, 0, Read), d + 1)
        modifies mem.desc
      {
        mem.desc[i] := Desc(Buf(0, 0, Read), i + 1);
      }
      mem.availIdx, mem.usedIdx := 0, 0;
      assert mem.desc[..] == Init(n, mem.availRing[..], mem.usedRing[..]).desc;
    }

    method DoAddDesc(buf: Buf, prev: nat, ghost aSeen: nat) returns (idx: nat)
      requires WellFormed(View(aSeen))
      modifies this`freeDescHead, mem.desc
      ensures (View(aSeen), idx) == AddDesc(old(View(aSeen)), buf, prev)
    {
      idx := freeDescHead;
      if idx == queueLen {
        return;
      }
      freeDescHead := mem.desc[idx].next;
      mem.desc[idx] := Desc(buf, queueLen);
      if prev < queueLen {
        mem.desc[prev] := mem.desc[prev].(next := idx);
      }
    }

    method AddAvailableBuf(obj: RingObject, buf: Buf, ghost aSeen: nat) returns (ok: bool)
      requires WellFormed(View(aSeen))
      modifies this`freeDescHead, mem.desc, mem.availRing, mem`availIdx, obj
      ensures (View(aSeen), obj.Value(), ok) == AddAvailable(old(View(aSeen)), old(obj.Value()), buf)
      ensures ok <==> old(freeDescHead) != queueLen
      ensures ok ==> obj.cur == old(freeDescHead) && mem.desc[obj.cur].buf == buf
      ensures ok && old(obj.first) >= queueLen ==>
                obj.first == obj.cur == mem.availRing[old(mem.availIdx)]
                && mem.availIdx == NextSlot(old(mem.availIdx), queueLen)
      ensures !ok || old(obj.first) < queueLen ==>
                mem.availIdx == old(mem.availIdx) && mem.availRing[..] == old(mem.availRing[..])
                && obj.first == old(obj.first)
    {
      var idx := DoAddDesc(buf, obj.cur, aSeen);
      if idx == queueLen {
        return false;
      }
      obj.cur := idx;
      if obj.first >= queueLen {
        obj.first := idx;
        mem.availRing[mem.availIdx] := idx;
        MaskStep(mem.availIdx, queueLen);
        mem.availIdx := BitAnd(mem.availIdx + 1, queueLen - 1);
      }
      return true;
    }

    method GetUsedBuf(obj: RingObject, ghost aSeen: nat) returns (ok: bool, len: nat)
      requires WellFormed(View(aSeen))
      modifies this`uRingLastSeen, obj
      ensures (View(aSeen), obj.Value(), len, ok) == GetUsed(old(View(aSeen)), old(obj.Value()))
    {
      MaskStep(uRingLastSeen, queueLen);
      var next := BitAnd(uRingLastSeen + 1, queueLen - 1);
      if next == mem.usedIdx {
        return false, 0;
      }
      obj.first := mem.usedRing[next].id;
      len := mem.usedRing[next].len;
      obj.cur := obj.first;
      uRingLastSeen := next;
      ok := true;
    }

    method GatherUsedBuf(obj: RingObject, ghost aSeen: nat) returns (got: Gathered)
      requires WellFormed(View(aSeen))
      modifies this`freeDescHead, mem.desc, obj`cur
      ensures (View(aSeen), got) == GatherUsed(old(View(aSeen)), old(obj.Value()))
      ensures obj.Value() == if got.Got? then got.obj else old(obj.Value())
    {
      if obj.cur >= queueLen {
        return End;
      }
      var idx := obj.cur;
      var d := mem.desc[idx];
      mem.desc[idx] := d.(next := freeDescHead);
      freeDescHead := idx;
      obj.cur := d.next;
      return Got(d.buf, Handle(obj.cur, obj.first));
    }
  }

  /** Sum of the lengths of a scatter list, as unbounded numbers. */
  function TotalLength(bufs: seq<Buf>): nat {
    if bufs == [] then 0 else TotalLength(bufs[..|bufs| - 1]) + bufs[|bufs| - 1].len
  }

  lemma WholeChain(v: Vq, h: History, c: nat)
    requires Inv(v, h) && c < |h.ids| && !Fetched(h, c)
    ensures Chained(v.n, v.desc, h.ids[c]) && Carries(v.desc, h.ids[c], h.payload[c]) && |v.desc| == v.n
    ensures h.ids[c] != [] && h.heads[c] == h.ids[c][0]
  {
    assert Whole(h, c);
    assert Rest(h.payload[c], |h.ids[c]|) == h.payload[c];
  }

  class Device {
    const mem: Memory
    const queueLen: nat
    var aRingLastSeen: nat

    ghost function View(freeHead: nat, uSeen: nat): Vq
      reads this, mem, mem.desc, mem.availRing, mem.usedRing
    {
      Vq(queueLen, mem.desc[..], freeHead, mem.availRing[..], mem.availIdx, mem.usedRing[..], mem.usedIdx,
         aRingLastSeen, uSeen)
    }

    /** `virtqueue_init_device`. */
    constructor (n: nat, mem: Memory)
      requires n > 0
      ensures this.mem == mem && queueLen == n && aRingLastSeen == n - 1
    {
      this.mem, queueLen, aRingLastSeen := mem, n, n - 1;
    }

    method GetAvailableBuf(obj: RingObject, ghost f: nat, ghost u: nat) returns (ok: bool)
      requires WellFormed(View(f, u))
      modifies this`aRingLastSeen, obj
      ensures (View(f, u), obj.Value(), ok) == GetAvailable(old(View(f, u)), old(obj.Value()))
    {
      MaskStep(aRingLastSeen, queueLen);
      var next := BitAnd(aRingLastSeen + 1, queueLen - 1);
      if next == mem.availIdx {
        return false;
      }
      obj.first := mem.availRing[next];
      obj.cur := obj.first;
      aRingLastSeen := next;
      return true;
    }

    method AddUsedBuf(obj: RingObject, len: nat, ghost f: nat, ghost u: nat) returns (ok: bool)
      requires WellFormed(View(f, u))
      modifies mem.usedRing, mem`usedIdx
      ensures ok && View(f, u) == AddUsed(old(View(f, u)), obj.Value(), len)
      ensures mem.usedRing[old(mem.usedIdx)] == Used(obj.first, len)
    {
      var cur := mem.usedIdx;
      mem.usedRing[cur] := Used(obj.first, len);
      MaskStep(cur, queueLen);
      mem.usedIdx := BitAnd(cur + 1, queueLen - 1);
      return true;
    }

    method GatherAvailableBuf(obj: RingObject, ghost f: nat, ghost u: nat) returns (got: Gathered)
      requires WellFormed(View(f, u))
      modifies obj`cur
      ensures got == GatherAvailable(View(f, u), old(obj.Value()))
      ensures obj.Value() == if got.Got? then got.obj else old(obj.Value())
    {
      var idx := obj.cur;
      if idx >= queueLen {
        return End;
      }
      obj.cur := mem.desc[idx].next;
      return Got(mem.desc[idx].buf, Handle(obj.cur, obj.first));
    }

    /** The 32-bit size of the scatter list that starts at `first`: the loop ends because the chain
        is acyclic, and the lengths are added modulo 2^32. */
    method SumLengths(first: nat, ghost chain: seq<nat>, ghost bufs: seq<Buf>) returns (size: nat)
      requires mem.desc.Length == queueLen && first == Head(chain, queueLen)
      requires Chained(queueLen, mem.desc[..], chain) && Carries(mem.desc[..], chain, bufs)
      ensures size == TotalLength(bufs) % LEN_SIZE
    {
      size := 0;
      var cur := first;
      ghost var i := 0;
      while cur < queueLen
        invariant i <= |chain| && cur == if i < |chain| then chain[i] else queueLen
        invariant size == TotalLength(bufs[..i]) % LEN_SIZE
        decreases |chain| - i
      {
        assert bufs[..i + 1][..i] == bufs[..i];
        assert mem.desc[cur] == mem.desc[..][chain[i]] == Desc(bufs[i], After(chain, i, queueLen));
        size := (size + mem.desc[cur].buf.len) % LEN_SIZE;
        cur := mem.desc[cur].next;
        i := i + 1;
      }
      assert bufs[..i] == bufs;
    }

    /** `virtqueue_scattered_available_size`: the total of what the driver chained, modulo 2^32. */
    method ScatteredAvailableSize(obj: RingObject, ghost h: History, ghost c: nat, ghost f: nat, ghost u: nat)
      returns (size: nat)
      requires Inv(View(f, u), h) && c < |h.ids| == |h.heads| == |h.payload|
      requires !Fetched(h, c) && obj.first == h.heads[c]
      ensures size == TotalLength(h.payload[c]) % LEN_SIZE
    {
      WholeChain(View(f, u), h, c);
      size := SumLengths(obj.first, h.ids[c], h.payload[c]);
    }
  }
}
