/**
 libusbdrivers/src/ehci/periodic.c: a linked list of queue heads that the controller follows, and the
 table of frames that says where it starts.
 */
module Ehci {

  import opened Arithmetic
  import opened EhciSchedule

  ghost function Members(list: seq<QueueHead>): set<QueueHead> {
    set q | q in list
  }

  /** The list as the links have it: both links lead to the next member. */
  ghost predicate Linked(list: seq<QueueHead>)
    reads Members(list)`next, Members(list)`link
  {
    forall k | 0 <= k < |list| :: list[k].next == After(list, k) && list[k].link == After(list, k)
  }

  /** What the controller visits when it follows the horizontal links from a queue head, for at most
      `steps` queue heads. */
  ghost function Visited(q: QueueHead?, steps: nat, all: set<QueueHead>): seq<QueueHead>
    reads all`link
  {
    if q == null || steps == 0 || q !in all then [] else [q] + Visited(q.link, steps - 1, all)
  }

  function At(list: seq<QueueHead>, k: nat): QueueHead? {
    if k < |list| then list[k] else null
  }

  /** Following the links from a member visits the rest of the list, and then stops. */
  lemma {:induction false} VisitsRest(list: seq<QueueHead>, k: nat, steps: nat, all: set<QueueHead>)
    requires Linked(list) && k <= |list| && steps >= |list| - k && forall q | q in list :: q in all
    ensures Visited(At(list, k), steps, all) == list[k..]
    decreases |list| - k
  {
    if k < |list| {
      VisitsRest(list, k + 1, steps - 1, all);
      assert list[k] in list && list[k].link == At(list, k + 1);
    }
  }

  /** Already there, the first one, or polled at least as often as the head of the list. */
  ghost predicate Fits(q: QueueHead, list: seq<QueueHead>) {
    q in list || list == [] || q.rate <= list[0].rate
  }

  class Host {
    /** `intn_list` */
    var head: QueueHead?
    const flist: array<QueueHead?>
    const shadow: array<QueueHead?>
    ghost var list: seq<QueueHead>

    /** A host with an empty frame list. */
    constructor ()
      ensures Valid() && Good() && list == [] && fresh(flist) && fresh(shadow)
    {
      head, list := null, [];
      flist := new QueueHead?[FRAMES](_ => null);
      shadow := new QueueHead?[FRAMES](_ => null);
    }

    ghost predicate Valid()
      reads this, flist, shadow, Members(list)`next, Members(list)`link
    {
      && flist.Length == shadow.Length == FRAMES && flist != shadow
      && head == At(list, 0) && Entries(list) && Linked(list)
      && forall i | 0 <= i < FRAMES :: flist[i] == shadow[i]
    }

    /** Sorted, and every frame starts at the first member that is due. */
    ghost predicate Good()
      requires Entries(list)
      reads this, shadow
    {
      RatesPositive(list);
      Sorted(list) && forall i | 0 <= i < FRAMES && i < shadow.Length :: shadow[i] == First(list, i + 1)
    }

    /** In a frame the controller visits exactly what is due, in the order of the list, and stops. */
    ghost predicate FrameRight(i: nat, steps: nat)
      requires Valid() && i < FRAMES
      reads this, flist, shadow, Members(list)`next, Members(list)`link
    {
      RatesPositive(list);
      steps >= |list| ==> Visited(flist[i], steps, Members(list)) == Due(list, i + 1)
    }

    ghost predicate Right()
      requires Valid()
      reads this, flist, shadow, Members(list)`next, Members(list)`link
    {
      forall i: nat, steps: nat | i < FRAMES :: FrameRight(i, steps)
    }

    lemma GoodIsRight()
      requires Valid() && Good()
      ensures Right()
    {
      forall i: nat, steps: nat | i < FRAMES
        ensures FrameRight(i, steps)
      {
        if steps >= |list| {
          DueIsSuffix(list, i + 1);
          VisitsRest(list, FirstDue(list, i + 1), steps, Members(list));
        }
      }
    }

    /** No frame starts at a queue head that is not on the list. */
    ghost predicate Listed()
      reads this, shadow
    {
      forall i | 0 <= i < FRAMES && i < shadow.Length :: shadow[i] == null || shadow[i] in list
    }

    /** Where a frame starts, if it is visited rightly. */
    lemma RightFrame(i: nat)
      requires Valid() && Right() && Listed() && i < FRAMES
      ensures Positive(list) && shadow[i] == First(list, i + 1) && DueSuffix(list, i + 1)
    {
      RatesPositive(list);
      var k := if shadow[i] == null then |list| else StartOf(shadow[i]);
      assert shadow[i] == At(list, k);
      assert FrameRight(i, |list|);
      VisitsRest(list, k, |list|, Members(list));
      assert DueFrom(list, i + 1, k);
      SuffixIsFirst(list, i + 1, k);
    }

    ghost function StartOf(q: QueueHead): (k: nat)
      requires q in list
      reads this
      ensures k < |list| && list[k] == q
    {
      var k :| 0 <= k < |list| && list[k] == q;
      k
    }

    /** Only a sorted list with every frame at its first due member is right: the two are the same. */
    lemma RightIsGood()
      requires Valid() && Right() && Listed()
      ensures Good()
    {
      RatesPositive(list);
      hide Right, First, Linked, Listed, DueSuffix, Positive, Entries;
      forall i | 0 <= i < FRAMES
        ensures shadow[i] == First(list, i + 1)
      {
        RightFrame(i);
      }
      forall n | 0 < n <= FRAMES
        ensures DueSuffix(list, n)
      {
        RightFrame(n - 1);
      }
      SuffixesAreSorted(list);
    }

    /** `ehci_add_qhn_periodic` */
    method Add(q: QueueHead)
      requires Valid() && Rate(q.rate)
      modifies this, flist, shadow, q`next, q`link, Members(list)`next, Members(list)`link
      ensures Valid()
      ensures q in old(list) ==> list == old(list) && flist[..] == old(flist[..])
      ensures q !in old(list) ==> list == Added(old(list), q)
      ensures q !in old(list)
          ==> q.rate > 0 && forall i: nat | i < FRAMES :: shadow[i] == Updated(old(shadow[i]), q, i + 1)
      ensures q in old(list)
          ==> forall k | 0 <= k < |list| :: list[k].next == old(list[k].next) && list[k].link == old(list[k].link)
      ensures old(Good()) && Fits(q, old(list)) ==> Good()
      ensures old(Good()) ==> (Right() <==> Fits(q, old(list)))
      ensures old(Right() && Listed()) ==> (Right() <==> Fits(q, old(list)))
    {
      if Right() && Listed() {
        RightIsGood();
      }
      if Good() {
        GoodIsRight();
      }
      hide Linked, Rate, Added, First, Updated, Right, Listed, Good;
      var found := IsScheduled(q);
      if !found {
        AddNew(q);
      }
    }

    /** The part of `ehci_add_qhn_periodic` for a queue head that is not on the list. */
    method AddNew(q: QueueHead)
      requires Valid() && Rate(q.rate) && q !in list
      modifies this, flist, shadow, q`next, q`link, Members(list)`next, Members(list)`link
      ensures Valid() && list == Added(old(list), q)
      ensures q.rate > 0 && forall i: nat | i < FRAMES :: shadow[i] == Updated(old(shadow[i]), q, i + 1)
      ensures old(Good()) && Fits(q, old(list)) ==> Good()
      ensures old(Good()) ==> (Right() <==> Fits(q, old(list)))
    {
      hide Linked, Rate, Added, First, Updated, Right;
      ghost var before, table := list, shadow[..];
      RateIsPositive(q.rate);
      AddedRates(before, q);
      LinkIn(q);
      UpdateTable(q);
      if old(Good()) {
        AddOutcome(q, before, table);
      }
    }

    /** The part of `ehci_add_qhn_periodic` that looks for the queue head in the list. */
    method IsScheduled(q: QueueHead) returns (found: bool)
      requires Valid()
      ensures found <==> q in list
    {
      ghost var k := 0;
      var cur := head;
      while cur != null
        invariant k <= |list| && cur == At(list, k) && q !in list[..k]
        decreases |list| - k
      {
        if cur == q {
          return true;
        }
        assert list[..k + 1] == list[..k] + [list[k]];
        cur := cur.next;
        k := k + 1;
      }
      assert list[..k] == list;
      return false;
    }

    /** What a good schedule becomes. */
    lemma AddOutcome(q: QueueHead, before: seq<QueueHead>, table: seq<QueueHead?>)
      requires Valid() && Rate(q.rate) && q !in before && Entries(before) && Sorted(before) && Positive(before)
          && q.rate > 0
      requires list == Added(before, q) && |table| == FRAMES
      requires forall i: nat | i < FRAMES ::
          table[i] == First(before, i + 1)
          && shadow[i] == Updated(table[i], q, i + 1)
      ensures Fits(q, before) ==> Good()
      ensures Right() <==> Fits(q, before)
    {
      hide Added, First, Due, Updated, Linked, Divides, Rate, Entries, Right;
      if Fits(q, before) {
        AddedIsSorted(before, q);
        RatesPositive(list);
        forall i: nat | i < FRAMES
          ensures shadow[i] == First(list, i + 1)
        {
          AddedFirst(before, q, i + 1);
        }
        GoodIsRight();
      } else {
        MisplacedIsNotDue(before, q);
        assert table[before[0].rate - 1] == First(before, before[0].rate);
        WrongFrame(q, before);
      }
    }

    /** The new queue head is visited where it is not due. */
    lemma WrongFrame(q: QueueHead, before: seq<QueueHead>)
      requires Valid() && before != [] && list == Added(before, q) && q in list && Positive(list)
      requires 0 < before[0].rate < FRAMES && shadow[before[0].rate - 1] == before[0]
      requires q !in Due(list, before[0].rate)
      ensures !Right()
    {
      var i := before[0].rate - 1;
      var p := AddedAt(before, q);
      VisitsRest(list, 0, |list|, Members(list));
      assert list[0..] == list && At(list, 0) == before[0];
      assert !FrameRight(i, |list|);
    }

    /** The loop of `ehci_add_qhn_periodic` that looks for the last one polled no more often. */
    method FindPlace(rate: nat) returns (cur: QueueHead, ghost k: nat)
      requires Valid() && list != []
      ensures k < |list| && cur == list[k] && Place(list, rate, 0) == k + 1
    {
      hide Rate, Entries;
      cur, k := head, 0;
      while cur.next != null && cur.next.rate >= rate
        invariant k < |list| && cur == list[k] && Place(list, rate, 0) == Place(list, rate, k)
        decreases |list| - k
      {
        cur := cur.next;
        k := k + 1;
      }
    }

    /** The part of `ehci_add_qhn_periodic` that inserts into the list. */
    method LinkIn(q: QueueHead)
      requires Valid() && q !in list && Entries(Added(list, q))
      modifies this`head, this`list, q`next, q`link, Members(list)`next, Members(list)`link
      ensures Valid() && list == Added(old(list), q)
    {
      hide Rate, Entries;
      ghost var before := list;
      var cur := head;
      q.link := null;
      if cur == null {
        head := q;
        q.next := null;
        list := [q];
      } else {
        ghost var k;
        cur, k := FindPlace(q.rate);
        q.next := cur.next;
        cur.next := q;
        cur.link := q;
        if q.next != null {
          q.link := q.next;
        }
        list := Added(before, q);
        AllDistinct(before);
        LinkedIn(before, q, k + 1);
      }
    }
  
    /** The part of `ehci_add_qhn_periodic` that goes over the table, from multiple to multiple. */
    method UpdateTable(q: QueueHead)
      requires Valid() && q.rate > 0
      modifies flist, shadow
      ensures Valid()
      ensures forall i: nat | i < FRAMES :: shadow[i] == Updated(old(shadow[i]), q, i + 1)
    {
      var i := q.rate - 1;
      Divided(q.rate, 1);
      while i < FRAMES
        invariant i + 1 >= q.rate && Divides(q.rate, i + 1)
        invariant forall j: nat | j < FRAMES :: flist[j] == shadow[j]
        invariant forall j: nat | j < FRAMES :: shadow[j] == if j < i then Updated(old(shadow[j]), q, j + 1)
            else old(shadow[j])
      {
        var cur := shadow[i];
        if cur == null || cur.rate < q.rate {
          shadow[i] := q;
          flist[i] := q;
        }
        NextMultiple(q.rate, i + 1);
        i := i + q.rate;
      }
    }

    /** `ehci_del_qhn_periodic` */
    method Del(q: QueueHead) returns (ghost n: nat)
      requires Valid() && q in list
      modifies this`head, this`list, flist, shadow, Members(list)`next, Members(list)`link
      ensures Valid()
      ensures n < |old(list)| && old(list)[n] == q && list == Removed(old(list), n)
      ensures q.rate > 0 && forall i: nat | i < FRAMES :: shadow[i] == Redirected(old(shadow[i]), q, old(q.next), i + 1)
      ensures old(Good()) ==> Good() && Right()
    {
      RatesPositive(list);
      ghost var before, next := list, q.next;
      n := LinkOut(q);
      UpdateTableFor(q);
      if old(Good()) {
        assert next == After(before, n);
        RemovedRates(before, n);
        RatesPositive(list);
        hide Removed, First, Linked, Rate, Entries;
        forall i: nat | i < FRAMES
          ensures shadow[i] == First(list, i + 1)
        {
          RemovedFirst(before, n, i + 1);
          FirstDivides(before, i + 1);
        }
        GoodIsRight();
      }
    }

    /** The part of `ehci_del_qhn_periodic` that goes over the table. */
    method UpdateTableFor(q: QueueHead)
      requires Valid() && q.rate > 0 && q.link == q.next
      modifies flist, shadow
      ensures Valid()
      ensures forall i: nat | i < FRAMES :: shadow[i] == Redirected(old(shadow[i]), q, q.next, i + 1)
    {
      var i := q.rate - 1;
      Divided(q.rate, 1);
      while i < FRAMES
        invariant i + 1 >= q.rate && Divides(q.rate, i + 1)
        invariant forall j: nat | j < FRAMES :: flist[j] == shadow[j]
        invariant forall j: nat | j < FRAMES :: shadow[j] == if j < i
            then Redirected(old(shadow[j]), q, q.next, j + 1) else old(shadow[j])
      {
        if shadow[i] == q {
          shadow[i] := q.next;
          flist[i] := q.link;
        }
        NextMultiple(q.rate, i + 1);
        i := i + q.rate;
      }
    }

    /** The part of `ehci_del_qhn_periodic` that takes the queue head out of the list. */
    method LinkOut(q: QueueHead) returns (ghost n: nat)
      requires Valid() && q in list
      modifies this`head, this`list, Members(list)`next, Members(list)`link
      ensures Valid()
      ensures n < |old(list)| && old(list)[n] == q && list == Removed(old(list), n)
      ensures q.next == old(q.next) && q.link == q.next
    {
      hide Entries, Rate, Removed, Linked, After, At;
      ghost var before := list;
      n := Unlink(q);
      RemovedRates(before, n);
      list := Removed(before, n);
      LinkedOut(before, n);
      RemovedHead(before, n);
    }

    /** Makes whatever leads to the queue head lead to the one behind it. */
    method Unlink(q: QueueHead) returns (ghost n: nat)
      requires Linked(list) && Entries(list) && head == At(list, 0) && q in list
      modifies this`head, Members(list)`next, Members(list)`link
      ensures n < |list| && list[n] == q && q.next == old(q.next) && q.link == q.next
      ensures head == if n == 0 then After(list, 0) else list[0]
      ensures n > 0 ==> list[n - 1].next == After(list, n) && list[n - 1].link == After(list, n)
      ensures forall i | 0 <= i < |list| && i != n - 1 ::
          list[i].next == After(list, i)
          && list[i].link == After(list, i)
    {
      AllDistinct(list);
      n :| 0 <= n < |list| && list[n] == q;
      hide Entries, Rate;
      var cur := head;
      if cur == q {
        head := q.next;
      } else {
        ghost var k := 0;
        while cur.next != null && cur.next != q
          invariant 0 <= k < n && cur == list[k]
          decreases |list| - k
        {
          cur := cur.next;
          k := k + 1;
        }
        assert k == n - 1;
        cur.next := q.next;
        if q.next != null {
          cur.link := q.next;
        } else {
          cur.link := null;
        }
      }
    }
  }

  lemma RemovedHead(list: seq<QueueHead>, n: nat)
    requires n < |list|
    ensures At(Removed(list, n), 0) == if n == 0 then After(list, 0) else list[0]
  {
  }

  /** What deleting makes of the entry of a frame. */
  function Redirected(first: QueueHead?, q: QueueHead, next: QueueHead?, n: nat): QueueHead?
    requires q.rate > 0
  {
    if first == q && Divides(q.rate, n) then next else first
  }

  lemma FirstDivides(list: seq<QueueHead>, n: nat)
    requires Positive(list)
    ensures First(list, n) != null ==> First(list, n).rate > 0 && Divides(First(list, n).rate, n)
  {
  }

  lemma LinkedIn(list: seq<QueueHead>, q: QueueHead, p: nat)
    requires list != [] && p == Place(list, q.rate, 0)
    requires forall i | 0 <= i < |list| && i != p - 1 ::
        list[i].next == After(list, i)
        && list[i].link == After(list, i)
    requires list[p - 1].next == q && list[p - 1].link == q
    requires q.next == After(list, p - 1) && q.link == q.next
    ensures Linked(Added(list, q))
  {
    var at := AddedAt(list, q);
    var all := Added(list, q);
    hide Added, Place;
    forall i | 0 <= i < |all|
      ensures all[i].next == After(all, i) && all[i].link == After(all, i)
    {
      if i > p {
        assert all[i] == list[i - 1];
      }
      if i >= p && i + 1 < |all| {
        assert all[i + 1] == list[i];
      }
    }
  }

  lemma LinkedOut(list: seq<QueueHead>, n: nat)
    requires n < |list|
    requires forall i | 0 <= i < |list| && i != n - 1 ::
        list[i].next == After(list, i)
        && list[i].link == After(list, i)
    requires n > 0 ==> list[n - 1].next == After(list, n) && list[n - 1].link == After(list, n)
    ensures Linked(Removed(list, n))
  {
    var rest := Removed(list, n);
    assert forall i | 0 <= i < n :: rest[i] == list[i];
    assert forall i | n <= i < |rest| :: rest[i] == list[i + 1];
    hide Removed;
    forall i | 0 <= i < |rest|
      ensures rest[i].next == After(rest, i) && rest[i].link == After(rest, i)
    {
    }
  }

  lemma AllDistinct(list: seq<QueueHead>)
    requires Entries(list)
    ensures forall i, j | 0 <= i < j < |list| :: list[i] != list[j]
  {
  }

  lemma Divided(r: nat, k: nat)
    requires r > 0
    ensures Divides(r, k * r)
    ensures forall n: nat | 0 < n < r :: !Divides(r, n)
  {
    ModIs(k * r, r, k, 0);
    forall n: nat | 0 < n < r
      ensures !Divides(r, n)
    {
      LargerDividesNot(r, n);
    }
  }

  /** The next multiple, and no other before it. */
  lemma NextMultiple(r: nat, m: nat)
    requires r > 0 && Divides(r, m)
    ensures Divides(r, m + r)
    ensures forall n: nat | m < n < m + r :: !Divides(r, n)
  {
    var k := m / r;
    assert m == k * r;
    assert (k + 1) * r == m + r;
    ModIs(m + r, r, k + 1, 0);
    forall n: nat | m < n < m + r
      ensures !Divides(r, n)
    {
      WindowSlots(m, n, r);
    }
  }

  /** A right schedule that adding makes wrong: a queue head polled in every frame, and then one that is polled
      in every second frame. */
  method SlowerAfterFaster() returns (host: Host)
    ensures host.Valid() && !host.Right()
  {
    host := new Host();
    var fast := new QueueHead(1);
    var slow := new QueueHead(2);
    PowersUpToTen();
    assert Rate(1) && Rate(2);
    host.Add(fast);
    assert host.list == [fast];
    host.Add(slow);
  }
}
