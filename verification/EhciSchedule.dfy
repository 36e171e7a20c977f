/**
 The periodic schedule of libusbdrivers/src/ehci/periodic.c as a value: a list of queue heads with
 their rates, and for every frame the one at which the controller starts.
 */
module EhciSchedule {

  import opened Arithmetic

  const FRAMES: nat := 1024

  /** The rates that libusbdrivers/src/ehci/hcd.c computes: powers of two up to 1024. */
  ghost predicate Rate(r: nat) {
    exists e: nat | e <= 10 :: r == Pow2(e)
  }

  datatype Speed = High | Full | Low

  /** `ilogb` of a positive integer. */
  function Log2(n: nat): (e: nat)
    requires n > 0
    ensures Pow2(e) <= n < 2 * Pow2(e)
  {
    if n == 1 then 0 else 1 + Log2(n / 2)
  }

  /** The polling rate of an endpoint, in frames; an interval at high speed counts eighths of a frame. */
  function Polled(speed: Speed, isochronous: bool, interval: nat): nat
    requires interval > 0
  {
    if speed == High then Pow2(interval - 1) / 8
    else if speed == Full && isochronous then Pow2(interval - 1)
    else Pow2(Log2(interval))
  }

  /** The rate is kept between 1 and 1024. */
  function Sane(r: nat): nat {
    if r < 1 then 1 else if r > 1024 then 1024 else r
  }

  lemma SanePower(e: nat)
    ensures Rate(Sane(Pow2(e))) && (e <= 10 ==> Sane(Pow2(e)) == Pow2(e)) && (e >= 10 ==> Sane(Pow2(e)) == 1024)
  {
    PowersUpToTen();
    if e > 10 {
      Pow2Grows(10, e);
    } else if e < 10 {
      Pow2Grows(e, 10);
    }
  }

  lemma EighthOfPower(e: nat)
    ensures e < 3 ==> Pow2(e) / 8 == 0
    ensures e >= 3 ==> Pow2(e) == 8 * Pow2(e - 3)
  {
    PowersUpToTen();
    assert e >= 3 ==> Pow2(e) == 2 * Pow2(e - 1) == 4 * Pow2(e - 2) == 8 * Pow2(e - 3);
  }

  /** Every rate that is computed is a power of two up to the number of frames: the exact period at high
      speed and for isochronous endpoints, as far as it is between 1 and 1024, and otherwise the
      largest power of two that is not above the interval. */
  lemma ComputedRate(speed: Speed, isochronous: bool, interval: nat)
    requires 0 < interval < 256
    ensures var r := Sane(Polled(speed, isochronous, interval));
            && Rate(r)
            && (speed == High ==>
                  if interval < 4 then r == 1 else if interval <= 14 then 8 * r == Pow2(interval - 1) else r == 1024)
            && (speed == Full && isochronous ==> r == if interval <= 11 then Pow2(interval - 1) else 1024)
            && (speed == Low || (speed == Full && !isochronous) ==> r <= interval < 2 * r)
  {
    if speed == High {
      EighthOfPower(interval - 1);
      SanePower(if interval < 4 then 0 else interval - 4);
    } else if speed == Full && isochronous {
      SanePower(interval - 1);
    } else {
      var e := Log2(interval);
      LogOfByte(interval);
      SanePower(e);
    }
  }

  lemma LogOfByte(n: nat)
    requires 0 < n < 256
    ensures Log2(n) <= 10
  {
    PowersUpToTen();
    if Log2(n) > 10 {
      Pow2Grows(10, Log2(n));
    }
  }

  lemma PowersUpToTen()
    ensures Pow2(0) == 1 && Pow2(1) == 2 && Pow2(2) == 4 && Pow2(10) == 1024
  {
    assert Pow2(10) == 2 * Pow2(9) == 4 * Pow2(8) == 8 * Pow2(7) == 16 * Pow2(6) == 32 * Pow2(5) == 64 * Pow2(4)
        == 128 * Pow2(3) == 256 * Pow2(2) == 512 * Pow2(1) == 1024 * Pow2(0);
  }

  predicate Divides(r: nat, n: nat)
    requires r > 0
  {
    n % r == 0
  }

  lemma {:induction false} Pow2Divides(a: nat, b: nat)
    requires a <= b
    ensures exists k: nat :: Pow2(b) == k * Pow2(a)
  {
    if a == b {
      assert Pow2(b) == 1 * Pow2(a);
    } else {
      Pow2Divides(a, b - 1);
      var k: nat :| Pow2(b - 1) == k * Pow2(a);
      assert Pow2(b) == (2 * k) * Pow2(a);
    }
  }

  lemma {:induction false} Pow2Grows(a: nat, b: nat)
    requires a < b
    ensures Pow2(a) < Pow2(b)
  {
    if a + 1 < b {
      Pow2Grows(a, b - 1);
    }
  }

  lemma MultipleDivides(r: nat, k: nat, s: nat, n: nat)
    requires r > 0 && s > 0 && s == k * r && n % s == 0
    ensures n % r == 0
  {
    var q := n / s;
    assert n == q * s;
    assert q * (k * r) == (q * k) * r;
    ModIs(n, r, q * k, 0);
  }

  /** Whatever a rate divides, a smaller rate divides. */
  lemma SmallerDivides(r: nat, s: nat, n: nat)
    requires Rate(r) && Rate(s) && r <= s && Divides(s, n)
    ensures Divides(r, n)
  {
    var a: nat :| a <= 10 && r == Pow2(a);
    var b: nat :| b <= 10 && s == Pow2(b);
    if b < a {
      Pow2Grows(b, a);
    }
    Pow2Divides(a, b);
    var k: nat :| Pow2(b) == k * Pow2(a);
    MultipleDivides(r, k, s, n);
  }

  /** A rate does not divide a smaller number but zero. */
  lemma LargerDividesNot(r: nat, n: nat)
    requires 0 < n < r
    ensures !Divides(r, n)
  {
    ModIs(n, r, 0, n);
  }

  /** A queue head, with its software link and the horizontal link that the controller follows. */
  class QueueHead {
    const rate: nat
    var next: QueueHead?
    var link: QueueHead?

    constructor (r: nat)
      ensures rate == r
    {
      rate := r;
    }
  }

  predicate Positive(list: seq<QueueHead>) {
    forall i | 0 <= i < |list| :: list[i].rate > 0
  }

  ghost predicate Entries(list: seq<QueueHead>) {
    && (forall i | 0 <= i < |list| :: Rate(list[i].rate))
    && (forall i, j | 0 <= i < j < |list| :: list[i] != list[j])
  }

  ghost predicate Sorted(list: seq<QueueHead>) {
    forall i, j | 0 <= i < j < |list| :: list[i].rate >= list[j].rate
  }

  /** The entries that are due in the frame before `n`. */
  function Due(list: seq<QueueHead>, n: nat): seq<QueueHead>
    requires Positive(list)
  {
    if list == [] then []
    else if Divides(list[0].rate, n) then [list[0]] + Due(list[1..], n)
    else Due(list[1..], n)
  }

  /** Where the first due entry is; the length of the list if none is. */
  function FirstDue(list: seq<QueueHead>, n: nat): (k: nat)
    requires Positive(list)
    ensures k <= |list|
    ensures k < |list| ==> Divides(list[k].rate, n)
    ensures forall i | 0 <= i < k :: !Divides(list[i].rate, n)
  {
    if list == [] || Divides(list[0].rate, n) then 0 else 1 + FirstDue(list[1..], n)
  }

  lemma {:induction false} AllDue(list: seq<QueueHead>, n: nat)
    requires Positive(list) && forall i | 0 <= i < |list| :: Divides(list[i].rate, n)
    ensures Due(list, n) == list
  {
    if list != [] {
      AllDue(list[1..], n);
    }
  }

  /** In a sorted list everything from the first due entry on is due, and nothing before it. */
  lemma {:induction false} DueIsSuffix(list: seq<QueueHead>, n: nat)
    requires Entries(list) && Sorted(list)
    ensures Positive(list) && Due(list, n) == list[FirstDue(list, n)..]
  {
    RatesPositive(list);
    if list != [] {
      if Divides(list[0].rate, n) {
        forall i | 0 <= i < |list|
          ensures Divides(list[i].rate, n)
        {
          SmallerDivides(list[i].rate, list[0].rate, n);
        }
        AllDue(list, n);
      } else {
        DueIsSuffix(list[1..], n);
      }
    }
  }

  lemma RatesPositive(list: seq<QueueHead>)
    requires Entries(list)
    ensures Positive(list)
  {
  }

  // ---- Adding ----

  /** Behind the head and everything that is polled no more often. */
  function Place(list: seq<QueueHead>, rate: nat, k: nat): (p: nat)
    requires k < |list|
    ensures k < p <= |list|
    ensures forall i | k < i < p :: list[i].rate >= rate
    ensures p < |list| ==> list[p].rate < rate
    decreases |list| - k
  {
    if k + 1 < |list| && list[k + 1].rate >= rate then Place(list, rate, k + 1) else k + 1
  }

  function Added(list: seq<QueueHead>, q: QueueHead): seq<QueueHead> {
    if list == [] then [q]
    else
      var p := Place(list, q.rate, 0);
      list[..p] + [q] + list[p..]
  }

  function Removed(list: seq<QueueHead>, k: nat): seq<QueueHead>
    requires k < |list|
  {
    list[..k] + list[k + 1..]
  }

  /** What the table holds for the frame before `n`. */
  function First(list: seq<QueueHead>, n: nat): QueueHead?
    requires Positive(list)
  {
    var k := FirstDue(list, n);
    if k < |list| then list[k] else null
  }

  function After(list: seq<QueueHead>, k: nat): QueueHead? {
    if k + 1 < |list| then list[k + 1] else null
  }

  lemma FirstDueIs(list: seq<QueueHead>, n: nat, k: nat)
    requires Positive(list)
    requires k <= |list| && (k < |list| ==> Divides(list[k].rate, n))
        && forall i | 0 <= i < k :: !Divides(list[i].rate, n)
    ensures FirstDue(list, n) == k
  {
    hide FirstDue;
    var f := FirstDue(list, n);
  }

  lemma {:induction false} DueMembers(list: seq<QueueHead>, n: nat)
    requires Positive(list)
    ensures forall q | q in Due(list, n) :: q in list && q.rate > 0 && Divides(q.rate, n)
    ensures forall i | 0 <= i < |list| && Divides(list[i].rate, n) :: list[i] in Due(list, n)
  {
    if list != [] {
      DueMembers(list[1..], n);
      assert forall i | 0 < i < |list| :: list[i] == list[1..][i - 1];
    }
  }

  lemma NotInRest(list: seq<QueueHead>, k: nat, i: nat)
    requires Entries(list) && i < k <= |list|
    ensures list[i] !in list[k..]
  {
    hide Rate;
  }

  /** If what is due is the rest of the list from a position on, the first due member is there. */
  lemma SuffixIsFirst(list: seq<QueueHead>, n: nat, k: nat)
    requires Positive(list) && Entries(list) && k <= |list| && Due(list, n) == list[k..]
    ensures FirstDue(list, n) == k
  {
    DueMembers(list, n);
    hide Rate, Due, FirstDue, Divides;
    if k < |list| {
      assert list[k..][0] == list[k];
    }
    forall i | 0 <= i < k
      ensures !Divides(list[i].rate, n)
    {
      NotInRest(list, k, i);
    }
    FirstDueIs(list, n, k);
  }

  ghost predicate DueFrom(list: seq<QueueHead>, n: nat, k: nat)
    requires Positive(list)
  {
    k <= |list| && Due(list, n) == list[k..]
  }

  ghost predicate DueSuffix(list: seq<QueueHead>, n: nat)
    requires Positive(list)
  {
    exists k: nat :: DueFrom(list, n, k)
  }

  /** If in every frame what is due is the rest of the list from a position on, the list is sorted. */
  lemma SuffixesAreSorted(list: seq<QueueHead>)
    requires Positive(list) && Entries(list)
    requires forall n | 0 < n <= FRAMES :: DueSuffix(list, n)
    ensures Sorted(list)
  {
    forall i, j | 0 <= i < j < |list|
      ensures list[i].rate >= list[j].rate
    {
      var n := list[i].rate;
      RateInRange(n);
      assert DueSuffix(list, n);
      var k: nat :| DueFrom(list, n, k);
      DueMembers(list, n);
      SuffixIsFirst(list, n, k);
      hide Rate, Due, FirstDue;
      assert Divides(n, n) by {
        ModIs(n, n, 1, 0);
      }
      assert k <= i && list[k..][j - k] == list[j];
      assert Divides(list[j].rate, n);
      if n < list[j].rate {
        LargerDividesNot(list[j].rate, n);
      }
    }
  }

  lemma RateInRange(r: nat)
    requires Rate(r)
    ensures 0 < r <= FRAMES
  {
    PowersUpToTen();
    var e: nat :| e <= 10 && r == Pow2(e);
    if e < 10 {
      Pow2Grows(e, 10);
    }
  }

  /** Where the members of the list are once another one has been added. */
  lemma AddedAt(list: seq<QueueHead>, q: QueueHead) returns (p: nat)
    ensures p <= |list| && |Added(list, q)| == |list| + 1
    ensures forall i | 0 <= i < p :: Added(list, q)[i] == list[i]
    ensures Added(list, q)[p] == q
    ensures forall i | p <= i < |list| :: Added(list, q)[i + 1] == list[i]
    ensures list != [] ==> p == Place(list, q.rate, 0)
  {
    p := if list == [] then 0 else Place(list, q.rate, 0);
  }

  lemma AddedRates(list: seq<QueueHead>, q: QueueHead)
    requires Entries(list) && q !in list && Rate(q.rate)
    ensures Positive(list) && Positive(Added(list, q)) && Entries(Added(list, q))
  {
    RatesPositive(list);
    var p := AddedAt(list, q);
    hide Rate, Added, Place;
    RateIsPositive(q.rate);
    var all := Added(list, q);
    assert forall i | p < i < |all| :: all[i] == list[i - 1];
    forall i, j | 0 <= i < j < |all|
      ensures all[i] != all[j]
    {
      if i != p && j != p {
        assert all[i] == list[if i < p then i else i - 1] && all[j] == list[if j < p then j else j - 1];
      }
    }
  }

  lemma AddedIsSorted(list: seq<QueueHead>, q: QueueHead)
    requires Entries(list) && Sorted(list) && q !in list && Rate(q.rate)
    requires list == [] || q.rate <= list[0].rate
    ensures Entries(Added(list, q)) && Sorted(Added(list, q))
  {
    AddedRates(list, q);
    var p := AddedAt(list, q);
    assert p > 0 ==> list[p - 1].rate >= q.rate;
    assert p < |list| ==> list[p].rate <= q.rate;
    hide Rate, Added, Place, Entries;
    var all := Added(list, q);
    assert forall i | p < i < |all| :: all[i] == list[i - 1];
  }

  lemma RateIsPositive(r: nat)
    requires Rate(r)
    ensures r > 0
  {
  }

  /** What the loop over the table makes of the entry of a frame. */
  function Updated(first: QueueHead?, q: QueueHead, n: nat): QueueHead?
    requires q.rate > 0
  {
    if Divides(q.rate, n) && (first == null || first.rate < q.rate) then q else first
  }

  lemma AddedFirst(list: seq<QueueHead>, q: QueueHead, n: nat)
    requires Entries(list) && Sorted(list) && q !in list && Rate(q.rate)
    requires list == [] || q.rate <= list[0].rate
    ensures Positive(list) && Positive(Added(list, q)) && q.rate > 0
    ensures First(Added(list, q), n) == Updated(First(list, n), q, n)
  {
    AddedRates(list, q);
    var p := AddedAt(list, q);
    RateIsPositive(q.rate);
    var all, f := Added(list, q), FirstDue(list, n);
    assert p > 0 ==> list[p - 1].rate >= q.rate;
    assert f < p ==> list[f].rate >= q.rate;
    assert p <= f < |list| ==> list[f].rate < q.rate;
    hide Rate, Added, FirstDue, Place, Divides, Entries, Sorted;
    if f < p {
      assert all[f] == list[f] && forall i | 0 <= i < f :: all[i] == list[i];
      FirstDueIs(all, n, f);
    } else if Divides(q.rate, n) {
      assert all[p] == q && forall i | 0 <= i < p :: all[i] == list[i];
      FirstDueIs(all, n, p);
    } else {
      forall i | 0 <= i < f + 1
        ensures !Divides(all[i].rate, n)
      {
        assert i > p ==> all[i] == list[i - 1];
      }
      assert f < |list| ==> all[f + 1] == list[f];
      FirstDueIs(all, n, f + 1);
    }
  }

  lemma RemovedRates(list: seq<QueueHead>, k: nat)
    requires Entries(list) && k < |list|
    ensures Entries(Removed(list, k)) && Positive(Removed(list, k)) && Positive(list)
    ensures Sorted(list) ==> Sorted(Removed(list, k))
    ensures forall i | 0 <= i < |list| - 1 :: Removed(list, k)[i] == if i < k then list[i] else list[i + 1]
  {
    RatesPositive(list);
    hide Rate;
    var rest := Removed(list, k);
    forall i, j | 0 <= i < j < |rest|
      ensures rest[i] != rest[j] && (Sorted(list) ==> rest[i].rate >= rest[j].rate)
    {
      var a := if i < k then i else i + 1;
      var b := if j < k then j else j + 1;
      assert rest[i] == list[a] && rest[j] == list[b];
    }
  }

  lemma RemovedFirst(list: seq<QueueHead>, k: nat, n: nat)
    requires Entries(list) && Sorted(list) && k < |list|
    ensures Positive(list) && Positive(Removed(list, k))
    ensures First(Removed(list, k), n) == if First(list, n) == list[k] then After(list, k) else First(list, n)
  {
    RemovedRates(list, k);
    var rest, f := Removed(list, k), FirstDue(list, n);
    if f == k && k + 1 < |list| {
      SmallerDivides(list[k + 1].rate, list[k].rate, n);
    }
    hide Rate, Removed, FirstDue, Divides;
    if f < k {
      FirstDueIs(rest, n, f);
    } else if f == k {
      FirstDueIs(rest, n, k);
    } else {
      forall i | 0 <= i < f - 1
        ensures !Divides(rest[i].rate, n)
      {
        assert rest[i] == list[if i < k then i else i + 1];
      }
      assert f < |list| ==> rest[f - 1] == list[f];
      FirstDueIs(rest, n, f - 1);
    }
  }

  /** A newcomer that is polled more seldom than the head, which the list order cannot take: it is
      reached with the head where the head comes around first, although it is not due there. */
  lemma MisplacedIsNotDue(list: seq<QueueHead>, q: QueueHead)
    requires Entries(list) && q !in list && Rate(q.rate) && list != [] && q.rate > list[0].rate
    ensures Positive(list) && Positive(Added(list, q)) && q.rate > 0
    ensures var n := list[0].rate;
            && 0 < n < FRAMES && First(list, n) == list[0] && Updated(First(list, n), q, n) == list[0]
            && q in Added(list, q) && q !in Due(Added(list, q), n)
  {
    var n := list[0].rate;
    AddedRates(list, q);
    RateIsPositive(q.rate);
    RateIsSmall(q.rate);
    ModIs(n, n, 1, 0);
    FirstDueIs(list, n, 0);
    LargerDividesNot(q.rate, n);
    var p := AddedAt(list, q);
    assert Added(list, q)[p] == q;
    DueDivides(Added(list, q), n);
  }

  lemma RateIsSmall(r: nat)
    requires Rate(r)
    ensures r <= FRAMES
  {
    var e: nat :| e <= 10 && r == Pow2(e);
    PowersUpToTen();
    if e < 10 {
      Pow2Grows(e, 10);
    }
  }

  lemma {:induction false} DueDivides(list: seq<QueueHead>, n: nat)
    requires Positive(list)
    ensures forall e | e in Due(list, n) :: e in list && Divides(e.rate, n)
  {
    if list != [] {
      DueDivides(list[1..], n);
    }
  }
}
