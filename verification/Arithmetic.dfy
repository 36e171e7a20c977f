/** Facts about remainders and power-of-two masks that the ring and hash code relies on. */
module Arithmetic {

  function Pow2(n: nat): (p: nat)
    ensures p > 0
  {
    if n == 0 then 1 else 2 * Pow2(n - 1)
  }

  /** The C operator `&` on unsigned numbers. */
  function BitAnd(a: nat, b: nat): (r: nat)
    ensures r <= a && r <= b
  {
    if a == 0 || b == 0 then 0
    else 2 * BitAnd(a / 2, b / 2) + (if a % 2 == 1 && b % 2 == 1 then 1 else 0)
  }

  lemma Multiples(d: int, n: int)
    requires n >= 0
    ensures d >= 1 ==> d * n >= n
    ensures d <= -1 ==> d * n <= -n
  {
    assert d * n == (d - 1) * n + n == (d + 1) * n - n;
  }

  lemma ModIs(k: nat, n: nat, q: int, r: nat)
    requires r < n && k == q * n + r
    ensures k % n == r
  {
    assert k == (k / n) * n + k % n;
    assert (k / n - q) * n == r - k % n;
    Multiples(k / n - q, n);
  }

  /** One step of a wrapping index. */
  lemma NextMod(k: nat, n: nat)
    requires n > 0
    ensures (k + 1) % n == if k % n + 1 == n then 0 else k % n + 1
  {
    var q, r := k / n, k % n;
    assert k == q * n + r;
    if r + 1 < n {
      ModIs(k + 1, n, q, r + 1);
    } else {
      assert k + 1 == (q + 1) * n;
      ModIs(k + 1, n, q + 1, 0);
    }
  }

  /** Two numbers less than `n` apart share a ring slot only if they are equal. */
  lemma WindowSlots(i: nat, j: nat, n: nat)
    requires i < j < i + n
    ensures i % n != j % n
  {
    assert j == (j / n) * n + j % n && i == (i / n) * n + i % n;
    assert (j / n - i / n) * n == (j - i) - (j % n - i % n);
    Multiples(j / n - i / n, n);
  }

  lemma HalveMod(h: nat, p: nat)
    requires p > 0
    ensures h % (2 * p) == 2 * ((h / 2) % p) + h % 2
  {
    var q, r := (h / 2) / p, (h / 2) % p;
    assert h / 2 == q * p + r;
    assert h == q * (2 * p) + (2 * r + h % 2) by {
      assert 2 * (q * p) == q * (2 * p);
    }
    ModIs(h, 2 * p, q, 2 * r + h % 2);
  }

  /** Masking with 2^order - 1 is the remainder by 2^order. */
  lemma {:induction false} MaskIsRemainder(h: nat, order: nat)
    ensures BitAnd(h, Pow2(order) - 1) == h % Pow2(order)
  {
    if order > 0 {
      var p := Pow2(order - 1);
      MaskIsRemainder(h / 2, order - 1);
      HalveMod(h, p);
      assert (2 * p - 1) / 2 == p - 1 && (2 * p - 1) % 2 == 1;
      assert h != 0 ==> BitAnd(h, 2 * p - 1) == 2 * BitAnd(h / 2, p - 1) + h % 2;
    }
  }

  // ---- Indices of a ring ----

  /** The slot after `k`. */
  function NextSlot(k: nat, n: nat): (r: nat)
    requires k < n
    ensures r < n
  {
    if k + 1 == n then 0 else k + 1
  }

  /** The slot of the k-th entry. */
  function Position(k: nat, n: nat): (r: nat)
    requires n > 0
    ensures r < n
  {
    if k == 0 then 0 else NextSlot(Position(k - 1, n), n)
  }

  lemma {:induction false} PositionIsMod(k: nat, n: nat)
    requires n > 0
    ensures Position(k, n) == k % n
  {
    if k > 0 {
      PositionIsMod(k - 1, n);
      NextMod(k - 1, n);
    } else {
      ModIs(0, n, 0, 0);
    }
  }

  lemma PositionsDiffer(i: nat, j: nat, n: nat)
    requires i < j < i + n
    ensures Position(i, n) != Position(j, n)
  {
    PositionIsMod(i, n);
    PositionIsMod(j, n);
    WindowSlots(i, j, n);
  }

  lemma PositionsRepeat(k: nat, n: nat)
    requires n > 0
    ensures Position(k + n, n) == Position(k, n)
  {
    PositionIsMod(k, n);
    PositionIsMod(k + n, n);
    assert k + n == (k / n + 1) * n + k % n by {
      assert (k / n + 1) * n == (k / n) * n + n;
    }
    ModIs(k + n, n, k / n + 1, k % n);
  }

  predicate PowerOfTwo(n: nat) {
    exists e: nat | e <= n :: n == Pow2(e)
  }

  /** In a ring whose length is a power of two, the mask n - 1 gives the next slot. */
  lemma MaskStep(k: nat, n: nat)
    requires PowerOfTwo(n) && k < n
    ensures BitAnd(k + 1, n - 1) == NextSlot(k, n)
  {
    var e: nat :| e <= n && n == Pow2(e);
    MaskIsRemainder(k + 1, e);
    NextMod(k, n);
    ModIs(k, n, 0, k);
  }

  /** Pigeonholes: distinct numbers below `m` are at most `m` many. */
  lemma {:induction false} DistinctBelow(s: seq<nat>, m: nat)
    requires forall i | 0 <= i < |s| :: s[i] < m
    requires forall i, j | 0 <= i < j < |s| :: s[i] != s[j]
    ensures |s| <= m
    decreases m
  {
    assert s != [] ==> s[0] < m;
    if i :| 0 <= i < |s| && s[i] == m - 1 {
      DistinctBelow(s[..i] + s[i + 1..], m - 1);
    } else if m > 0 {
      DistinctBelow(s, m - 1);
    }
  }
}
