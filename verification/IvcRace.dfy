/**
 What the reset guard is worth. The notification handler reads the peer's state (ivc.c:322) some
 time before it publishes ESTABLISHED (ivc.c:388, ivc.c:408). If the peer resets in between, the
 handler re-opens the channel on an observation that is out of date, and a later clearing of
 counters meets counters already in use: the reader's count is then ahead of the writer's, the
 writer's test says full, the reader's says empty, and the direction is dead until the next reset.
 The guard excludes exactly the resets for which this can happen.
 */
module IvcRace {
  import opened IvcChannel
  import opened IvcProtocol
  import opened IvcSafety
  import opened IvcRounds

  /** An end that may communicate faces more outstanding frames than the ring has slots. */
  ghost predicate Overdrawn(t: Sys) {
    exists side :: Communicating(t.Own(side)) && Sub(t.Other(side).regs.w, t.Own(side).regs.r) > t.n
  }

  ghost predicate CanOverdraw(s: Sys) {
    exists evs, t :: Leads(s, evs, t) && NoReset(evs) && Overdrawn(t)
  }

  /** Nothing can be written at the end `side`, and nothing read at the other. */
  predicate Refused(t: Sys, side: Side) {
    var x, y := t.Own(side).regs, t.Other(side).regs;
    CheckWrite(t.n, x, y) != Ok && CheckRead(t.n, y, x) != Ok
  }

  /** The direction from `side` to its peer is dead in every continuation without a reset. */
  ghost predicate Wedged(t: Sys, side: Side) {
    forall evs, u | Leads(t, evs, u) && NoReset(evs) :: Refused(u, side)
  }

  ghost predicate CanWedge(s: Sys) {
    exists evs, t, side :: Leads(s, evs, t) && NoReset(evs) && Wedged(t, side)
  }

  // ---- How a direction dies ----

  /** The writer `x` has cleared its count after the reader `y` had received a frame, and neither
      has a SYNC in view that would make it clear again. */
  predicate Stuck(x: End, y: End) {
    && x.regs.w == 0 && y.regs.r == 1
    && x.regs.state != Sync && x.phase != Latched(Sync) && (x.phase.Cleared? ==> x.phase.next == Ack)
    && y.regs.state == Established && y.phase != Latched(Sync) && !y.phase.Cleared?
  }

  lemma StuckStep(s: Sys, side: Side, e: Event)
    requires s.WellFormed() && s.n < WORD_SIZE - 1 && Stuck(s.Own(side), s.Other(side))
    requires Enabled(s, e) && e.op != Reset
    ensures var t := Apply(s, e); Stuck(t.Own(side), t.Other(side))
  {
    assert Full(s.n, 0, 1) && Empty(s.n, 0, 1);
  }

  lemma {:induction false} StuckRun(s: Sys, side: Side, evs: seq<Event>, t: Sys)
    requires s.WellFormed() && s.n < WORD_SIZE - 1 && Stuck(s.Own(side), s.Other(side))
    requires Leads(s, evs, t) && NoReset(evs)
    ensures Refused(t, side)
    decreases |evs|
  {
    if evs == [] {
      assert Full(s.n, 0, 1) && Empty(s.n, 0, 1);
    } else {
      assert NoReset(evs[1..]) && evs[0].op != Reset;
      StuckStep(s, side, evs[0]);
      StuckRun(Apply(s, evs[0]), side, evs[1..], t);
    }
  }

  lemma StuckIsWedged(s: Sys, side: Side)
    requires s.WellFormed() && s.n < WORD_SIZE - 1 && Stuck(s.Own(side), s.Other(side))
    ensures Wedged(s, side)
  {
    forall evs, u | Leads(s, evs, u) && NoReset(evs)
      ensures Refused(u, side)
    {
      StuckRun(s, side, evs, u);
    }
  }

  // ---- The runs that lead there ----

  /** `x` sends one frame over an unused channel. */
  lemma SendOne(s: Sys, evs: seq<Event>, t: Sys, side: Side) returns (evs': seq<Event>, t': Sys)
    requires Leads(s, evs, t) && NoReset(evs) && t.WellFormed() && t.n > 0
    requires var x, y := t.Own(side), t.Other(side);
             x.phase == Idle && x.regs.state == Established && x.regs.w == 0 && y.regs.r == 0
    ensures Leads(s, evs', t') && NoReset(evs') && t'.WellFormed() && t'.n == t.n
    ensures var x, y, x', y' := t.Own(side), t.Other(side), t'.Own(side), t'.Other(side);
            && x'.phase == Idle && x'.regs.state == Established && x'.regs.w == 1
            && y'.phase == y.phase && y'.regs == y.regs
  {
    evs', t' := Extend(s, evs, t, side, WriteAdvance);
    evs', t' := Extend(s, evs', t', side, LookAtCount);
  }

  /** `x` receives the one frame outstanding. */
  lemma ReceiveOne(s: Sys, evs: seq<Event>, t: Sys, side: Side) returns (evs': seq<Event>, t': Sys)
    requires Leads(s, evs, t) && NoReset(evs) && t.WellFormed() && t.n > 0
    requires var x, y := t.Own(side), t.Other(side);
             x.phase == Idle && x.regs.state == Established && x.regs.r == 0 && y.regs.w == 1
    ensures Leads(s, evs', t') && NoReset(evs') && t'.WellFormed() && t'.n == t.n
    ensures var x, y, x', y' := t.Own(side), t.Other(side), t'.Own(side), t'.Other(side);
            && x'.phase == Idle && x'.regs.state == Established && x'.regs.r == 1
            && y'.phase == y.phase && y'.regs == y.regs
  {
    evs', t' := Extend(s, evs, t, side, ReadAdvance);
    evs', t' := Extend(s, evs', t', side, LookAtCount);
  }

  /** `x` has been received from once and now clears for the reset it saw too late. */
  lemma ClearTooLate(s: Sys, evs: seq<Event>, t: Sys, side: Side)
    requires Leads(s, evs, t) && NoReset(evs) && t.WellFormed() && 0 < t.n < WORD_SIZE - 1
    requires var x, y := t.Own(side), t.Other(side);
             && x.phase == Latched(Sync) && x.regs.state == Established && x.regs.w == 1
             && y.phase == Idle && y.regs.state == Established && y.regs.r == 0
    ensures CanOverdraw(s) && CanWedge(s)
  {
    var other := Flip(side);
    assert t.Own(other) == t.Other(side) && t.Other(other) == t.Own(side);
    var evs1, t1 := ReceiveOne(s, evs, t, other);
    assert t1.Own(side) == t1.Other(other) && t1.Other(side) == t1.Own(other);
    var evs2, t2 := Extend(s, evs1, t1, side, Decide);
    assert t2.Own(other) == t2.Other(side) && t2.Other(other) == t2.Own(side);
    assert Sub(0, 1) > t2.n;
    assert Overdrawn(t2);
    StuckIsWedged(t2, side);
  }

  /** The peer `x` is in ACK, with the state of `y` read before `y` reset (ivc.c:394-408). */
  lemma RaceFromAck(s: Sys, side: Side)
    requires s.WellFormed() && 0 < s.n < WORD_SIZE - 1
    requires var x, y := s.Own(side), s.Other(side);
             && x.regs.state == Ack && x.phase.Latched? && x.phase.peer != Sync && x.regs.w == 0
             && y.regs.state == Sync && y.phase == Idle && y.regs.r == 0
    ensures CanOverdraw(s) && CanWedge(s)
  {
    hide CanOverdraw, CanWedge;
    var other := Flip(side);
    var evs, t := Extend(s, [], s, other, ReadPeer);
    evs, t := Extend(s, evs, t, side, Decide);
    evs, t := SendOne(s, evs, t, side);
    evs, t := Extend(s, evs, t, side, ReadPeer);
    evs, t := Extend(s, evs, t, other, Decide);
    evs, t := Extend(s, evs, t, other, Publish);
    ClearTooLate(s, evs, t, side);
  }

  /** The peer `x` is in SYNC, has cleared, and is about to publish ESTABLISHED (ivc.c:371-388). */
  lemma RaceFromSync(s: Sys, evs0: seq<Event>, t0: Sys, side: Side)
    requires Leads(s, evs0, t0) && NoReset(evs0) && t0.WellFormed() && 0 < t0.n < WORD_SIZE - 1
    requires var x, y := t0.Own(side), t0.Other(side);
             && x.regs.state == Sync && x.phase == Cleared(Established) && x.regs.w == 0
             && y.regs.state == Sync && y.phase == Idle && y.regs.r == 0
    ensures CanOverdraw(s) && CanWedge(s)
  {
    hide CanOverdraw, CanWedge;
    var other := Flip(side);
    var evs, t := Extend(s, evs0, t0, other, ReadPeer);
    evs, t := Extend(s, evs, t, side, Publish);
    evs, t := SendOne(s, evs, t, side);
    evs, t := Extend(s, evs, t, side, ReadPeer);
    assert t.Own(other) == t.Other(side) && t.Other(other) == t.Own(side);
    RaceThroughAck(s, evs, t, other);
  }

  /** The end that reset goes on to ACK and ESTABLISHED while its peer holds the SYNC it read. */
  lemma RaceThroughAck(s: Sys, evs0: seq<Event>, t0: Sys, side: Side)
    requires Leads(s, evs0, t0) && NoReset(evs0) && t0.WellFormed() && 0 < t0.n < WORD_SIZE - 1
    requires t0.Own(side).regs.state == Sync && t0.Own(side).phase == Latched(Sync)
    requires var x := t0.Other(side);
             x.regs.state == Established && x.phase == Latched(Sync) && x.regs.w == 1
    ensures CanOverdraw(s) && CanWedge(s)
  {
    hide Leads, NoReset, CanOverdraw, CanWedge;
    var evs, t := Extend(s, evs0, t0, side, Decide);
    evs, t := Extend(s, evs, t, side, Publish);
    assert t.Own(side).regs == ClearCounters(t0.Own(side).regs).(state := Ack);
    evs, t := Extend(s, evs, t, side, ReadPeer);
    assert t.Own(side).phase == Latched(Established);
    evs, t := Extend(s, evs, t, side, Decide);
    assert t.Own(Flip(side)) == t.Other(side) && t.Other(Flip(side)) == t.Own(side);
    ClearTooLate(s, evs, t, Flip(side));
  }

  /** A reset that comes between the peer's look at this end's state and its ESTABLISHED can kill a
      direction for good. */
  lemma UnguardedResetRaces(s: Sys, side: Side)
    requires Inv(s) && 0 < s.n < WORD_SIZE - 1 && s.Own(side).phase == Idle && Establishing(s.Other(side))
    ensures CanOverdraw(Apply(s, Event(side, Reset)))
    ensures CanWedge(Apply(s, Event(side, Reset)))
  {
    hide CanOverdraw, CanWedge;
    var other := Flip(side);
    var r := Apply(s, Event(side, Reset));
    var x, y := s.Other(side), s.Own(side);
    assert x == s.Own(other) && y == s.Other(other);
    assert y.regs.r == 0 by {
      if x.regs.state == Ack && y.regs.state == Established {
        assert Coherent(s.n, y, x);
      }
    }
    if x.regs.state == Ack {
      RaceFromAck(r, other);
    } else if x.phase == Latched(Ack) {
      var evs, t := Extend(r, [], r, other, Decide);
      RaceFromSync(r, evs, t, other);
    } else {
      RaceFromSync(r, [], r, other);
    }
  }

  // ---- The guard is enough ----

  lemma InvIsNotOverdrawn(s: Sys)
    requires Inv(s)
    ensures !Overdrawn(s)
  {
    forall side | Communicating(s.Own(side))
      ensures Sub(s.Other(side).regs.w, s.Own(side).regs.r) <= s.n
    {
      var x, y := s.Own(side), s.Other(side);
      assert Coherent(s.n, x, y);
      CheckArithmetic(s.n, |y.sent|, |x.got|);
    }
  }

  /** From every state of the invariant, in both directions something can go through again. */
  lemma InvIsNotWedged(s: Sys, side: Side)
    requires Inv(s) && s.n > 0
    ensures !Wedged(s, side)
  {
    hide Fits, Handshake, Stored;
    var evs, t := Establish(s, [], s);
    ResetFreeIsGuarded(s, evs, t);
    RunKeepsInv(s, evs, t);
    assert Communicating(t.Own(side)) && Communicating(t.Other(side));
    CoherentSymmetric(t.n, t.Own(side), t.Other(side));
    ChecksAreExact(t.n, t.Own(side), t.Other(side));
    ChecksAreExact(t.n, t.Other(side), t.Own(side));
    assert !Refused(t, side);
  }

  lemma GuardedResetIsSafe(s: Sys, side: Side)
    requires Inv(s) && s.n > 0 && s.Own(side).phase == Idle && !Establishing(s.Other(side))
    ensures !CanOverdraw(Apply(s, Event(side, Reset)))
    ensures !CanWedge(Apply(s, Event(side, Reset)))
  {
    hide Overdrawn, Wedged, Safe;
    var r := Apply(s, Event(side, Reset));
    StepKeepsInv(s, Event(side, Reset));
    forall evs, t | Leads(r, evs, t) && NoReset(evs)
      ensures !Overdrawn(t)
      ensures forall d :: !Wedged(t, d)
    {
      ResetFreeIsGuarded(r, evs, t);
      RunKeepsInv(r, evs, t);
      InvIsNotOverdrawn(t);
      forall d
        ensures !Wedged(t, d)
      {
        InvIsNotWedged(t, d);
      }
    }
  }

  /** Exactly when a reset is safe: from every state the guarded protocol can be in, a reset makes it
      possible that the counts of a direction no longer fit, and that the direction is dead until the
      next reset, if and only if the peer was, at that moment, on its way to ESTABLISHED. */
  lemma ResetIsSafeIffGuarded(s: Sys, side: Side)
    requires Inv(s) && 0 < s.n < WORD_SIZE - 1 && s.Own(side).phase == Idle
    ensures CanOverdraw(Apply(s, Event(side, Reset))) <==> Establishing(s.Other(side))
    ensures CanWedge(Apply(s, Event(side, Reset))) <==> Establishing(s.Other(side))
  {
    if Establishing(s.Other(side)) {
      UnguardedResetRaces(s, side);
    } else {
      GuardedResetIsSafe(s, side);
    }
  }

  // ---- The guard an end can check ----

  /** A test of the two published state words: an end in SYNC may always reset again, and otherwise the
      peer must be ESTABLISHED or, if this end is ESTABLISHED too, in SYNC. */
  predicate SafeWords(own: State, peer: State) {
    own == Sync || peer == Established || (own == Established && peer == Sync)
  }

  lemma SafeWordsGuard(s: Sys, side: Side)
    requires Inv(s) && SafeWords(s.Own(side).regs.state, s.Other(side).regs.state)
    ensures !Establishing(s.Other(side))
  {
  }

  /** What the test saw stays good while the end that made it makes no call, unless the peer resets
      meanwhile and this end is in ACK. */
  lemma SafeWordsStay(s: Sys, side: Side, e: Event)
    requires Inv(s) && SafeWords(s.Own(side).regs.state, s.Other(side).regs.state)
    requires e.side != side && Enabled(s, e) && (e.op == Reset ==> s.Own(side).regs.state != Ack)
    ensures var t := Apply(s, e); SafeWords(t.Own(side).regs.state, t.Other(side).regs.state)
  {
  }

  /** The end A is between calls and the end B is on its way to ESTABLISHED, with these words. */
  predicate Exposed(t: Sys, own: State, peer: State) {
    && t.a.phase == Idle && t.a.regs.state == own
    && t.b.regs.state == peer && Establishing(t.b)
  }

  ghost predicate CanBeExposed(s: Sys, own: State, peer: State) {
    exists evs, t :: Leads(s, evs, t) && GuardedRun(s, evs) && Exposed(t, own, peer)
  }

  /** After both ends have reset, every other pair of words occurs in a state in which B is on its
      way to ESTABLISHED; none of the runs contains a reset. */
  lemma ExposedReachable(s: Sys, own: State, peer: State) returns (evs: seq<Event>, t: Sys)
    requires ResetStart(s) && !SafeWords(own, peer)
    ensures Leads(s, evs, t) && NoReset(evs) && Exposed(t, own, peer)
  {
    assert s.Own(A) == s.a && s.Own(B) == s.b;
    if peer == Sync {
      evs, t := MakeCall(s, [], s, A);
    } else {
      evs, t := Extend(s, [], s, A, ReadPeer);
      evs, t := MakeCall(s, evs, t, B);
      evs, t := FinishLatched(s, evs, t, A);
      if own == Established {
        evs, t := MakeCall(s, evs, t, A);
      }
    }
    evs, t := Extend(s, evs, t, B, ReadPeer);
  }

  /** The end `side` has read a SYNC and acknowledges it. */
  lemma FinishLatched(s: Sys, evs: seq<Event>, t: Sys, side: Side) returns (evs': seq<Event>, t': Sys)
    requires Leads(s, evs, t) && NoReset(evs) && t.WellFormed() && t.Own(side).phase == Latched(Sync)
    ensures Leads(s, evs', t') && NoReset(evs') && t'.WellFormed() && t'.n == t.n
    ensures t'.Own(side).phase == Idle && t'.Own(side).regs.state == Ack
    ensures t'.Other(side).phase == t.Other(side).phase && t'.Other(side).regs == t.Other(side).regs
  {
    evs', t' := Extend(s, evs, t, side, Decide);
    evs', t' := Extend(s, evs', t', side, Publish);
  }

  /** The test is the weakest one on these two words: it passes exactly those pairs with which, after
      both ends have reset, no guarded run meets a peer on its way to ESTABLISHED. */
  lemma SafeWordsIsExact(s: Sys, own: State, peer: State)
    requires ResetStart(s)
    ensures SafeWords(own, peer) <==> !CanBeExposed(s, own, peer)
  {
    if SafeWords(own, peer) {
      StartsSafe(s);
      forall evs, t | Leads(s, evs, t) && GuardedRun(s, evs)
        ensures !Exposed(t, own, peer)
      {
        RunKeepsInv(s, evs, t);
        if t.a.regs.state == own && t.b.regs.state == peer {
          SafeWordsGuard(t, A);
        }
      }
    } else {
      var evs, t := ExposedReachable(s, own, peer);
      ResetFreeIsGuarded(s, evs, t);
      assert Leads(s, evs, t) && GuardedRun(s, evs) && Exposed(t, own, peer);
    }
  }
}
