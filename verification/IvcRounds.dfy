/**
 The reset handshake under polling. A round is a stretch of a run in which both ends complete at
 least one call of the notification handler (ivc.c:317-427), however the sub-steps are interleaved,
 whatever data traffic runs beside them and whether or not a notification asked for the call. At
 most six rounds after the last reset both ends are ESTABLISHED.
 */
module IvcRounds {
  import opened IvcChannel
  import opened IvcProtocol
  import opened IvcSafety

  /** The step `op` of `x` is the last one of a call of the notification handler. */
  predicate Completes(x: End, op: Op) {
    op == Publish || (op == Decide && x.phase.Latched? && !MustClear(x.regs.state, x.phase.peer))
  }

  /** A round under way: which of its ends have completed a call since the round began. */
  datatype Round = Round(a: bool, b: bool) {
    function Done(side: Side): bool {
      if side == A then a else b
    }
  }

  const NEW_ROUND := Round(false, false)

  function After(round: Round, s: Sys, e: Event): Round {
    var done := Completes(s.Own(e.side), e.op);
    Round(round.a || (done && e.side == A), round.b || (done && e.side == B))
  }

  /** How many rounds a run completes, the first of which is already under way. */
  ghost function Rounds(s: Sys, evs: seq<Event>, round: Round): nat
    requires s.WellFormed()
    decreases |evs|
  {
    if evs == [] || !Enabled(s, evs[0]) then
      0
    else
      var next := After(round, s, evs[0]);
      if next.a && next.b then 1 + Rounds(Apply(s, evs[0]), evs[1..], NEW_ROUND)
      else Rounds(Apply(s, evs[0]), evs[1..], next)
  }

  // ---- The rank ----

  /** ESTABLISHED, and not about to answer a reset. */
  predicate SettledEnd(x: End) {
    x.regs.state == Established && !SawSync(x) && !x.phase.Cleared?
  }

  predicate Settled(s: Sys) {
    SettledEnd(s.a) && SettledEnd(s.b)
  }

  /** Acting on what the peer published before it reset. */
  predicate Stale(x: End) {
    || x.phase in {Latched(Ack), Cleared(Established)}
    || (x.phase == Latched(Established) && x.regs.state != Sync)
  }

  /** In SYNC, having read the peer before it noticed. */
  predicate Missed(x: End) {
    x.regs.state == Sync && x.phase == Latched(Established)
  }

  /** In SYNC, and not having seen an answer. */
  predicate Calling(x: End) {
    x.regs.state == Sync && (x.phase == Idle || x.phase == Latched(Established))
  }

  /** How many rounds a pair of ends can need. */
  function ToGo(x: End, y: End): nat {
    if SettledEnd(x) && SettledEnd(y) then 0
    else if x.regs.state != Sync && y.regs.state != Sync then
      if SawSync(x) || SawSync(y) then 2 else 1
    else if (Calling(x) && Stale(y)) || (Calling(y) && Stale(x)) then 6
    else if (Calling(x) && y.regs.state == Established) || (Calling(y) && x.regs.state == Established) then 5
    else if Missed(x) || Missed(y) then 4
    else 3
  }

  /** The end whose call the present round is still good for. */
  predicate Due(x: End, y: End) {
    match ToGo(x, y)
    case 0 => false
    case 1 => !SettledEnd(x)
    case 2 => SawSync(x)
    case 3 => x.regs.state == Sync
    case 4 => Missed(x)
    case 5 => x.regs.state == Established
    case _ => Stale(x)
  }

  /** A round that has already used up the call of a due end does not count in full. */
  function Rank(x: End, y: End, xDone: bool, yDone: bool): nat {
    ToGo(x, y) + if (xDone && Due(x, y)) || (yDone && Due(y, x)) then 1 else 0
  }

  /** The rank after a step of `x`, with the rank before it. */
  predicate Falls(x: End, y: End, x': End, y': End, completes: bool, xDone: bool, yDone: bool) {
    var done := xDone || completes;
    if done && yDone then Rank(x', y', false, false) < Rank(x, y, xDone, yDone)
    else Rank(x', y', done, yDone) <= Rank(x, y, xDone, yDone)
  }

  lemma DecideRank(n: Word, x: End, y: End, xDone: bool, yDone: bool)
    requires Fits(n, x) && Fits(n, y) && Sane(x) && Sane(y)
    requires Can(n, x, y, Decide) && !(xDone && yDone) && ToGo(x, y) > 0
    ensures var (x', y') := Do(n, x, y, Decide);
            Falls(x, y, x', y', Completes(x, Decide), xDone, yDone)
  {
  }

  lemma OtherRank(n: Word, x: End, y: End, op: Op, xDone: bool, yDone: bool)
    requires Fits(n, x) && Fits(n, y) && Sane(x) && Sane(y)
    requires Can(n, x, y, op) && op != Reset && op != Decide && !(xDone && yDone) && ToGo(x, y) > 0
    ensures var (x', y') := Do(n, x, y, op);
            Falls(x, y, x', y', Completes(x, op), xDone, yDone)
  {
  }

  /** No step but a reset raises the rank, and one that completes a round lowers it. */
  lemma StepRank(n: Word, x: End, y: End, op: Op, xDone: bool, yDone: bool)
    requires Fits(n, x) && Fits(n, y) && Sane(x) && Sane(y)
    requires Can(n, x, y, op) && op != Reset && !(xDone && yDone) && ToGo(x, y) > 0
    ensures var (x', y') := Do(n, x, y, op);
            var done := xDone || Completes(x, op);
            if done && yDone then Rank(x', y', false, false) < Rank(x, y, xDone, yDone)
            else Rank(x', y', done, yDone) <= Rank(x, y, xDone, yDone)
  {
    hide ToGo, Rank, Completes, Sane;
    if op == Decide {
      DecideRank(n, x, y, xDone, yDone);
    } else {
      OtherRank(n, x, y, op, xDone, yDone);
    }
  }

  lemma SettledStays(s: Sys, e: Event)
    requires s.WellFormed() && Settled(s) && Enabled(s, e) && e.op != Reset
    ensures Settled(Apply(s, e))
  {
  }

  // ---- Convergence ----

  lemma ToGoSymmetric(x: End, y: End)
    ensures ToGo(x, y) == ToGo(y, x)
    ensures ToGo(x, y) == 0 <==> SettledEnd(x) && SettledEnd(y)
  {
  }

  ghost predicate SaneSys(s: Sys) {
    s.WellFormed() && Sane(s.a) && Sane(s.b)
  }

  lemma EventKeepsSane(s: Sys, e: Event)
    requires SaneSys(s) && Enabled(s, e)
    ensures SaneSys(Apply(s, e))
  {
    StepKeepsSane(s.n, s.Own(e.side), s.Other(e.side), e.op);
  }

  lemma {:induction false} RunKeepsSane(s: Sys, evs: seq<Event>, t: Sys)
    requires SaneSys(s) && Leads(s, evs, t)
    ensures SaneSys(t) && t.n == s.n
    decreases |evs|
  {
    if evs != [] {
      EventKeepsSane(s, evs[0]);
      RunKeepsSane(Apply(s, evs[0]), evs[1..], t);
    }
  }

  lemma EventRank(s: Sys, e: Event, round: Round)
    requires SaneSys(s) && Enabled(s, e) && e.op != Reset && !(round.a && round.b) && !Settled(s)
    ensures var t, next := Apply(s, e), After(round, s, e);
            if next.a && next.b then ToGo(t.a, t.b) < Rank(s.a, s.b, round.a, round.b)
            else Rank(t.a, t.b, next.a, next.b) <= Rank(s.a, s.b, round.a, round.b)
  {
    hide ToGo, Due, SettledEnd, Completes;
    ToGoSymmetric(s.a, s.b);
    var t := Apply(s, e);
    ToGoSymmetric(t.a, t.b);
    var other := Flip(e.side);
    StepRank(s.n, s.Own(e.side), s.Other(e.side), e.op, round.Done(e.side), round.Done(other));
  }

  /** Until both ends have settled, every round of a run without resets lowers what is to go. */
  lemma {:induction false} RunRank(s: Sys, evs: seq<Event>, t: Sys, round: Round)
    requires SaneSys(s) && Leads(s, evs, t) && NoReset(evs) && !(round.a && round.b)
    ensures Settled(t) || Rounds(s, evs, round) + ToGo(t.a, t.b) <= Rank(s.a, s.b, round.a, round.b)
    decreases |evs|
  {
    if evs != [] {
      var e, rest := evs[0], evs[1..];
      var u, next := Apply(s, e), After(round, s, e);
      assert NoReset(rest) && e.op != Reset;
      EventKeepsSane(s, e);
      RunRank(u, rest, t, if next.a && next.b then NEW_ROUND else next);
      if Settled(s) {
        SettledStays(s, e);
        SettledRun(u, rest, t);
      } else {
        EventRank(s, e, round);
      }
    }
  }

  lemma {:induction false} SettledRun(s: Sys, evs: seq<Event>, t: Sys)
    requires s.WellFormed() && Settled(s) && Leads(s, evs, t) && NoReset(evs)
    ensures Settled(t)
    decreases |evs|
  {
    if evs != [] {
      assert NoReset(evs[1..]) && evs[0].op != Reset;
      SettledStays(s, evs[0]);
      SettledRun(Apply(s, evs[0]), evs[1..], t);
    }
  }

  /** Convergence: once both ends have each completed a call of the handler six times over since the
      last reset, in any interleaving and whenever the resets before it have come, both ends are
      ESTABLISHED and stay so. */
  lemma HandshakeConverges(s: Sys, before: seq<Event>, r: Sys, evs: seq<Event>, t: Sys)
    requires ZeroedStart(s) || ResetStart(s)
    requires Leads(s, before, r) && Leads(r, evs, t) && NoReset(evs)
    ensures r.WellFormed()
    ensures Rounds(r, evs, NEW_ROUND) >= 6 ==>
              forall more, u | Leads(t, more, u) && NoReset(more) ::
                u.a.regs.state == Established && u.b.regs.state == Established
  {
    StartsSane(s);
    hide ZeroedStart, ResetStart, Leads, NoReset, Rounds, ToGo, Due;
    RunKeepsSane(s, before, r);
    RunKeepsSane(r, evs, t);
    RunRank(r, evs, t, NEW_ROUND);
    SixAtMost(r.a, r.b);
    SixAtMost(t.a, t.b);
    if Rounds(r, evs, NEW_ROUND) >= 6 {
      forall more, u | Leads(t, more, u) && NoReset(more)
        ensures Settled(u)
      {
        SettledRun(t, more, u);
      }
    }
  }

  lemma StartsSane(s: Sys)
    requires ZeroedStart(s) || ResetStart(s)
    ensures SaneSys(s)
  {
    assert s.Own(A) == s.a && s.Own(B) == s.b;
  }

  lemma SixAtMost(x: End, y: End)
    ensures ToGo(x, y) <= 6 && (ToGo(x, y) == 0 ==> SettledEnd(x) && SettledEnd(y))
  {
  }

  // ---- Establishing is always possible ----

  /** The end `side` leaves the call it is in. */
  lemma FinishCall(s: Sys, evs: seq<Event>, t: Sys, side: Side) returns (evs': seq<Event>, t': Sys)
    requires Leads(s, evs, t) && NoReset(evs) && t.WellFormed()
    ensures Leads(s, evs', t') && NoReset(evs') && t'.WellFormed() && t'.n == t.n
    ensures t'.Own(side).phase == Idle && t'.Other(side).phase == t.Other(side).phase
  {
    evs', t' := evs, t;
    if t'.Own(side).phase in {TxAdvanced, RxAdvanced} {
      evs', t' := Extend(s, evs', t', side, LookAtCount);
    } else if t'.Own(side).phase.Latched? {
      evs', t' := Extend(s, evs', t', side, Decide);
    }
    if t'.Own(side).phase.Cleared? {
      evs', t' := Extend(s, evs', t', side, Publish);
    }
  }

  /** The end `side` makes one call of the handler. */
  lemma MakeCall(s: Sys, evs: seq<Event>, t: Sys, side: Side) returns (evs': seq<Event>, t': Sys)
    requires Leads(s, evs, t) && NoReset(evs) && t.WellFormed() && t.Own(side).phase == Idle
    ensures Leads(s, evs', t') && NoReset(evs') && t'.WellFormed() && t'.n == t.n
    ensures t'.Own(side).phase == Idle && t'.Other(side).phase == t.Other(side).phase
    ensures t'.Own(side).regs == Notified(t.Own(side).regs, t.Other(side).regs.state)
    ensures t'.Other(side).regs == t.Other(side).regs
  {
    evs', t' := Extend(s, evs, t, side, ReadPeer);
    evs', t' := Extend(s, evs', t', side, Decide);
    if t'.Own(side).phase.Cleared? {
      evs', t' := Extend(s, evs', t', side, Publish);
    }
  }

  /** Every run without resets can be continued without resets until both ends are ESTABLISHED. */
  lemma Establish(s: Sys, evs: seq<Event>, t: Sys) returns (evs': seq<Event>, t': Sys)
    requires Leads(s, evs, t) && NoReset(evs) && t.WellFormed()
    ensures Leads(s, evs', t') && NoReset(evs') && t'.WellFormed() && t'.n == t.n
    ensures t'.a.regs.state == Established && t'.a.phase == Idle
    ensures t'.b.regs.state == Established && t'.b.phase == Idle
  {
    evs', t' := FinishCall(s, evs, t, A);
    evs', t' := FinishCall(s, evs', t', B);
    evs', t' := MakeCall(s, evs', t', A);
    evs', t' := MakeCall(s, evs', t', B);
    evs', t' := MakeCall(s, evs', t', A);
    evs', t' := MakeCall(s, evs', t', B);
  }
}
