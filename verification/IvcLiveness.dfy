/**
 Progress of the IVC protocol: no notification is ever lost, the reset handshake always has a
 next step until both ends are ESTABLISHED, and it takes a bounded number of steps.
 */
module IvcLiveness {
  import opened IvcChannel
  import opened IvcProtocol
  import opened IvcSafety

  // ---- Nothing that happens goes unnoticed ----

  /** An end that no notification is pending for knows where its peer stands: what it has read or acts
      upon is the peer's state now, and between calls it has nothing to answer. In SYNC it waits
      for the peer, who is then about to act or has been told to. */
  predicate Aware(x: End, y: End) {
    x.bell ||
    match x.phase
    case Latched(peer) => peer == y.regs.state
    case Cleared(next) => y.regs.state == if next == Ack then Sync else Ack
    case _ =>
      match x.regs.state
      case Established => y.regs.state != Sync
      case Ack => y.regs.state == Sync
      case Sync => y.bell || SawSync(y)
  }

  /** Every step keeps this, resets at any moment included. */
  lemma StepKeepsAware(n: Word, x: End, y: End, op: Op)
    requires Fits(n, x) && Fits(n, y) && Can(n, x, y, op) && Sane(x) && Sane(y)
    requires Aware(x, y) && Aware(y, x)
    ensures var (x', y') := Do(n, x, y, op); Aware(x', y') && Aware(y', x')
  {
  }

  ghost predicate Noticed(s: Sys) {
    s.WellFormed() && Sane(s.a) && Sane(s.b) && Aware(s.a, s.b) && Aware(s.b, s.a)
  }

  lemma EventKeepsNoticed(s: Sys, e: Event)
    requires Noticed(s) && Enabled(s, e)
    ensures Noticed(Apply(s, e))
  {
    StepKeepsSane(s.n, s.Own(e.side), s.Other(e.side), e.op);
    StepKeepsAware(s.n, s.Own(e.side), s.Other(e.side), e.op);
  }

  lemma StartsNoticed(s: Sys)
    requires ZeroedStart(s) || ResetStart(s)
    ensures Noticed(s)
  {
    assert s.Own(A) == s.a && s.Own(B) == s.b;
  }

  lemma {:induction false} RunKeepsNoticed(s: Sys, evs: seq<Event>, t: Sys)
    requires Noticed(s) && Leads(s, evs, t)
    ensures Noticed(t) && t.n == s.n
    decreases |evs|
  {
    if evs != [] {
      EventKeepsNoticed(s, evs[0]);
      RunKeepsNoticed(Apply(s, evs[0]), evs[1..], t);
    }
  }

  lemma AtRest(s: Sys)
    requires Noticed(s) && s.a.phase == Idle && s.b.phase == Idle && !s.a.bell && !s.b.bell
    ensures s.a.regs.state == Established && s.b.regs.state == Established
  {
  }

  // ---- No client sleeps on ----

  /** A client asleep without a pending notification has reason to sleep, or its peer is just about
      to look at the count that makes it notify. */
  ghost predicate Waiting(n: Word, x: End, y: End) {
    && (x.wait != Awake && !x.bell ==>
          x.phase == Idle && x.regs.state == Established && y.regs.state != Sync)
    && (x.wait == ForData && !x.bell ==>
          || |y.sent| == |x.got|
          || (y.phase == TxAdvanced && |y.sent| == |x.got| + 1))
    && (x.wait == ForSpace && !x.bell ==>
          || |x.sent| == |y.got| + n
          || (y.phase == RxAdvanced && |x.sent| == |y.got| + n - 1))
  }

  lemma OwnWaiting(n: Word, x: End, y: End, op: Op)
    requires Fits(n, x) && Fits(n, y) && Safe(n, x, y) && Can(n, x, y, op)
    requires Aware(x, y) && Waiting(n, x, y)
    ensures var (x', y') := Do(n, x, y, op); Waiting(n, x', y')
  {
    if Communicating(x) {
      ChecksAreExact(n, x, y);
    }
    hide Handshake, Counters, Stored, Sub;
  }

  lemma PeerWaiting(n: Word, x: End, y: End, op: Op)
    requires Fits(n, x) && Fits(n, y) && Safe(n, x, y) && Can(n, x, y, op)
    requires Aware(y, x) && Waiting(n, y, x)
    ensures var (x', y') := Do(n, x, y, op); Waiting(n, y', x')
  {
    if Communicating(x) {
      ChecksAreExact(n, x, y);
    }
    hide Stored, Sub;
  }

  lemma StepKeepsWaiting(n: Word, x: End, y: End, op: Op)
    requires Fits(n, x) && Fits(n, y) && Safe(n, x, y) && Can(n, x, y, op)
    requires Aware(x, y) && Aware(y, x) && Waiting(n, x, y) && Waiting(n, y, x)
    ensures var (x', y') := Do(n, x, y, op); Waiting(n, x', y') && Waiting(n, y', x')
  {
    hide Waiting, Aware, Safe;
    OwnWaiting(n, x, y, op);
    PeerWaiting(n, x, y, op);
  }

  ghost predicate LiveInv(s: Sys) {
    Inv(s) && Noticed(s) && Waiting(s.n, s.a, s.b) && Waiting(s.n, s.b, s.a)
  }

  lemma StepKeepsLiveInv(s: Sys, e: Event)
    requires LiveInv(s) && Enabled(s, e) && Guarded(s, e)
    ensures LiveInv(Apply(s, e))
  {
    StepKeepsInv(s, e);
    EventKeepsNoticed(s, e);
    StepKeepsWaiting(s.n, s.Own(e.side), s.Other(e.side), e.op);
  }

  lemma StartsLive(s: Sys)
    requires ZeroedStart(s) || ResetStart(s)
    ensures LiveInv(s)
  {
    StartsSafe(s);
    StartsNoticed(s);
    assert s.Own(A) == s.a && s.Own(B) == s.b;
  }

  lemma {:induction false} RunKeepsLiveInv(s: Sys, evs: seq<Event>, t: Sys)
    requires LiveInv(s) && Leads(s, evs, t) && GuardedRun(s, evs)
    ensures LiveInv(t) && t.n == s.n
    decreases |evs|
  {
    if evs != [] {
      StepKeepsLiveInv(s, evs[0]);
      RunKeepsLiveInv(Apply(s, evs[0]), evs[1..], t);
    }
  }

  lemma SleeperIsWoken(n: Word, x: End, y: End)
    requires Fits(n, x) && Fits(n, y) && Safe(n, x, y) && Waiting(n, x, y)
    ensures x.wait == ForData && !Empty(n, y.regs.w, x.regs.r) ==>
              x.bell || (y.phase == TxAdvanced && WriterMustNotify(y.regs, x.regs))
    ensures x.wait == ForSpace && !Full(n, x.regs.w, y.regs.r) ==>
              x.bell || (y.phase == RxAdvanced && ReaderMustNotify(n, y.regs, x.regs))
  {
    if x.wait != Awake && !x.bell {
      hide Stored, Sub;
      ChecksAreExact(n, x, y);
      CoherentSymmetric(n, x, y);
      ChecksAreExact(n, y, x);
    }
  }

  /** No lost wakeup: if a client sleeps although its channel has data (or room) again, a
      notification is pending for it, or its peer is just before the count check that sends one. */
  lemma NoLostWakeup(s: Sys, evs: seq<Event>, t: Sys, side: Side)
    requires ZeroedStart(s) || ResetStart(s)
    requires Leads(s, evs, t) && GuardedRun(s, evs)
    ensures t.WellFormed()
    ensures var x, y := t.Own(side), t.Other(side);
            && (x.wait == ForData && !Empty(t.n, y.regs.w, x.regs.r) ==>
                  x.bell || (y.phase == TxAdvanced && Do(t.n, y, x, LookAtCount).1.bell))
            && (x.wait == ForSpace && !Full(t.n, x.regs.w, y.regs.r) ==>
                  x.bell || (y.phase == RxAdvanced && Do(t.n, y, x, LookAtCount).1.bell))
  {
    hide ZeroedStart, ResetStart, Leads, GuardedRun, Counters, Handshake, Waiting, Sub;
    StartsLive(s);
    RunKeepsLiveInv(s, evs, t);
    SleeperIsWoken(t.n, t.Own(side), t.Other(side));
  }

  lemma QuiescentSleepers(n: Word, x: End, y: End)
    requires Coherent(n, x, y) && Waiting(n, x, y) && x.phase == Idle && y.phase == Idle && !x.bell
    ensures x.wait == ForData ==> x.got == y.sent
    ensures x.wait == ForSpace ==> |x.sent| - |y.got| == n
  {
  }

  /** No deadlock: when nobody is inside a call and no notification is pending, both ends are ESTABLISHED,
      whenever resets have come; and if they were guarded, a client that sleeps faces a truly empty
      (or full) channel. */
  lemma QuiescentIsEstablished(s: Sys, evs: seq<Event>, t: Sys, side: Side)
    requires ZeroedStart(s) || ResetStart(s)
    requires Leads(s, evs, t)
    requires t.a.phase == Idle && t.b.phase == Idle && !t.a.bell && !t.b.bell
    ensures t.a.regs.state == Established && t.b.regs.state == Established
    ensures GuardedRun(s, evs) ==>
              && (t.Own(side).wait == ForData ==> t.Own(side).got == t.Other(side).sent)
              && (t.Own(side).wait == ForSpace ==> |t.Own(side).sent| - |t.Other(side).got| == t.n)
  {
    hide ZeroedStart, ResetStart, Leads, GuardedRun, Noticed;
    StartsNoticed(s);
    RunKeepsNoticed(s, evs, t);
    AtRest(t);
    if GuardedRun(s, evs) {
      StartsLive(s);
      RunKeepsLiveInv(s, evs, t);
      QuiescentSleepers(t.n, t.Own(side), t.Other(side));
    }
  }

  // ---- The handshake is finite ----

  function Rank(state: State): nat {
    match state
    case Established => 0
    case Ack => 2
    case Sync => 3
  }

  /** What one end still has to do, given where it is inside the handler. */
  function Work(x: End): nat {
    match x.phase
    case Latched(Sync) => 6
    case Cleared(Ack) => 5
    case Latched(_) => Rank(x.regs.state) + 1
    case _ => Rank(x.regs.state)
  }

  /** A pending notification that will meet a SYNC is worth a whole acknowledgement. */
  function Alarm(x: End, y: End): nat {
    if !x.bell then 0 else if y.regs.state == Sync then 7 else 2
  }

  function Potential(x: End, y: End): nat {
    Work(x) + Work(y) + Alarm(x, y) + Alarm(y, x)
  }

  /** The steps of a handler that runs because a notification is pending. */
  predicate Prompted(x: End, op: Op) {
    (op == ReadPeer && x.bell) || op == Decide || op == Publish
  }

  lemma StepPotential(n: Word, x: End, y: End, op: Op)
    requires Fits(n, x) && Fits(n, y) && Can(n, x, y, op) && op != Reset
    requires Sane(x) && Sane(y) && Aware(x, y) && Aware(y, x)
    ensures var (x', y') := Do(n, x, y, op);
            Potential(x', y') + (if Prompted(x, op) then 1 else 0)
              <= Potential(x, y) + (if Prompted(x, op) then 0 else 6)
  {
  }

  /** How many steps of a run were prompted by a notification. */
  ghost function PromptedSteps(s: Sys, evs: seq<Event>): nat
    requires s.WellFormed()
    decreases |evs|
  {
    if evs == [] || !Enabled(s, evs[0]) then
      0
    else
      var first := if Prompted(s.Own(evs[0].side), evs[0].op) then 1 else 0;
      first + PromptedSteps(Apply(s, evs[0]), evs[1..])
  }

  lemma {:induction false} RunPotential(s: Sys, evs: seq<Event>, t: Sys)
    requires Noticed(s) && Leads(s, evs, t) && NoReset(evs)
    ensures 7 * PromptedSteps(s, evs) + Potential(t.a, t.b) <= Potential(s.a, s.b) + 6 * |evs|
    decreases |evs|
  {
    if evs != [] {
      assert evs[0].op != Reset;
      assert NoReset(evs[1..]);
      var u := Apply(s, evs[0]);
      EventKeepsNoticed(s, evs[0]);
      StepPotential(s.n, s.Own(evs[0].side), s.Other(evs[0].side), evs[0].op);
      RunPotential(u, evs[1..], t);
    }
  }

  lemma InitialPotential(s: Sys)
    ensures Potential(s.a, s.b) <= 26
  {
  }

  /** After the last reset, whenever the resets have come, a run with `u` steps that no notification
      prompted (data traffic and polling) has at most 26 + 6u prompted ones; and once it comes to rest, with
      nobody inside a call and no notification pending, both ends are ESTABLISHED. */
  lemma PromptedStepsEnd(s: Sys, before: seq<Event>, r: Sys, evs: seq<Event>, t: Sys)
    requires ZeroedStart(s) || ResetStart(s)
    requires Leads(s, before, r) && Leads(r, evs, t) && NoReset(evs)
    ensures r.WellFormed()
    ensures var u := |evs| - PromptedSteps(r, evs);
            PromptedSteps(r, evs) <= 26 + 6 * u
    ensures t.a.phase == Idle && t.b.phase == Idle && !t.a.bell && !t.b.bell ==>
              t.a.regs.state == Established && t.b.regs.state == Established
  {
    hide ZeroedStart, ResetStart, Leads, NoReset, PromptedSteps;
    StartsNoticed(s);
    RunKeepsNoticed(s, before, r);
    RunPotential(r, evs, t);
    InitialPotential(r);
    RunKeepsNoticed(r, evs, t);
    if t.a.phase == Idle && t.b.phase == Idle && !t.a.bell && !t.b.bell {
      AtRest(t);
    }
  }

  /** On registers alone: two rounds of one uninterrupted handler call per end establish any pair of
      states. */
  lemma TwoRoundsEstablish(a: Regs, b: Regs)
    ensures var a1 := Notified(a, b.state);
            var b1 := Notified(b, a1.state);
            var a2 := Notified(a1, b1.state);
            var b2 := Notified(b1, a2.state);
            a2.state == Established && b2.state == Established
  {
  }
}
