/**
 Two Tegra IVC endpoints over their pair of shared channels, as a state machine whose steps
 are the shared-memory accesses of libtx2bpmp/src/ivc.c. The notification handler is three steps
 (read the peer, decide and clear, publish) and each advance is two (advance, then look at the
 count), so the two ends interleave inside the calls as they do on real hardware.
 */
module IvcProtocol {
  import opened IvcChannel

  type Frame = seq<bv8>

  datatype Phase =
    | Idle
    | Latched(peer: State)   // the peer's state has been read
    | Cleared(next: State)   // own counters are cleared, `next` is still to be published
    | TxAdvanced             // wCount has moved, the count is still to be looked at
    | RxAdvanced             // rCount has moved, the count is still to be looked at

  datatype Wait = Awake | ForData | ForSpace

  /** One end: the memory it owns (registers and the frames it transmits in), where it is inside
      a call, whether a notification is pending for it, what its client sleeps on, and two history
      variables that no step reads: the frames sent and received since its counters were cleared. */
  datatype End = End(regs: Regs, phase: Phase, bell: bool, wait: Wait, slots: seq<Frame>,
                     sent: seq<Frame>, got: seq<Frame>)

  datatype Op = Fill(frame: Frame) | WriteAdvance | ReadAdvance | LookAtCount | AwaitData | AwaitSpace
              | ReadPeer | Decide | Publish | Reset

  ghost predicate Fits(n: Word, x: End) {
    && |x.slots| == n
    && (if n == 0 then x.regs.wPos == x.regs.rPos == 0 else x.regs.wPos < n && x.regs.rPos < n)
  }

  function Ring(y: End): End {
    y.(bell := true)
  }

  predicate Can(n: Word, x: End, y: End, op: Op) {
    match op
    case Fill(_) => x.phase == Idle && CheckWrite(n, x.regs, y.regs) == Ok
    case WriteAdvance => x.phase == Idle && CheckWrite(n, x.regs, y.regs) == Ok
    case ReadAdvance => x.phase == Idle && CheckRead(n, x.regs, y.regs) == Ok
    case LookAtCount => x.phase == TxAdvanced || x.phase == RxAdvanced
    case AwaitData => x.phase == Idle && CheckRead(n, x.regs, y.regs) == NoMem
    case AwaitSpace => x.phase == Idle && CheckWrite(n, x.regs, y.regs) == NoMem
    case ReadPeer => x.phase == Idle
    case Decide => x.phase.Latched?
    case Publish => x.phase.Cleared?
    case Reset => x.phase == Idle
  }

  /** The step `op` of the end `x`; its peer `y` changes only by being notified. */
  function Do(n: Word, x: End, y: End, op: Op): (r: (End, End))
    requires Fits(n, x) && Fits(n, y) && Can(n, x, y, op)
    ensures Fits(n, r.0) && Fits(n, r.1)
  {
    match op
    case Fill(f) =>
      (x.(wait := Awake, slots := x.slots[x.regs.wPos := f]), y)
    case WriteAdvance =>
      (x.(wait := Awake, regs := AdvanceTx(n, x.regs), phase := TxAdvanced, sent := x.sent + [x.slots[x.regs.wPos]]), y)
    case ReadAdvance =>
      (x.(wait := Awake, regs := AdvanceRx(n, x.regs), phase := RxAdvanced, got := x.got + [y.slots[x.regs.rPos]]), y)
    case LookAtCount =>
      var must := if x.phase == TxAdvanced then WriterMustNotify(x.regs, y.regs)
                  else ReaderMustNotify(n, x.regs, y.regs);
      (x.(phase := Idle), if must then Ring(y) else y)
    case AwaitData =>
      (x.(wait := ForData), y)
    case AwaitSpace =>
      (x.(wait := ForSpace), y)
    case ReadPeer =>
      (x.(wait := Awake, bell := false, phase := Latched(y.regs.state)), y)
    case Decide =>
      var own, peer := x.regs.state, x.phase.peer;
      if MustClear(own, peer) then
        (x.(regs := ClearCounters(x.regs), sent := [], got := [], phase := Cleared(Target(own, peer))), y)
      else
        (x.(regs := x.regs.(state := Target(own, peer)), phase := Idle), if MustPublish(own, peer) then Ring(y) else y)
    case Publish =>
      (x.(regs := x.regs.(state := x.phase.next), phase := Idle), Ring(y))
    case Reset =>
      (x.(wait := Awake, regs := x.regs.(state := Sync)), Ring(y))
  }

  /** Run without interference, the three steps of the notification handler are one call of it. */
  lemma HandlerRefinesCall(n: Word, x: End, y: End)
    requires Fits(n, x) && Fits(n, y) && x.phase == Idle
    ensures var (x1, y1) := Do(n, x, y, ReadPeer);
            var (x2, y2) := Do(n, x1, y1, Decide);
            var (x3, y3) := if x2.phase.Cleared? then Do(n, x2, y2, Publish) else (x2, y2);
            && x3.phase == Idle
            && x3.regs == Notified(x.regs, y.regs.state)
            && y3 == if MustPublish(x.regs.state, y.regs.state) then Ring(y) else y
  {
  }

  /** Run without interference, an advance and the look at the count are one call of the API. */
  lemma AdvancesRefineCalls(n: Word, x: End, y: End, op: Op)
    requires Fits(n, x) && Fits(n, y) && Can(n, x, y, op) && op in {WriteAdvance, ReadAdvance}
    ensures var (x1, y1) := Do(n, x, y, op);
            var (x2, y2) := Do(n, x1, y1, LookAtCount);
            && x2.phase == Idle
            && x2.regs == (if op == WriteAdvance then AdvanceTx(n, x.regs) else AdvanceRx(n, x.regs))
            && y2 == if (if op == WriteAdvance then WriterMustNotify(x2.regs, y.regs)
                else ReaderMustNotify(n, x2.regs, y.regs))
                     then Ring(y) else y
  {
  }

  // ---- One end, whatever its peer does ----

  /** An advance is made in ESTABLISHED only, and what is about to be published answers a SYNC or, out
      of SYNC, an ACK. */
  predicate Sane(x: End) {
    && (x.phase in {TxAdvanced, RxAdvanced} ==> x.regs.state == Established)
    && (x.phase.Cleared? ==> x.phase.next == Ack || (x.phase.next == Established && x.regs.state == Sync))
  }

  /** About to answer a reset of the peer. */
  predicate SawSync(x: End) {
    x.phase in {Latched(Sync), Cleared(Ack)}
  }

  lemma StepKeepsSane(n: Word, x: End, y: End, op: Op)
    requires Fits(n, x) && Fits(n, y) && Can(n, x, y, op) && Sane(x) && Sane(y)
    ensures var (x', y') := Do(n, x, y, op); Sane(x') && Sane(y')
  {
  }

  // ---- The two-ended system ----

  datatype Side = A | B

  datatype Sys = Sys(n: Word, a: End, b: End) {
    ghost predicate WellFormed() {
      Fits(n, a) && Fits(n, b)
    }

    function Own(side: Side): End {
      if side == A then a else b
    }

    function Other(side: Side): End {
      if side == A then b else a
    }
  }

  datatype Event = Event(side: Side, op: Op)

  predicate Enabled(s: Sys, e: Event) {
    Can(s.n, s.Own(e.side), s.Other(e.side), e.op)
  }

  function Apply(s: Sys, e: Event): (t: Sys)
    requires s.WellFormed() && Enabled(s, e)
    ensures t.WellFormed() && t.n == s.n
  {
    var (x, y) := Do(s.n, s.Own(e.side), s.Other(e.side), e.op);
    if e.side == A then Sys(s.n, x, y) else Sys(s.n, y, x)
  }

  /** An end on its way to publishing ESTABLISHED: it has read its peer's state and, unless it
      reads again, will move to ESTABLISHED. */
  predicate Establishing(x: End) {
    || (x.regs.state == Ack && x.phase.Latched? && x.phase.peer != Sync)
    || (x.regs.state == Sync && x.phase == Latched(Ack))
    || (x.regs.state == Sync && x.phase == Cleared(Established))
  }

  /** A step taken while the peer is on its way to ESTABLISHED must not be a reset. */
  predicate Guarded(s: Sys, e: Event) {
    e.op == Reset ==> !Establishing(s.Other(e.side))
  }

  /** `evs` is a run from `s` to `t`. */
  ghost predicate Leads(s: Sys, evs: seq<Event>, t: Sys)
    decreases |evs|
  {
    if evs == [] then s == t
    else s.WellFormed() && Enabled(s, evs[0]) && Leads(Apply(s, evs[0]), evs[1..], t)
  }

  ghost predicate GuardedRun(s: Sys, evs: seq<Event>)
    decreases |evs|
  {
    evs != [] ==>
      && s.WellFormed() && Enabled(s, evs[0])
      && Guarded(s, evs[0])
      && GuardedRun(Apply(s, evs[0]), evs[1..])
  }

  predicate NoReset(evs: seq<Event>) {
    forall i | 0 <= i < |evs| :: evs[i].op != Reset
  }

  // ---- Building runs ----

  lemma {:induction false} LeadsOn(s: Sys, evs: seq<Event>, t: Sys, e: Event)
    requires Leads(s, evs, t) && NoReset(evs) && t.WellFormed() && Enabled(t, e) && e.op != Reset
    ensures Leads(s, evs + [e], Apply(t, e)) && NoReset(evs + [e])
    decreases |evs|
  {
    if evs == [] {
      assert [e][1..] == [];
    } else {
      assert NoReset(evs[1..]);
      LeadsOn(Apply(s, evs[0]), evs[1..], t, e);
      assert (evs + [e])[1..] == evs[1..] + [e];
    }
  }

  /** One more step of a run under construction. */
  lemma Extend(s: Sys, evs: seq<Event>, t: Sys, side: Side, op: Op) returns (evs': seq<Event>, t': Sys)
    requires Leads(s, evs, t) && NoReset(evs) && t.WellFormed()
    requires Can(t.n, t.Own(side), t.Other(side), op) && op != Reset
    ensures Leads(s, evs', t') && NoReset(evs') && t'.WellFormed() && t'.n == t.n
    ensures (t'.Own(side), t'.Other(side)) == Do(t.n, t.Own(side), t.Other(side), op)
  {
    LeadsOn(s, evs, t, Event(side, op));
    evs', t' := evs + [Event(side, op)], Apply(t, Event(side, op));
  }

  function Flip(side: Side): Side {
    if side == A then B else A
  }

  lemma {:induction false} ResetFreeIsGuarded(s: Sys, evs: seq<Event>, t: Sys)
    requires Leads(s, evs, t) && NoReset(evs)
    ensures GuardedRun(s, evs)
    decreases |evs|
  {
    if evs != [] {
      assert evs[0].op != Reset;
      assert NoReset(evs[1..]);
      ResetFreeIsGuarded(Apply(s, evs[0]), evs[1..], t);
    }
  }
}
