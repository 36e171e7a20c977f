/**
 Safety of the IVC protocol over every interleaving: while resets are guarded, an end that may
 communicate always sees coherent channels, so frames arrive in order, none is lost or
 overwritten, and nothing sent before a reset is taken for something sent after it.
 */
module IvcSafety {
  import opened Arithmetic
  import opened IvcChannel
  import opened IvcProtocol

  // ---- Counters and positions ----

  /** The ring position of the k-th frame of an epoch. */
  function Pos(n: Word, k: nat): nat {
    if n == 0 then 0 else k % n
  }

  lemma NextPosFollows(n: Word, k: nat)
    requires n > 0
    ensures Pos(n, k) < n && NextPos(n, Pos(n, k)) == Pos(n, k + 1)
  {
    NextMod(k, n);
  }

  /** The slot about to be written is none of those still waiting to be read, even when `n` does
      not divide 2^32. */
  lemma OpenSlotIsFree(n: Word, r: nat, i: nat, w: nat)
    requires r <= i < w < r + n
    ensures Pos(n, i) != Pos(n, w)
  {
    WindowSlots(i, w, n);
  }

  /** A 32-bit difference of wrapped counters is the true difference while that is small. */
  lemma SubIsDifference(w: nat, r: nat)
    requires r <= w < r + WORD_SIZE
    ensures Sub(w % WORD_SIZE, r % WORD_SIZE) == w - r
  {
  }

  // ---- The invariant ----

  ghost predicate Counts(n: Word, x: End) {
    && x.regs.w == |x.sent| % WORD_SIZE
    && x.regs.r == |x.got| % WORD_SIZE
    && x.regs.wPos == Pos(n, |x.sent|)
    && x.regs.rPos == Pos(n, |x.got|)
  }

  /** What `y` has received is a prefix of what `x` sent, at most `n` frames are outstanding, and
      each outstanding frame still sits in its slot. */
  ghost predicate Flow(n: Word, x: End, y: End) {
    && |y.got| <= |x.sent| <= |y.got| + n
    && y.got == x.sent[..|y.got|]
    && Stored(n, x, |y.got|)
  }

  ghost predicate Stored(n: Word, x: End, from: nat) {
    forall i | from <= i < |x.sent| :: Pos(n, i) < |x.slots| && x.slots[Pos(n, i)] == x.sent[i]
  }

  ghost predicate Coherent(n: Word, x: End, y: End) {
    Counts(n, x) && Counts(n, y) && Flow(n, x, y) && Flow(n, y, x)
  }

  ghost predicate Zeroed(x: End) {
    && x.regs.w == x.regs.r == x.regs.wPos == x.regs.rPos == 0
    && x.sent == [] && x.got == []
  }

  /** Allowed to read and write: ESTABLISHED, and not already clearing for a reset of the peer. */
  predicate Communicating(x: End) {
    x.regs.state == Established && !x.phase.Cleared?
  }

  /** How far apart the two ends of the reset handshake can be, seen from `x`. */
  predicate Handshake(x: End, y: End) {
    && Sane(x)
    && (SawSync(x) ==>
          match x.regs.state
          case Established => y.regs.state == Sync
          case Sync => y.regs.state != Established
          case Ack => true)
    && (x.regs.state == Sync && x.phase in {Latched(Ack), Cleared(Established)} ==>
          y.regs.state == Ack && y.phase !in {Latched(Established), Latched(Ack)})
    && (x.regs.state == Ack && x.phase in {Latched(Established), Latched(Ack)} ==>
          y.regs.state != Sync)
  }

  ghost predicate Counters(n: Word, x: End, y: End) {
    && (x.regs.state == Ack || x.phase.Cleared? ==> Zeroed(x))
    && (Communicating(x) ==> Coherent(n, x, y))
  }

  ghost predicate Safe(n: Word, x: End, y: End) {
    Handshake(x, y) && Handshake(y, x) && Counters(n, x, y) && Counters(n, y, x)
  }

  ghost predicate Inv(s: Sys) {
    s.WellFormed() && Safe(s.n, s.a, s.b)
  }

  // ---- What the 32-bit checks mean in a coherent channel ----

  lemma CounterSteps(k: nat)
    ensures Inc(k % WORD_SIZE) == (k + 1) % WORD_SIZE
  {
  }

  lemma CheckArithmetic(n: Word, sent: nat, got: nat)
    requires got <= sent <= got + n
    ensures var w, r := sent % WORD_SIZE, got % WORD_SIZE;
            && Sub(w, r) == sent - got
            && (Full(n, w, r) <==> sent == got + n)
            && (Empty(n, w, r) <==> sent == got)
            && (n > 0 ==> (Sub(w, r) == Sub(n, 1) <==> sent == got + n - 1))
  {
    SubIsDifference(sent, got);
    assert n > 0 ==> Sub(n, 1) == n - 1;
  }

  lemma ChecksAreExact(n: Word, x: End, y: End)
    requires Coherent(n, x, y)
    ensures Full(n, x.regs.w, y.regs.r) <==> |x.sent| == |y.got| + n
    ensures Empty(n, y.regs.w, x.regs.r) <==> |y.sent| == |x.got|
    ensures WriterMustNotify(x.regs, y.regs) <==> |x.sent| == |y.got| + 1
    ensures n > 0 ==> (ReaderMustNotify(n, x.regs, y.regs) <==> |y.sent| == |x.got| + n - 1)
  {
    CheckArithmetic(n, |x.sent|, |y.got|);
    CheckArithmetic(n, |y.sent|, |x.got|);
  }

  // ---- The invariant is kept by every step ----

  lemma FillCoherent(n: Word, x: End, y: End, f: Frame)
    requires Fits(n, x) && Coherent(n, x, y) && |x.sent| < |y.got| + n
    ensures Coherent(n, x.(slots := x.slots[x.regs.wPos := f]), y)
  {
    var x' := x.(slots := x.slots[x.regs.wPos := f]);
    forall i | |y.got| <= i < |x.sent|
      ensures Pos(n, i) < |x'.slots| && x'.slots[Pos(n, i)] == x.sent[i]
    {
      OpenSlotIsFree(n, |y.got|, i, |x.sent|);
    }
  }

  lemma WriteCoherent(n: Word, x: End, y: End)
    requires Fits(n, x) && Coherent(n, x, y) && |x.sent| < |y.got| + n
    ensures Coherent(n, x.(regs := AdvanceTx(n, x.regs), sent := x.sent + [x.slots[x.regs.wPos]]), y)
  {
    NextPosFollows(n, |x.sent|);
    CounterSteps(|x.sent|);
  }

  lemma ReadCoherent(n: Word, x: End, y: End)
    requires Fits(n, x) && Fits(n, y) && Coherent(n, x, y) && |x.got| < |y.sent|
    ensures y.slots[x.regs.rPos] == y.sent[|x.got|]
    ensures Coherent(n, x.(regs := AdvanceRx(n, x.regs), got := x.got + [y.slots[x.regs.rPos]]), y)
  {
    NextPosFollows(n, |x.got|);
    CounterSteps(|x.got|);
    assert y.slots[Pos(n, |x.got|)] == y.sent[|x.got|];
  }

  /** `Coherent` reads neither the phase, nor the bell, nor what a client waits for. */
  lemma CoherentIgnoresControl(n: Word, x: End, y: End, x': End, y': End)
    requires Coherent(n, x, y)
    requires x'.regs == x.regs.(state := x'.regs.state) && (x'.slots, x'.sent, x'.got) == (x.slots, x.sent, x.got)
    requires y'.regs == y.regs.(state := y'.regs.state) && (y'.slots, y'.sent, y'.got) == (y.slots, y.sent, y.got)
    ensures Coherent(n, x', y') && Coherent(n, y', x')
  {
  }

  lemma CoherentSymmetric(n: Word, x: End, y: End)
    requires Coherent(n, x, y)
    ensures Coherent(n, y, x)
  {
  }

  lemma DataKeepsSafe(n: Word, x: End, y: End, op: Op)
    requires op.Fill? || op.WriteAdvance? || op.ReadAdvance?
    requires Fits(n, x) && Fits(n, y) && Safe(n, x, y) && Can(n, x, y, op)
    ensures var (x', y') := Do(n, x, y, op); Safe(n, x', y')
  {
    var (x', y') := Do(n, x, y, op);
    ChecksAreExact(n, x, y);
    match op {
      case Fill(f) =>
        FillCoherent(n, x, y, f);
        CoherentIgnoresControl(n, x.(slots := x'.slots), y, x', y');
      case WriteAdvance =>
        WriteCoherent(n, x, y);
        CoherentIgnoresControl(n, x.(regs := x'.regs, sent := x'.sent), y, x', y');
      case ReadAdvance =>
        ReadCoherent(n, x, y);
        CoherentIgnoresControl(n, x.(regs := x'.regs, got := x'.got), y, x', y');
    }
  }

  lemma ZeroedCoherent(n: Word, x: End, y: End)
    requires Zeroed(x) && Zeroed(y)
    ensures Coherent(n, x, y)
  {
  }

  lemma ControlHandshake(n: Word, x: End, y: End, op: Op)
    requires !op.Fill? && !op.WriteAdvance? && !op.ReadAdvance? && !op.Decide?
    requires op == Reset ==> !Establishing(y)
    requires Fits(n, x) && Fits(n, y) && Handshake(x, y) && Handshake(y, x) && Can(n, x, y, op)
    ensures var (x', y') := Do(n, x, y, op); Handshake(x', y') && Handshake(y', x')
  {
  }

  lemma ControlCounters(n: Word, x: End, y: End, op: Op)
    requires !op.Fill? && !op.WriteAdvance? && !op.ReadAdvance? && !op.Decide?
    requires op == Reset ==> !Establishing(y)
    requires Fits(n, x) && Fits(n, y) && Safe(n, x, y) && Can(n, x, y, op)
    ensures var (x', y') := Do(n, x, y, op); Counters(n, x', y') && Counters(n, y', x')
  {
    hide Coherent;
    var (x', y') := Do(n, x, y, op);
    if Zeroed(x) && Zeroed(y) {
      ZeroedCoherent(n, x, y);
    }
    if Coherent(n, x, y) {
      CoherentIgnoresControl(n, x, y, x', y');
    } else if Coherent(n, y, x) {
      CoherentIgnoresControl(n, y, x, y', x');
    }
  }

  lemma ControlKeepsSafe(n: Word, x: End, y: End, op: Op)
    requires !op.Fill? && !op.WriteAdvance? && !op.ReadAdvance? && !op.Decide?
    requires op == Reset ==> !Establishing(y)
    requires Fits(n, x) && Fits(n, y) && Safe(n, x, y) && Can(n, x, y, op)
    ensures var (x', y') := Do(n, x, y, op); Safe(n, x', y')
  {
    hide Counters, Handshake;
    ControlHandshake(n, x, y, op);
    ControlCounters(n, x, y, op);
  }

  lemma DecideHandshake(n: Word, x: End, y: End)
    requires Fits(n, x) && Fits(n, y) && Handshake(x, y) && Handshake(y, x) && Can(n, x, y, Decide)
    ensures var (x', y') := Do(n, x, y, Decide); Handshake(x', y') && Handshake(y', x')
  {
  }

  lemma DecideCounters(n: Word, x: End, y: End)
    requires Fits(n, x) && Fits(n, y) && Safe(n, x, y) && Can(n, x, y, Decide)
    ensures var (x', y') := Do(n, x, y, Decide); Counters(n, x', y') && Counters(n, y', x')
  {
    hide Coherent;
    var (x', y') := Do(n, x, y, Decide);
    if Zeroed(x') && Zeroed(y') {
      ZeroedCoherent(n, x', y');
      ZeroedCoherent(n, y', x');
    }
    if Coherent(n, x, y) && (Zeroed(x) || !MustClear(x.regs.state, x.phase.peer)) {
      CoherentIgnoresControl(n, x, y, x', y');
    }
    if Coherent(n, y, x) && (Zeroed(x) || !MustClear(x.regs.state, x.phase.peer)) {
      CoherentIgnoresControl(n, y, x, y', x');
    }
  }

  lemma DecideKeepsSafe(n: Word, x: End, y: End)
    requires Fits(n, x) && Fits(n, y) && Safe(n, x, y) && Can(n, x, y, Decide)
    ensures var (x', y') := Do(n, x, y, Decide); Safe(n, x', y')
  {
    hide Counters, Handshake;
    DecideHandshake(n, x, y);
    DecideCounters(n, x, y);
  }

  lemma StepKeepsSafe(n: Word, x: End, y: End, op: Op)
    requires Fits(n, x) && Fits(n, y) && Safe(n, x, y) && Can(n, x, y, op)
    requires op == Reset ==> !Establishing(y)
    ensures var (x', y') := Do(n, x, y, op); Safe(n, x', y')
  {
    match op
    case Fill(_) => DataKeepsSafe(n, x, y, op);
    case WriteAdvance => DataKeepsSafe(n, x, y, op);
    case ReadAdvance => DataKeepsSafe(n, x, y, op);
    case Decide => DecideKeepsSafe(n, x, y);
    case _ => ControlKeepsSafe(n, x, y, op);
  }

  lemma StepKeepsInv(s: Sys, e: Event)
    requires Inv(s) && Enabled(s, e) && Guarded(s, e)
    ensures Inv(Apply(s, e))
  {
    StepKeepsSafe(s.n, s.Own(e.side), s.Other(e.side), e.op);
  }

  // ---- Over whole runs ----

  /** A channel pair whose shared memory was zeroed: valid without a reset. */
  ghost predicate ZeroedStart(s: Sys) {
    && s.WellFormed()
    && (forall side | side in {A, B} ::
          var x := s.Own(side);
          Zeroed(x) && x.regs.state == Established && x.phase == Idle && !x.bell && x.wait == Awake)
  }

  /** Shared memory with arbitrary counters and frames, after both ends have called reset. */
  ghost predicate ResetStart(s: Sys) {
    && s.WellFormed()
    && (forall side | side in {A, B} ::
          var x := s.Own(side);
          x.regs.state == Sync && x.phase == Idle && x.bell && x.wait == Awake)
  }

  lemma StartsSafe(s: Sys)
    requires ZeroedStart(s) || ResetStart(s)
    ensures Inv(s)
  {
    assert s.Own(A) == s.a && s.Own(B) == s.b;
    if ZeroedStart(s) {
      ZeroedCoherent(s.n, s.a, s.b);
      ZeroedCoherent(s.n, s.b, s.a);
    }
  }

  lemma {:induction false} RunKeepsInv(s: Sys, evs: seq<Event>, t: Sys)
    requires Inv(s) && Leads(s, evs, t) && GuardedRun(s, evs)
    ensures Inv(t) && t.n == s.n
    decreases |evs|
  {
    if evs != [] {
      StepKeepsInv(s, evs[0]);
      RunKeepsInv(Apply(s, evs[0]), evs[1..], t);
    }
  }

  /** The reset protocol is safe over every guarded interleaving: an end in ACK owns only zeros,
      and once both ends are in ACK or ESTABLISHED both channels are coherent. */
  lemma ResetSafety(s: Sys, evs: seq<Event>, t: Sys)
    requires ZeroedStart(s) || ResetStart(s)
    requires Leads(s, evs, t) && GuardedRun(s, evs)
    ensures forall side | side in {A, B} :: t.Own(side).regs.state == Ack ==> Zeroed(t.Own(side))
    ensures t.a.regs.state != Sync && t.b.regs.state != Sync ==> Coherent(t.n, t.a, t.b)
  {
    StartsSafe(s);
    RunKeepsInv(s, evs, t);
    assert t.Own(A) == t.a && t.Own(B) == t.b;
    if t.a.regs.state != Sync && t.b.regs.state != Sync {
      if Zeroed(t.a) && Zeroed(t.b) {
        ZeroedCoherent(t.n, t.a, t.b);
      } else if Communicating(t.b) {
        CoherentSymmetric(t.n, t.b, t.a);
      }
    }
  }

  /** In-order delivery: what an end that may communicate has received is a prefix of what its peer
      sent since both cleared their counters, at most `n` frames are outstanding, the 32-bit
      emptiness and fullness tests are exact, and the frame offered for reading is the next one sent. */
  lemma InOrderDelivery(s: Sys, evs: seq<Event>, t: Sys, side: Side)
    requires ZeroedStart(s) || ResetStart(s)
    requires Leads(s, evs, t) && GuardedRun(s, evs)
    requires Communicating(t.Own(side))
    ensures var x, y := t.Own(side), t.Other(side);
            && x.got <= y.sent && |y.sent| - |x.got| <= t.n
            && y.got <= x.sent && |x.sent| - |y.got| <= t.n
            && (CheckRead(t.n, x.regs, y.regs) == NoMem <==> x.got == y.sent)
            && (CheckWrite(t.n, x.regs, y.regs) == NoMem <==> |x.sent| - |y.got| == t.n)
            && (CheckRead(t.n, x.regs, y.regs) == Ok ==>
                  && x.regs.rPos < |y.slots| && |x.got| < |y.sent|
                  && y.slots[x.regs.rPos] == y.sent[|x.got|])
  {
    StartsSafe(s);
    RunKeepsInv(s, evs, t);
    var x, y := t.Own(side), t.Other(side);
    ChecksAreExact(t.n, x, y);
    if |x.got| < |y.sent| {
      ReadCoherent(t.n, x, y);
    }
  }

  // ---- What a client is told ----

  /** The run contains a step of the end `side` after which it is ESTABLISHED, and was not before. */
  ghost predicate Opens(s: Sys, evs: seq<Event>, side: Side)
    requires s.WellFormed()
    decreases |evs|
  {
    evs != [] && Enabled(s, evs[0]) &&
    var t := Apply(s, evs[0]);
    || (s.Own(side).regs.state != Established && t.Own(side).regs.state == Established)
    || Opens(t, evs[1..], side)
  }

  /** From a reset on, every call of an end to read or to write is answered ConnReset until the end has published
      ESTABLISHED, whatever both ends do; and an end in ESTABLISHED is only ever told Ok or NoMem. */
  lemma {:induction false} ResetUntilOpened(s: Sys, evs: seq<Event>, t: Sys, side: Side)
    requires s.WellFormed() && s.Own(side).regs.state != Established && Leads(s, evs, t)
    ensures t.WellFormed()
    ensures var x, y := t.Own(side).regs, t.Other(side).regs;
            && (!Opens(s, evs, side) ==> CheckRead(t.n, x, y) == CheckWrite(t.n, x, y) == ConnReset)
            && (x.state == Established ==>
                  CheckRead(t.n, x, y) in {Ok, NoMem} && CheckWrite(t.n, x, y) in {Ok, NoMem})
    decreases |evs|
  {
    if evs == [] {
      CheckReadMeans(t.n, t.Own(side).regs, t.Other(side).regs);
      CheckWriteMeans(t.n, t.Own(side).regs, t.Other(side).regs);
    } else {
      var u := Apply(s, evs[0]);
      if u.Own(side).regs.state != Established {
        ResetUntilOpened(u, evs[1..], t, side);
      } else {
        RunWellFormed(u, evs[1..], t);
        CheckReadMeans(t.n, t.Own(side).regs, t.Other(side).regs);
        CheckWriteMeans(t.n, t.Own(side).regs, t.Other(side).regs);
      }
    }
  }

  lemma {:induction false} RunWellFormed(s: Sys, evs: seq<Event>, t: Sys)
    requires s.WellFormed() && Leads(s, evs, t)
    ensures t.WellFormed()
    decreases |evs|
  {
    if evs != [] {
      RunWellFormed(Apply(s, evs[0]), evs[1..], t);
    }
  }

  /** Only the notification handler opens an end, and only after it has seen its peer out of SYNC. */
  lemma OnlyHandlerOpens(s: Sys, e: Event, side: Side)
    requires s.WellFormed() && Enabled(s, e) && Sane(s.Own(side))
    requires s.Own(side).regs.state != Established && Apply(s, e).Own(side).regs.state == Established
    ensures e.side == side && (e.op == Decide || e.op == Publish)
    ensures e.op == Decide
        ==> s.Own(side).regs.state == Ack && s.Own(side).phase in {Latched(Ack), Latched(Established)}
    ensures e.op == Publish ==> s.Own(side).regs.state == Sync && s.Own(side).phase == Cleared(Established)
  {
  }
}
