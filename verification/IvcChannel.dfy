/**
 The Tegra IVC channel as one end sees it: register arithmetic on 32-bit counters, the
 checks of libtx2bpmp/src/ivc.c, and the endpoint object whose methods are the public API.
 */
module IvcChannel {

  const WORD_SIZE: nat := 0x1_0000_0000

  /** uint32_t. */
  type Word = n: nat | n < WORD_SIZE

  /** uint32_t subtraction and increment, with wrap-around. */
  function Sub(a: Word, b: Word): Word {
    (a - b) % WORD_SIZE
  }

  function Inc(a: Word): Word {
    (a + 1) % WORD_SIZE
  }

  datatype State = Established | Sync | Ack

  datatype Result = Ok | ConnReset | NoMem | Again

  /** Everything one end may write: its transmit counter and state, its receive counter, and its
      private ring positions. */
  datatype Regs = Regs(state: State, w: Word, r: Word, wPos: Word, rPos: Word)

  /** The emptiness test also answers true for an over-full channel. */
  predicate Empty(nframes: Word, w: Word, r: Word) {
    Sub(w, r) > nframes || w == r
  }

  predicate Full(nframes: Word, w: Word, r: Word) {
    Sub(w, r) >= nframes
  }

  function NextPos(nframes: Word, pos: Word): (next: Word)
    ensures pos < nframes ==> next < nframes
  {
    if pos == Sub(nframes, 1) then 0 else Inc(pos)
  }

  function CheckRead(nframes: Word, own: Regs, peer: Regs): Result {
    if own.state != Established then ConnReset
    else if Empty(nframes, peer.w, own.r) then NoMem
    else Ok
  }

  function CheckWrite(nframes: Word, own: Regs, peer: Regs): Result {
    if own.state != Established then ConnReset
    else if Full(nframes, own.w, peer.r) then NoMem
    else Ok
  }

  /** How many frames the two counts of a direction say are outstanding; more than the ring has slots if
      they do not fit. */
  function Outstanding(w: Word, r: Word): (count: Word)
    ensures (r + count) % WORD_SIZE == w
  {
    if w >= r then w - r else w + WORD_SIZE - r
  }

  /** A read is refused with ConnReset exactly outside of ESTABLISHED, and otherwise with NoMem exactly when
      nothing is outstanding, or more than the ring can hold. */
  lemma CheckReadMeans(nframes: Word, own: Regs, peer: Regs)
    ensures CheckRead(nframes, own, peer) == ConnReset <==> own.state != Established
    ensures own.state == Established ==>
              CheckRead(nframes, own, peer) == if 0 < Outstanding(peer.w, own.r) <= nframes then Ok else NoMem
  {
  }

  /** A write is refused with ConnReset exactly outside of ESTABLISHED, and otherwise with NoMem exactly when
      as many frames are outstanding as the ring can hold, or more. */
  lemma CheckWriteMeans(nframes: Word, own: Regs, peer: Regs)
    ensures CheckWrite(nframes, own, peer) == ConnReset <==> own.state != Established
    ensures own.state == Established ==>
              CheckWrite(nframes, own, peer) == if Outstanding(own.w, peer.r) < nframes then Ok else NoMem
  {
  }

  function AdvanceRx(nframes: Word, own: Regs): Regs {
    own.(r := Inc(own.r), rPos := NextPos(nframes, own.rPos))
  }

  function AdvanceTx(nframes: Word, own: Regs): Regs {
    own.(w := Inc(own.w), wPos := NextPos(nframes, own.wPos))
  }

  /** The reader tells the writer when the channel has just stopped being full. */
  predicate ReaderMustNotify(nframes: Word, own: Regs, peer: Regs) {
    Sub(peer.w, own.r) == Sub(nframes, 1)
  }

  /** The writer tells the reader when the channel has just stopped being empty. */
  predicate WriterMustNotify(own: Regs, peer: Regs) {
    Sub(own.w, peer.r) == 1
  }

  function ClearCounters(own: Regs): Regs {
    own.(w := 0, r := 0, wPos := 0, rPos := 0)
  }

  /** The state that handling a notification publishes, if any, given the peer state it read. */
  function Target(own: State, peer: State): State {
    if peer == Sync then Ack
    else if own == Sync && peer == Ack then Established
    else if own == Ack then Established
    else own
  }

  /** Whether the counters are cleared on the way. */
  predicate MustClear(own: State, peer: State) {
    peer == Sync || (own == Sync && peer == Ack)
  }

  predicate MustPublish(own: State, peer: State) {
    MustClear(own, peer) || own == Ack
  }

  /** One uninterrupted call of the notification handler. */
  function Notified(own: Regs, peer: State): Regs {
    (if MustClear(own.state, peer) then ClearCounters(own) else own).(state := Target(own.state, peer))
  }

  /** The shared header of one direction; `wCount` and `state` belong to the transmitting end and
      `rCount` to the receiving one. */
  class ChannelHeader {
    var wCount: Word
    var state: State
    var rCount: Word
  }

  class Endpoint {
    const rx: ChannelHeader
    const tx: ChannelHeader
    const nframes: Word
    var rPos: Word
    var wPos: Word
    var notifications: nat  // how often the notify callback has run

    ghost predicate Valid()
      reads this
    {
      && rx != tx
      && (if nframes == 0 then rPos == wPos == 0 else rPos < nframes && wPos < nframes)
    }

    ghost function Own(): Regs
      reads this, rx, tx
    {
      Regs(tx.state, tx.wCount, rx.rCount, wPos, rPos)
    }

    /** The peer's published values; its private positions are not visible from here. */
    ghost function Peer(): Regs
      reads this, rx, tx
    {
      Regs(rx.state, rx.wCount, tx.rCount, 0, 0)
    }

    constructor (rx: ChannelHeader, tx: ChannelHeader, nframes: Word)
      requires rx != tx
      ensures Valid() && this.rx == rx && this.tx == tx && this.nframes == nframes
      ensures rPos == 0 && wPos == 0 && notifications == 0
    {
      this.rx, this.tx, this.nframes := rx, tx, nframes;
      rPos, wPos, notifications := 0, 0, 0;
    }

    method ChannelEmpty(ch: ChannelHeader) returns (empty: bool)
      ensures empty == Empty(nframes, ch.wCount, ch.rCount)
      ensures !empty <==> 0 < Outstanding(ch.wCount, ch.rCount) <= nframes
    {
      var w, r := ch.wCount, ch.rCount;
      if Sub(w, r) > nframes {
        return true;
      }
      return w == r;
    }

    method DoCheckRead() returns (result: Result)
      ensures result == CheckRead(nframes, Own(), Peer())
      ensures result == ConnReset <==> tx.state != Established
      ensures tx.state == Established ==>
                result == if 0 < Outstanding(rx.wCount, rx.rCount) <= nframes then Ok else NoMem
    {
      if tx.state != Established {
        return ConnReset;
      }
      var empty := ChannelEmpty(rx);
      if !empty {
        return Ok;
      }
      empty := ChannelEmpty(rx);
      return if empty then NoMem else Ok;
    }

    method DoCheckWrite() returns (result: Result)
      ensures result == CheckWrite(nframes, Own(), Peer())
      ensures result == ConnReset <==> tx.state != Established
      ensures tx.state == Established ==>
                result == if Outstanding(tx.wCount, tx.rCount) < nframes then Ok else NoMem
    {
      if tx.state != Established {
        return ConnReset;
      }
      if !(Sub(tx.wCount, tx.rCount) >= nframes) {
        return Ok;
      }
      return if Sub(tx.wCount, tx.rCount) >= nframes then NoMem else Ok;
    }

    method Notify()
      modifies this`notifications
      ensures notifications == old(notifications) + 1
    {
      notifications := notifications + 1;
    }

    /** The number of the frame to receive from next, which is always one that exists. */
    method ReadGetNextFrame() returns (result: Result, frame: Word)
      requires Valid()
      ensures result == CheckRead(nframes, Own(), Peer())
      ensures result == ConnReset <==> tx.state != Established
      ensures tx.state == Established ==>
                result == if 0 < Outstanding(rx.wCount, rx.rCount) <= nframes then Ok else NoMem
      ensures result == Ok ==> frame == rPos < nframes
    {
      frame := 0;
      result := DoCheckRead();
      if result == Ok {
        frame := rPos;
      }
    }

    method WriteGetNextFrame() returns (result: Result, frame: Word)
      requires Valid()
      ensures result == CheckWrite(nframes, Own(), Peer())
      ensures result == ConnReset <==> tx.state != Established
      ensures tx.state == Established ==>
                result == if Outstanding(tx.wCount, tx.rCount) < nframes then Ok else NoMem
      ensures result == Ok ==> frame == wPos < nframes
    {
      frame := 0;
      result := DoCheckWrite();
      if result == Ok {
        frame := wPos;
      }
    }

    method ReadAdvance() returns (result: Result)
      requires Valid()
      modifies this, rx`rCount
      ensures Valid()
      ensures result == old(CheckRead(nframes, Own(), Peer()))
      ensures result == ConnReset <==> tx.state != Established
      ensures Own() == if result == Ok then AdvanceRx(nframes, old(Own())) else old(Own())
      ensures Peer() == old(Peer())
      ensures notifications - old(notifications)
           == if result == Ok && ReaderMustNotify(nframes, Own(), Peer()) then 1 else 0
    {
      result := DoCheckRead();
      if result != Ok {
        return;
      }
      rx.rCount := Inc(rx.rCount);
      if rPos == Sub(nframes, 1) {
        rPos := 0;
      } else {
        rPos := Inc(rPos);
      }
      if Sub(rx.wCount, rx.rCount) == Sub(nframes, 1) {
        Notify();
      }
    }

    method WriteAdvance() returns (result: Result)
      requires Valid()
      modifies this, tx`wCount
      ensures Valid()
      ensures result == old(CheckWrite(nframes, Own(), Peer()))
      ensures result == ConnReset <==> tx.state != Established
      ensures Own() == if result == Ok then AdvanceTx(nframes, old(Own())) else old(Own())
      ensures Peer() == old(Peer())
      ensures notifications - old(notifications)
           == if result == Ok && WriterMustNotify(Own(), Peer()) then 1 else 0
    {
      result := DoCheckWrite();
      if result != Ok {
        return;
      }
      tx.wCount := Inc(tx.wCount);
      if wPos == Sub(nframes, 1) {
        wPos := 0;
      } else {
        wPos := Inc(wPos);
      }
      if Sub(tx.wCount, tx.rCount) == 1 {
        Notify();
      }
    }

    method ChannelNotified() returns (result: Result)
      requires Valid()
      modifies this, tx`wCount, tx`state, rx`rCount
      ensures Valid()
      ensures Own() == Notified(old(Own()), old(Peer()).state)
      ensures Peer() == old(Peer())
      ensures result == if Own().state == Established then Ok else Again
      ensures notifications - old(notifications)
           == if MustPublish(old(Own()).state, old(Peer()).state) then 1 else 0
    {
      var peerState := rx.state;
      if peerState == Sync {
        tx.wCount, rx.rCount := 0, 0;
        wPos, rPos := 0, 0;
        tx.state := Ack;
        Notify();
      } else if tx.state == Sync && peerState == Ack {
        tx.wCount, rx.rCount := 0, 0;
        wPos, rPos := 0, 0;
        tx.state := Established;
        Notify();
      } else if tx.state == Ack {
        tx.state := Established;
        Notify();
      }
      return if tx.state != Established then Again else Ok;
    }

    method ChannelReset()
      requires Valid()
      modifies this`notifications, tx`state
      ensures Valid()
      ensures Own() == old(Own()).(state := Sync) && Peer() == old(Peer())
      ensures notifications == old(notifications) + 1
    {
      tx.state := Sync;
      Notify();
    }
  }
}
