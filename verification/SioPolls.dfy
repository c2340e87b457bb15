/** One whole poll of the word-stream carrier: the transport of a core as a class, its polls against
    specification functions, and how those functions relate to the interleaved carrier. */
module SioPolls {
  import opened Wire
  import opened SioCodec
  import opened SioDevice
  import opened Demux
  import opened Drains
  import opened Endpoints
  import SioCarrier

  // ---------------------------------------------------------------- what a poll does to the queues

  /** Pushing from `index` on until the frame is out or the FIFO is full. */
  function Burst(fifo: seq<Word>, ws: seq<Word>, index: nat, depth: nat): (r: (seq<Word>, nat))
    requires index <= |ws| && |fifo| <= depth
    ensures index <= r.1 <= |ws| && |r.0| <= depth
    ensures r.0 == fifo + ws[index .. r.1]
    ensures r.1 == |ws| || |r.0| == depth
    decreases |ws| - index
  {
    if index == |ws| || |fifo| == depth then (fifo, index)
    else
      assert fifo + [ws[index]] + ws[index + 1..] == fifo + ws[index..];
      Burst(fifo + [ws[index]], ws, index + 1, depth)
  }

  /** Popping until a frame for (role, lane) is complete, an error occurs, or the FIFO is empty. */
  function Drain(acc: seq<Word>, stash: Stash, fifo: seq<Word>, role: Role, lane: Byte): (r: (seq<Word>, Stash, seq<Word>, DrainEnd))
    requires Accumulating(acc)
    ensures Accumulating(r.0)
    decreases |fifo|
  {
    if fifo == [] then (acc, stash, fifo, Empty)
    else
      var (next, answer) := Push(acc, fifo[0]);
      match answer
      case Incomplete => Drain(next, stash, fifo[1..], role, lane)
      case Rejected(e) => (next, stash, fifo[1..], Failure(e))
      case Complete(f) =>
        var (stash', routed) := Route(SioCarrier.LAYOUT, stash, role, lane, f);
        match routed
        case Staged => (next, stash', fifo[1..], Got(f))
        case Stashed => Drain(next, stash', fifo[1..], role, lane)
        case Refused(e) => (next, stash', fifo[1..], Failure(e))
  }

  // ---------------------------------------------------------------- the classes

  lemma BurstStep(fifo: seq<Word>, ws: seq<Word>, index: nat, depth: nat)
    requires index <= |ws| && |fifo| <= depth
    ensures index == |ws| || |fifo| == depth ==> Burst(fifo, ws, index, depth) == (fifo, index)
    ensures index < |ws| && |fifo| < depth ==> Burst(fifo, ws, index, depth) == Burst(fifo + [ws[index]], ws, index + 1, depth)
  {}

  lemma WordOfFrame(f: Frame, index: nat)
    requires Legal(f) && index < |Words(f)|
    ensures Words(f)[index] == WordAt(f, index)
  {}

  /** Between the two states only the FIFO that core `c` writes may differ. */
  predicate OnlyFifo(d: Device, d': Device, c: CoreId)
    requires |d.fifo| == |d'.fifo| == 2
  {
    d' == d.(fifo := d.fifo[c := d'.fifo[c]])
  }

  lemma StashNeverStages(layout: Layout, stash: Stash, f: Frame)
    ensures !StashFrame(layout, stash, f).1.Staged?
  {}

  class SioTx {
    const role: Role
    const session: Word
    var sentFrames: nat
    var pending: Option<SioCarrier.Pending>

    constructor (role: Role, session: Word)
      ensures this.role == role && this.session == session && pending == None && sentFrames == 0
    {
      this.role, this.session := role, session;
      sentFrames, pending := 0, None;
    }

    ghost predicate Valid()
      reads this
    {
      && sentFrames <= 0xffff
      && (pending.Some? ==>
            && Legal(pending.value.frame) && pending.value.index <= TotalWords(pending.value.frame))
    }

    /** `sent_frames.saturating_add(1)` */
    method CountSent()
      requires Valid()
      modifies this`sentFrames
      ensures Valid() && sentFrames == if old(sentFrames) == 0xffff then 0xffff else old(sentFrames) + 1
    {
      if sentFrames < 0xffff { sentFrames := sentFrames + 1; }
    }
  }

  /** What `poll_recv` returns and leaves behind: (endpoint, accumulator, stash, FIFO, answer). */
  function RecvSpec(rx: Rx, acc: seq<Word>, stash: Stash, fifo: seq<Word>)
    : (Rx, seq<Word>, Stash, seq<Word>, RecvResult)
    requires Accumulating(acc)
  {
    if Redelivers(rx) then
      (rx.(requeued := false, delivered := true), acc, stash, fifo, Received(rx.staged.value.(peer := rx.role)))
    else
      var (stash', polled) := PollStash(SioCarrier.LAYOUT, stash, rx.role, rx.lane);
      var idle := Cleared(rx);
      match polled
      case Hit(f) => (idle.(staged := Some(f), delivered := true), acc, stash', fifo, Received(f.(peer := rx.role)))
      case OtherLane => (idle, acc, stash', fifo, RecvPending)
      case Refusal(e) => (idle, acc, stash', fifo, RecvFailed(e))
      case Nothing =>
        var (acc', stash'', fifo', end) := Drain(acc, stash', fifo, rx.role, rx.lane);
        match end
        case Empty => (idle, acc', stash'', fifo', RecvPending)
        case Failure(e) => (idle, acc', stash'', fifo', RecvFailed(e))
        case Got(f) => (idle.(staged := Some(f), delivered := true), acc', stash'', fifo', Received(f.(peer := rx.role)))
  }

  /** The transport as one core sees it: its accumulator, its stash and the SIO block. */
  class SioTransport {
    const core: CoreId
    const dev: SioBlock
    const acc: SioRxAccumulator
    const stash: RoleStash

    ghost const Repr: set<object> := dev.Repr + {acc, acc.words, stash.slots}

    ghost predicate Valid()
      reads this, Repr
    {
      && dev.Valid() && acc.Valid()
      && stash.Valid() && stash.Shape() == SioCarrier.LAYOUT
      && acc.words != dev.fifo0.words && acc.words != dev.fifo1.words
      && Accumulating(acc.Held())
    }

    constructor (core: CoreId, dev: SioBlock)
      requires dev.Valid()
      ensures Valid() && this.core == core && this.dev == dev && acc.Held() == [] && stash.Contents() == map[]
      ensures fresh(acc) && fresh(acc.words) && fresh(stash.slots)
    {
      this.core, this.dev := core, dev;
      acc := new SioRxAccumulator();
      stash := new RoleStash(SioCarrier.LAYOUT);
    }

    /** One `poll_send`. The role must be one the board assigns to a core (the source panics otherwise). */
    method PollSend(tx: SioTx, target: Role, frameLabel: Byte, lane: Byte, payload: seq<Byte>) returns (r: SendResult)
      requires Valid() && tx.Valid() && tx !in Repr
      requires target <= 2 || target == tx.role || |payload| > FRAME_BYTES
      modifies Repr, tx
      ensures Valid() && tx.Valid() && acc.Held() == old(acc.Held())
      // every call answered Ok is counted, up to 65535
      ensures tx.sentFrames == if r == Sent && old(tx.sentFrames) < 0xffff then old(tx.sentFrames) + 1 else old(tx.sentFrames)
      // a self-send is acknowledged without delivering anything; an oversized frame is rejected
      ensures target == tx.role ==> r == Sent && unchanged(tx`pending) && stash.Contents() == old(stash.Contents()) && dev.Abs() == old(dev.Abs())
      ensures target != tx.role && |payload| > FRAME_BYTES ==>
                r == SendFailed(Capacity) && unchanged(tx) && stash.Contents() == old(stash.Contents()) && dev.Abs() == old(dev.Abs())
      // a role on this core is served through the stash
      ensures target != tx.role && |payload| <= FRAME_BYTES && SioCarrier.LivesOn(target, core) ==>
                && unchanged(tx`pending) && dev.Abs() == old(dev.Abs())
                && var (stash', routed) := StashFrame(SioCarrier.LAYOUT, old(stash.Contents()), Frame(tx.session, tx.role, target, frameLabel, lane, payload));
                   stash.Contents() == stash' && r == if routed.Refused? then SendFailed(routed.error) else Sent
      // otherwise the pending frame, or a new one, goes out as far as the FIFO has room
      ensures SioCarrier.GoesToFifo(SioCarrier.Tx(tx.role, tx.session, old(tx.pending)), core, target, payload) ==>
                && stash.Contents() == old(stash.Contents())
                && var p := if old(tx.pending).Some? then old(tx.pending).value
                            else SioCarrier.Pending(Frame(tx.session, tx.role, target, frameLabel, lane, payload), 0);
                   var (fifo, index) := Burst(old(dev.Abs()).fifo[core], Words(p.frame), p.index, FIFO_DEPTH);
                   && dev.Abs() == old(dev.Abs()).(fifo := old(dev.Abs()).fifo[core := fifo])
                   && (r == Sent <==> index == |Words(p.frame)|) && (r == SendPending <==> index < |Words(p.frame)|)
                   && tx.pending == if r == Sent then None else Some(p.(index := index))
    {
      hide Words, TotalWords, Accumulating, Burst, StashFrame, WellFormed;
      if target == tx.role {
        tx.CountSent();
        return Sent;
      }
      if |payload| > FRAME_BYTES {
        return SendFailed(Capacity);
      }
      if SioCarrier.RoleCore(target) == core {
        r := SendLocal(tx, Frame(tx.session, tx.role, target, frameLabel, lane, payload));
        return;
      }
      if tx.pending.None? {
        tx.pending := Some(SioCarrier.Pending(Frame(tx.session, tx.role, target, frameLabel, lane, payload), 0));
      }
      r := PushPending(tx);
    }

    /** The stash branch of `poll_send`. */
    method SendLocal(tx: SioTx, f: Frame) returns (r: SendResult)
      requires Valid() && tx.Valid() && tx !in Repr
      modifies stash.slots, tx`sentFrames
      ensures tx.sentFrames == if r == Sent && old(tx.sentFrames) < 0xffff then old(tx.sentFrames) + 1 else old(tx.sentFrames)
      ensures Valid() && tx.Valid() && acc.Held() == old(acc.Held()) && dev.Abs() == old(dev.Abs())
      ensures var (stash', routed) := StashFrame(SioCarrier.LAYOUT, old(stash.Contents()), f);
              stash.Contents() == stash' && r == if routed.Refused? then SendFailed(routed.error) else Sent
    {
      hide StashFrame, Legal;
      var routed := stash.Put(f);
      if routed.Refused? {
        return SendFailed(routed.error);
      }
      tx.CountSent();
      r := Sent;
    }

    /** The push loop of `poll_send`. */
    method PushPending(tx: SioTx) returns (r: SendResult)
      requires Valid() && tx.Valid() && tx !in Repr && tx.pending.Some?
      modifies Repr, tx
      ensures tx.sentFrames == if r == Sent && old(tx.sentFrames) < 0xffff then old(tx.sentFrames) + 1 else old(tx.sentFrames)
      ensures Valid() && tx.Valid() && acc.Held() == old(acc.Held()) && stash.Contents() == old(stash.Contents())
      ensures var p := old(tx.pending).value;
              var (fifo, index) := Burst(old(dev.Abs()).fifo[core], Words(p.frame), p.index, FIFO_DEPTH);
              && dev.Abs() == old(dev.Abs()).(fifo := old(dev.Abs()).fifo[core := fifo])
              && (r == Sent <==> index == |Words(p.frame)|) && (r == SendPending <==> index < |Words(p.frame)|)
              && tx.pending == if r == Sent then None else Some(p.(index := index))
    {
      hide SioBlock.Valid, SioBlock.Abs, SioRxAccumulator.Valid, SioRxAccumulator.Held, RoleStash.Contents;
      hide Words, TotalWords, WordAt, Legal, Accumulating, Burst;
      SioCarrier.WordCount(tx.pending.value.frame);
      ghost var start, f := dev.Abs(), tx.pending.value.frame;
      ghost var whole := Burst(start.fifo[core], Words(f), tx.pending.value.index, FIFO_DEPTH);
      var p := tx.pending.value;
      while p.index < TotalWords(p.frame)
        invariant Valid() && acc.Held() == old(acc.Held()) && stash.Contents() == old(stash.Contents())
        invariant tx.pending == Some(p) && p.frame == f && unchanged(tx`sentFrames) && p.index <= TotalWords(f)
        invariant WellFormed(dev.Abs()) && OnlyFifo(start, dev.Abs(), core)
        invariant Burst(dev.Abs().fifo[core], Words(f), p.index, FIFO_DEPTH) == whole
        decreases TotalWords(p.frame) - p.index
      {
        var ok := PushRound(tx);
        if !ok {
          return SendPending;
        }
        p := tx.pending.value;
      }
      BurstStep(dev.Abs().fifo[core], Words(f), p.index, FIFO_DEPTH);
      tx.pending := None;
      tx.CountSent();
      r := Sent;
    }

    /** One round of the push loop: the next word goes out if there is room. */
    method PushRound(tx: SioTx) returns (ok: bool)
      requires Valid() && tx.Valid() && tx !in Repr && tx.pending.Some? && tx.pending.value.index < TotalWords(tx.pending.value.frame)
      modifies dev.Repr, tx`pending
      ensures Valid() && tx.Valid() && acc.Held() == old(acc.Held()) && stash.Contents() == old(stash.Contents())
      ensures WellFormed(old(dev.Abs())) && OnlyFifo(old(dev.Abs()), dev.Abs(), core)
      ensures var p := old(tx.pending).value;
              var ws := Words(p.frame);
              && p.index < |ws|
              && tx.pending == Some(if ok then p.(index := p.index + 1) else p)
              && Burst(old(dev.Abs()).fifo[core], ws, p.index, FIFO_DEPTH)
                 == if ok then Burst(dev.Abs().fifo[core], ws, p.index + 1, FIFO_DEPTH) else (dev.Abs().fifo[core], p.index)
    {
      hide Words, TotalWords, WordAt, Legal, Accumulating, Burst;
      var p := tx.pending.value;
      SioCarrier.WordCount(p.frame);
      BurstStep(dev.Abs().fifo[core], Words(p.frame), p.index, FIFO_DEPTH);
      ok := PushWordOf(p);
      if ok {
        tx.pending := Some(p.(index := p.index + 1));
      }
    }

    /** The push of one word. */
    method PushWordOf(p: SioCarrier.Pending) returns (ok: bool)
      requires Valid() && Legal(p.frame) && p.index < |Words(p.frame)|
      modifies dev.Repr
      ensures Valid() && acc.Held() == old(acc.Held()) && stash.Contents() == old(stash.Contents())
      ensures dev.Abs() == old(dev.Abs()).(fifo := old(dev.Abs()).fifo[core := dev.Abs().fifo[core]])
      ensures ok == (|old(dev.Abs()).fifo[core]| < FIFO_DEPTH)
      ensures dev.Abs().fifo[core] == if ok then old(dev.Abs()).fifo[core] + [Words(p.frame)[p.index]] else old(dev.Abs()).fifo[core]
    {
      hide Words, TotalWords, WordAt, Legal, Accumulating;
      ghost var before := dev.Abs();
      WordOfFrame(p.frame, p.index);
      ok := dev.TryPush(core, WordAt(p.frame, p.index));
      assert dev.Abs().fifo == before.fifo[core := dev.Abs().fifo[core]];
    }

    method CancelSend(tx: SioTx)
      modifies tx
      ensures tx.Valid() && tx.pending == None && tx.sentFrames == 0
    {
      tx.sentFrames := 0;
      tx.pending := None;
    }

    /** One `poll_recv` without an operational deadline. */
    method PollRecv(rx: SioRx) returns (r: RecvResult)
      requires Valid() && rx !in Repr
      modifies Repr, rx
      ensures Valid()
      ensures WellFormed(old(dev.Abs()))
      ensures (rx.Abs(), acc.Held(), stash.Contents(), dev.Abs().fifo[1 - core], r)
              == RecvSpec(old(rx.Abs()), old(acc.Held()), old(stash.Contents()), old(dev.Abs()).fifo[1 - core])
      ensures dev.Abs() == old(dev.Abs()).(fifo := dev.Abs().fifo) && dev.Abs().fifo[core] == old(dev.Abs()).fifo[core]
    {
      hide Drain, Accumulating, Push, PollStash, Cleared, SioBlock.Abs;
      var again := rx.Restart();
      if again {
        return Received(rx.Handed());
      }
      var polled := stash.Poll(rx.role, rx.lane);
      if polled.Hit? {
        rx.Stage(polled.frame);
        return Received(rx.Handed());
      }
      if polled.OtherLane? {
        return RecvPending;
      }
      if polled.Refusal? {
        return RecvFailed(polled.error);
      }
      var end := DrainFifo(rx.role, rx.lane);
      match end
      case Empty => r := RecvPending;
      case Failure(e) => r := RecvFailed(e);
      case Got(f) =>
        rx.Stage(f);
        r := Received(rx.Handed());
    }

    /** The pop loop of `poll_recv`. */
    method DrainFifo(role: Role, lane: Byte) returns (end: DrainEnd)
      requires Valid()
      modifies Repr
      ensures Valid()
      ensures WellFormed(old(dev.Abs()))
      ensures (acc.Held(), stash.Contents(), dev.Abs().fifo[1 - core], end)
              == Drain(old(acc.Held()), old(stash.Contents()), old(dev.Abs()).fifo[1 - core], role, lane)
      ensures dev.Abs() == old(dev.Abs()).(fifo := dev.Abs().fifo) && dev.Abs().fifo[core] == old(dev.Abs()).fifo[core]
    {
      hide Push, Accumulating, Route, Legal;
      ghost var start := dev.Abs();
      ghost var whole := Drain(acc.Held(), stash.Contents(), start.fifo[1 - core], role, lane);
      var more := true;
      end := Empty;
      while more
        invariant Valid() && WellFormed(dev.Abs())
        invariant dev.Abs() == start.(fifo := dev.Abs().fifo) && dev.Abs().fifo[core] == start.fifo[core]
        invariant if more then Drain(acc.Held(), stash.Contents(), dev.Abs().fifo[1 - core], role, lane) == whole
                          else (acc.Held(), stash.Contents(), dev.Abs().fifo[1 - core], end) == whole
        decreases more, |dev.Abs().fifo[1 - core]|
      {
        more, end := DrainStep(role, lane);
      }
    }

    /** One round of the pop loop: a word, and what becomes of the frame it completes. */
    method DrainStep(role: Role, lane: Byte) returns (more: bool, end: DrainEnd)
      requires Valid()
      modifies Repr
      ensures Valid()
      ensures WellFormed(old(dev.Abs())) && WellFormed(dev.Abs())
      ensures dev.Abs() == old(dev.Abs()).(fifo := dev.Abs().fifo) && dev.Abs().fifo[core] == old(dev.Abs()).fifo[core]
      ensures more ==> |dev.Abs().fifo[1 - core]| < |old(dev.Abs()).fifo[1 - core]|
      ensures Drain(old(acc.Held()), old(stash.Contents()), old(dev.Abs()).fifo[1 - core], role, lane)
              == if more then Drain(acc.Held(), stash.Contents(), dev.Abs().fifo[1 - core], role, lane)
                         else (acc.Held(), stash.Contents(), dev.Abs().fifo[1 - core], end)
    {
      hide Push, Accumulating, Legal, Route, RoleStash.Contents;
      more, end := false, Empty;
      ghost var before := dev.Abs();
      var word := dev.TryPop(core);
      if word.None? {
        return;
      }
      assert dev.Abs().fifo[1 - core] == before.fifo[1 - core][1..];
      var answer := acc.PushWord(word.value);
      assert stash.Contents() == old(stash.Contents());
      match answer
      case Incomplete => more := true;
      case Rejected(e) => end := Failure(e);
      case Complete(f) =>
        more, end := Dispose(f, role, lane);
    }

    /** What becomes of a complete frame: handed over, stashed, or refused. */
    method Dispose(f: Frame, role: Role, lane: Byte) returns (more: bool, end: DrainEnd)
      requires Valid()
      modifies stash.slots
      ensures Valid() && acc.Held() == old(acc.Held()) && dev.Abs() == old(dev.Abs())
      ensures var (stash', routed) := Route(SioCarrier.LAYOUT, old(stash.Contents()), role, lane, f);
              && stash.Contents() == stash' && more == routed.Stashed?
              && (!more ==> end == if routed.Staged? then Got(f) else Failure(routed.error))
    {
      hide StashFrame;
      if f.peer == role && f.lane == lane {
        return false, Got(f);
      }
      var routed := stash.Put(f);
      StashNeverStages(SioCarrier.LAYOUT, old(stash.Contents()), f);
      return routed.Stashed?, if routed.Refused? then Failure(routed.error) else Empty;
    }
  }
}
