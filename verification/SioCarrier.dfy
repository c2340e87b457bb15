/** The RP2350 word-stream carrier as two cores taking interleaved steps over the SIO block. Every
    status read and every data access is a step of its own. */
module SioCarrier {
  import opened Wire
  import opened SioCodec
  import opened SioDevice
  import opened Demux

  /** Sixteen stash slots; a role beyond them is a capacity error. */
  const LAYOUT: Layout := Layout(16, Capacity)

  /** Roles 0 and 2 live on core 0, role 1 on core 1; the source panics on any other. */
  function RoleCore(role: Role): CoreId
    requires role <= 2
  {
    if role == 1 then 1 else 0
  }

  predicate LivesOn(role: Role, c: CoreId) {
    role <= 2 && RoleCore(role) == c
  }

  function Residents(c: CoreId): (here: set<Role>)
    ensures forall role :: role in here <==> LivesOn(role, c)
  {
    if c == 0 then {0, 2} else {1}
  }

  // ---------------------------------------------------------------- the words in flight

  /** The words between a sender and a receiver are exactly the words of the frames not yet decoded:
      accumulated, then queued, then still to be pushed. */
  ghost predicate Streaming(acc: seq<Word>, fifo: seq<Word>, rest: seq<Word>, wire: seq<Frame>, received: nat) {
    && received <= |wire| && AllLegal(wire)
    && acc + fifo + rest == Flatten(wire[received..])
    && (acc != [] ==> received < |wire| && |acc| < TotalWords(wire[received]))
  }

  lemma StreamStart(acc: seq<Word>, fifo: seq<Word>, wire: seq<Frame>, received: nat, f: Frame)
    requires Streaming(acc, fifo, [], wire, received) && Legal(f)
    ensures Streaming(acc, fifo + [Words(f)[0]], Words(f)[1..], wire + [f], received)
  {
    hide Words, Legal, TotalWords;
    FlattenAppend(wire[received..], f);
    assert (wire + [f])[received..] == wire[received..] + [f];
    assert acc + (fifo + [Words(f)[0]]) + Words(f)[1..] == (acc + fifo + []) + Words(f);
  }

  lemma StreamPush(acc: seq<Word>, fifo: seq<Word>, rest: seq<Word>, wire: seq<Frame>, received: nat)
    requires Streaming(acc, fifo, rest, wire, received) && rest != []
    ensures Streaming(acc, fifo + [rest[0]], rest[1..], wire, received)
  {
    hide Flatten, TotalWords, AllLegal;
    assert acc + (fifo + [rest[0]]) + rest[1..] == acc + fifo + rest;
  }

  /** The receiver's next word always fits: it either extends the frame at the head of the stream or
      completes exactly that frame. */
  lemma StreamPop(acc: seq<Word>, fifo: seq<Word>, rest: seq<Word>, wire: seq<Frame>, received: nat)
    requires Streaming(acc, fifo, rest, wire, received) && fifo != []
    ensures received < |wire| && Accumulating(acc)
    ensures var (next, answer) := Push(acc, fifo[0]);
            && (answer == Incomplete || answer == Complete(wire[received]))
            && Streaming(next, fifo[1..], rest, wire, if answer == Incomplete then received else received + 1)
  {
    hide Legal, TotalWords, Words, Push;
    var tail := wire[received..];
    assert tail != [];
    var f := wire[received];
    var ws, n := Words(f), |acc|;
    assert tail[0] == f && tail[1..] == wire[received + 1..];
    var all := acc + fifo + rest;
    assert all == ws + Flatten(tail[1..]);
    assert |ws| > 0 by { WordCount(f); }
    assert n < |ws| by { WordCount(f); }
    assert acc == all[..n] == ws[..n];
    assert fifo[0] == all[n] == ws[n];
    PushNextWord(f, n);
    if n + 1 < |ws| {
      assert ws[..n + 1] + fifo[1..] + rest == all;
      WordCount(f);
    } else {
      assert [] + fifo[1..] + rest == all[n + 1..] == Flatten(tail[1..]);
    }
  }

  lemma WordCount(f: Frame)
    requires Legal(f)
    ensures 0 < |Words(f)| == TotalWords(f)
  {}

  // ---------------------------------------------------------------- endpoints and cores

  /** A frame being sent, and how many of its words have been pushed (`word_index`). */
  datatype Pending = Pending(frame: Frame, index: nat)

  datatype Tx = Tx(role: Role, session: Word, pending: Option<Pending>)

  /** Where a core is inside `poll_send` (Offering, Writing) or `poll_recv` (Polling, Reading). */
  datatype Pc = Idle | Offering(tx: nat) | Writing(tx: nat) | Polling(rx: nat) | Reading(rx: nat)

  /** One core. `active` is the endpoint in the middle of a frame. The rest is history: `asked` the frame
      the last `poll_send` towards the FIFO was called with, `acked` the frames for which such a call
      answered Ok, `wire` the frames begun on the FIFO, `received` how many frames of the peer were
      decoded, `local` the frames stashed (and answered Ok) for this core by its own senders, `refused` and
      `broken` the stash and decoding errors `poll_recv` returned. */
  datatype Core = Core(txs: seq<Tx>, rxs: seq<Rx>, acc: seq<Word>, demux: Demux, pc: Pc,
                       active: Option<nat>, asked: Option<Frame>, acked: seq<Frame>, wire: seq<Frame>, received: nat,
                       local: seq<Frame>, refused: nat, broken: nat)

  /** The frame in the middle of which the core's sender is, if any. */
  function InProgress(core: Core): seq<Frame> {
    if core.active.Some? && core.active.value < |core.txs| && core.txs[core.active.value].pending.Some?
    then [core.txs[core.active.value].pending.value.frame] else []
  }

  datatype World = World(dev: Device, cores: seq<Core>)

  datatype Step =
    | Send(core: CoreId, tx: nat, target: Role, frameLabel: Byte, lane: Byte, payload: seq<Byte>)
    | TxStep(core: CoreId)
    | Cancel(core: CoreId, tx: nat)
    | Recv(core: CoreId, rx: nat)
    | RxStep(core: CoreId)
    | Requeue(core: CoreId, rx: nat)

  // ---------------------------------------------------------------- sending

  predicate GoesToFifo(tx: Tx, c: CoreId, target: Role, payload: seq<Byte>) {
    target != tx.role && |payload| <= FRAME_BYTES && !LivesOn(target, c)
  }

  /** The head of `poll_send`: nothing for a self-send or an oversized frame, the stash for a role on
      this core, otherwise a pending frame (an unfinished one is resumed as it is). */
  function BeginSend(core: Core, c: CoreId, i: nat, target: Role, frameLabel: Byte, lane: Byte, payload: seq<Byte>): Core
    requires i < |core.txs|
  {
    var tx := core.txs[i];
    var f := Frame(tx.session, tx.role, target, frameLabel, lane, payload);
    if target == tx.role || |payload| > FRAME_BYTES then core
    else if LivesOn(target, c) then
      var (demux, routed) := LocalSend(LAYOUT, core.demux, f);
      core.(demux := demux, local := if routed.Stashed? then core.local + [f] else core.local)
    else if tx.pending.Some? then core.(pc := Offering(i), asked := Some(f))
    else core.(txs := core.txs[i := tx.(pending := Some(Pending(f, 0)))], pc := Offering(i), asked := Some(f))
  }

  /** One step of the push loop: finish the frame, read the status, or write the word. */
  function AdvanceTx(core: Core, dev: Device, c: CoreId): (Core, Device)
    requires WellFormed(dev) && TxPcValid(core)
  {
    match core.pc
    case Offering(i) =>
      var p := core.txs[i].pending.value;
      if p.index >= TotalWords(p.frame) then
        (core.(txs := core.txs[i := core.txs[i].(pending := None)], active := None, pc := Idle,
               acked := if core.asked.Some? then core.acked + [core.asked.value] else core.acked), dev)
      else if Writable(dev, c) then (core.(pc := Writing(i)), dev)
      else (core.(pc := Idle), dev)
    case Writing(i) =>
      var p := core.txs[i].pending.value;
      (core.(txs := core.txs[i := core.txs[i].(pending := Some(Pending(p.frame, p.index + 1)))],
             active := Some(i), pc := Offering(i),
             wire := if p.index == 0 then core.wire + [p.frame] else core.wire),
       WriteFifo(dev, c, WordAt(p.frame, p.index)))
    case _ => (core, dev)
  }

  predicate TxPcValid(core: Core) {
    (core.pc.Offering? || core.pc.Writing?) ==>
      && core.pc.tx < |core.txs|
      && core.txs[core.pc.tx].pending.Some?
      && Legal(core.txs[core.pc.tx].pending.value.frame)
  }

  // ---------------------------------------------------------------- receiving

  function BeginRecv(core: Core, j: nat): Core
    requires j < |core.rxs|
  {
    var (demux, rx, start) := StartRecv(LAYOUT, core.demux, core.rxs[j]);
    core.(demux := demux, rxs := core.rxs[j := rx], pc := if start.FromWire? then Polling(j) else Idle,
          refused := if start.Denied? then core.refused + 1 else core.refused)
  }

  /** One step of the pop loop: read the status, or read a word and act on it. An empty FIFO ends the
      poll (as pending, or at its deadline). */
  function AdvanceRx(core: Core, dev: Device, c: CoreId): (Core, Device)
    requires WellFormed(dev) && RxPcValid(core)
  {
    match core.pc
    case Polling(j) => (core.(pc := if Readable(dev, c) then Reading(j) else Idle), dev)
    case Reading(j) =>
      var (dev', word) := ReadFifo(dev, c);
      (TakeWord(core, j, word), dev')
    case _ => (core, dev)
  }

  function TakeWord(core: Core, j: nat, word: Word): Core
    requires j < |core.rxs| && Accumulating(core.acc)
  {
    var rx := core.rxs[j];
    var (acc, answer) := Push(core.acc, word);
    match answer
    case Incomplete => core.(acc := acc, pc := Polling(j))
    case Rejected(_) => core.(acc := acc, pc := Idle, broken := core.broken + 1)
    case Complete(f) =>
      var (demux, routed) := Arrive(LAYOUT, core.demux, rx.role, rx.lane, f);
      var core' := core.(acc := acc, demux := demux, received := core.received + 1);
      match routed
      case Staged => core'.(rxs := core.rxs[j := rx.(staged := Some(f), delivered := true)], pc := Idle)
      case Stashed => core'.(pc := Polling(j))
      case Refused(_) => core'.(pc := Idle, refused := core.refused + 1)
  }

  predicate RxPcValid(core: Core) {
    (core.pc.Polling? || core.pc.Reading?) ==> core.pc.rx < |core.rxs| && Accumulating(core.acc)
  }

  function DoRequeue(core: Core, j: nat): Core
    requires j < |core.rxs|
  {
    core.(rxs := core.rxs[j := RequeueRx(core.rxs[j])])
  }

  // ---------------------------------------------------------------- steps and runs

  /** When a step makes sense: a core runs one poll at a time, and calls name endpoints opened on it. */
  predicate Possible(s: World, step: Step) {
    && |s.cores| == 2 && WellFormed(s.dev)
    && var core := s.cores[step.core];
       match step
       case Send(_, i, target, _, _, payload) =>
         core.pc == Idle && i < |core.txs| && (target <= 2 || target == core.txs[i].role || |payload| > FRAME_BYTES)
       case TxStep(_) => TxPcValid(core)
       case Cancel(_, i) => core.pc == Idle && i < |core.txs|
       case Recv(_, j) => core.pc == Idle && j < |core.rxs|
       case RxStep(_) => RxPcValid(core)
       case Requeue(_, j) => core.pc == Idle && j < |core.rxs|
  }

  /** The two assumptions on callers: no endpoint begins on the FIFO while another endpoint of its core is
      mid-frame, and no send is cancelled once some of its words are on the wire. */
  predicate KeepsFramesWhole(core: Core, step: Step) {
    match step
    case Send(c, i, target, _, _, payload) =>
      i < |core.txs| && GoesToFifo(core.txs[i], c, target, payload) ==> core.active == None || core.active == Some(i)
    case Cancel(_, i) => core.active != Some(i)
    case _ => true
  }

  predicate Enabled(s: World, step: Step) {
    Possible(s, step) && KeepsFramesWhole(s.cores[step.core], step)
  }

  function Next(s: World, step: Step): World
    requires Possible(s, step)
  {
    var c := step.core;
    var core := s.cores[c];
    match step
    case Send(_, i, target, frameLabel, lane, payload) =>
      s.(cores := s.cores[c := BeginSend(core, c, i, target, frameLabel, lane, payload)])
    case TxStep(_) =>
      var (core', dev') := AdvanceTx(core, s.dev, c);
      World(dev', s.cores[c := core'])
    case Cancel(_, i) =>
      s.(cores := s.cores[c := core.(txs := core.txs[i := core.txs[i].(pending := None)])])
    case Recv(_, j) => s.(cores := s.cores[c := BeginRecv(core, j)])
    case RxStep(_) =>
      var (core', dev') := AdvanceRx(core, s.dev, c);
      World(dev', s.cores[c := core'])
    case Requeue(_, j) => s.(cores := s.cores[c := DoRequeue(core, j)])
  }

  /** A step as a function on all states: one that may not be taken changes nothing. */
  function Advance(s: World, step: Step): World {
    if Enabled(s, step) then Next(s, step) else s
  }

  ghost predicate RunOf(s: World, steps: seq<Step>, end: World)
    decreases |steps|
  {
    if steps == [] then s == end
    else Enabled(s, steps[0]) && RunOf(Next(s, steps[0]), steps[1..], end)
  }

  /** Freshly opened endpoints on an empty carrier. */
  ghost predicate Opened(core: Core, c: CoreId) {
    && (forall i :: 0 <= i < |core.txs| ==> LivesOn(core.txs[i].role, c) && core.txs[i].pending.None?)
    && (forall j :: 0 <= j < |core.rxs| ==> core.rxs[j].staged.None? && !core.rxs[j].requeued && !core.rxs[j].delivered)
    && core == Core(core.txs, core.rxs, [], Demux(map[], [], []), Idle, None, None, [], [], 0, [], 0, 0)
  }

  ghost predicate Init(s: World) {
    s.dev == RESET && |s.cores| == 2 && Opened(s.cores[0], 0) && Opened(s.cores[1], 1)
  }

  // ---------------------------------------------------------------- the invariant

  ghost predicate TxSide(core: Core, c: CoreId) {
    && TxPcValid(core)
    && (forall i :: 0 <= i < |core.txs| ==> TxValid(core, core.txs[i], i, c))
    && (core.active.Some? ==>
          && core.active.value < |core.txs|
          && core.txs[core.active.value].pending.Some?)
    && (core.pc.Offering? || core.pc.Writing? ==> core.active == None || core.active == Some(core.pc.tx))
    && (core.pc.Writing? ==> var p := core.txs[core.pc.tx].pending.value; p.index < TotalWords(p.frame))
    && (core.pc.Offering? || core.pc.Writing? ==> core.asked.Some?)
    && (forall f :: f in core.wire ==> OfCore(f, c))
    && |core.wire| == |core.acked| + |InProgress(core)| && core.wire[|core.acked|..] == InProgress(core)
  }

  ghost predicate OfCore(f: Frame, c: CoreId) {
    Legal(f) && LivesOn(f.sender, c)
  }

  ghost predicate TxValid(core: Core, tx: Tx, i: nat, c: CoreId) {
    && LivesOn(tx.role, c)
    && (tx.pending.Some? ==>
          && OfCore(tx.pending.value.frame, c)
          && tx.pending.value.index <= TotalWords(tx.pending.value.frame)
          && (tx.pending.value.index > 0 <==> core.active == Some(i)))
  }

  /** The words of the frame in progress that are still to be pushed. */
  ghost function Rest(core: Core, c: CoreId): seq<Word>
    requires TxSide(core, c)
  {
    if core.active.None? then []
    else
      var tx := core.txs[core.active.value];
      assert TxValid(core, tx, core.active.value, c);
      Words(tx.pending.value.frame)[tx.pending.value.index..]
  }

  ghost predicate RxSide(core: Core, peerWire: seq<Frame>, c: CoreId) {
    && RxPcValid(core)
    && (core.pc.Polling? || core.pc.Reading? ==>
          !IsWaiting(core.demux.stash, core.rxs[core.pc.rx].role, core.rxs[core.pc.rx].lane) && core.rxs[core.pc.rx].staged.None?)
    && |Lost(core.demux.arrived)| == core.refused && core.broken == 0
    && (forall j :: 0 <= j < |core.rxs| ==> RxValid(core.demux, core.rxs[j]))
    && core.received <= |peerWire|
    && Inbox(LAYOUT, core.demux, peerWire[..core.received], core.local, Residents(c))
  }

  ghost predicate Stream(s: World, c: CoreId)
    requires |s.cores| == 2 && WellFormed(s.dev) && TxSide(s.cores[c], c)
  {
    Streaming(s.cores[1 - c].acc, s.dev.fifo[c], Rest(s.cores[c], c), s.cores[c].wire, s.cores[1 - c].received)
  }

  ghost predicate Inv(s: World) {
    && |s.cores| == 2 && WellFormed(s.dev)
    && s.dev.wof == [false, false] && s.dev.roe == [false, false]
    && forall c: CoreId ::
         && TxSide(s.cores[c], c)
         && RxSide(s.cores[c], s.cores[1 - c].wire, c)
         && Stream(s, c)
         && (s.cores[c].pc.Writing? ==> Writable(s.dev, c))
         && (s.cores[c].pc.Reading? ==> Readable(s.dev, c))
  }

  lemma OpenedInv(core: Core, c: CoreId)
    requires Opened(core, c)
    ensures TxSide(core, c) && RxSide(core, [], c) && Rest(core, c) == []
  {}

  lemma InitInv(s: World)
    requires Init(s)
    ensures Inv(s)
  {
    hide TxSide, RxSide, Rest;
    forall c: CoreId ensures TxSide(s.cores[c], c) && RxSide(s.cores[c], s.cores[1 - c].wire, c) && Stream(s, c) {
      OpenedInv(s.cores[c], c);
      assert s.cores[c].wire[0..] == [] && s.cores[1 - c].wire == [];
    }
  }

  // ---------------------------------------------------------------- preservation, one core at a time

  lemma BeginSendTx(core: Core, c: CoreId, i: nat, target: Role, frameLabel: Byte, lane: Byte, payload: seq<Byte>)
    requires TxSide(core, c) && i < |core.txs| && core.pc == Idle
    requires target <= 2 || target == core.txs[i].role || |payload| > FRAME_BYTES
    requires GoesToFifo(core.txs[i], c, target, payload) ==> core.active == None || core.active == Some(i)
    ensures var core' := BeginSend(core, c, i, target, frameLabel, lane, payload);
            TxSide(core', c) && Rest(core', c) == Rest(core, c)
  {
    hide TotalWords, Words, LocalSend, Legal;
    var core' := BeginSend(core, c, i, target, frameLabel, lane, payload);
    assert TxValid(core, core.txs[i], i, c);
    if core'.pc.Offering? && core.txs[i].pending.None? {
      var f := Frame(core.txs[i].session, core.txs[i].role, target, frameLabel, lane, payload);
      FreshLegal(f);
      assert core.active != Some(i);
    }
    forall k | 0 <= k < |core'.txs| ensures TxValid(core', core'.txs[k], k, c) {
      assert TxValid(core, core.txs[k], k, c);
    }
  }

  lemma FreshLegal(f: Frame)
    requires f.sender != f.peer && |f.payload| <= FRAME_BYTES
    ensures Legal(f) && TotalWords(f) >= HEADER_WORDS
  {}

  lemma BeginSendRx(core: Core, peerWire: seq<Frame>, c: CoreId, i: nat, target: Role, frameLabel: Byte, lane: Byte, payload: seq<Byte>)
    requires TxSide(core, c) && RxSide(core, peerWire, c) && i < |core.txs| && core.pc == Idle
    ensures RxSide(BeginSend(core, c, i, target, frameLabel, lane, payload), peerWire, c)
  {
    hide Inbox, Lost, LocalSend;
    var core' := BeginSend(core, c, i, target, frameLabel, lane, payload);
    assert TxValid(core, core.txs[i], i, c);
    InboxLocalSend(LAYOUT, core.demux, peerWire[..core.received], core.local, Residents(c),
                   Frame(core.txs[i].session, core.txs[i].role, target, frameLabel, lane, payload));
    forall j | 0 <= j < |core'.rxs| ensures RxValid(core'.demux, core'.rxs[j]) {
      assert RxValid(core.demux, core.rxs[j]);
    }
  }

  lemma OfferInv(core: Core, dev: Device, c: CoreId)
    requires TxSide(core, c) && WellFormed(dev) && core.pc.Offering?
    ensures var (core', dev') := AdvanceTx(core, dev, c);
            && dev' == dev && TxSide(core', c) && Rest(core', c) == Rest(core, c)
            && (core'.pc.Writing? ==> Writable(dev, c))
  {
    hide TotalWords, Legal;
    var (core', _) := AdvanceTx(core, dev, c);
    var i := core.pc.tx;
    assert TxValid(core, core.txs[i], i, c);
    WordCount(core.txs[i].pending.value.frame);
    forall k | 0 <= k < |core'.txs| ensures TxValid(core', core'.txs[k], k, c) {
      assert TxValid(core, core.txs[k], k, c);
    }
  }

  /** Writing the next word starts a frame on the wire or carries the current one on. */
  lemma WriteInv(core: Core, dev: Device, c: CoreId, acc: seq<Word>, received: nat)
    requires TxSide(core, c) && WellFormed(dev) && core.pc.Writing? && Writable(dev, c)
    requires Streaming(acc, dev.fifo[c], Rest(core, c), core.wire, received)
    ensures var (core', dev') := AdvanceTx(core, dev, c);
            && TxSide(core', c) && core.wire <= core'.wire
            && dev' == WriteFifo(dev, c, WordAt(core.txs[core.pc.tx].pending.value.frame, core.txs[core.pc.tx].pending.value.index))
            && Streaming(acc, dev'.fifo[c], Rest(core', c), core'.wire, received)
  {
    hide TotalWords, Legal, Streaming, WordAt;
    var (core', dev') := AdvanceTx(core, dev, c);
    var i := core.pc.tx;
    assert TxValid(core, core.txs[i], i, c);
    var p := core.txs[i].pending.value;
    var ws := Words(p.frame);
    forall k | 0 <= k < |core'.txs| ensures TxValid(core', core'.txs[k], k, c) {
      assert TxValid(core, core.txs[k], k, c);
    }
    assert ws[p.index] == WordAt(p.frame, p.index);
    if p.index == 0 {
      StreamStart(acc, dev.fifo[c], core.wire, received, p.frame);
    } else {
      StreamPush(acc, dev.fifo[c], ws[p.index..], core.wire, received);
    }
  }

  lemma CancelInv(core: Core, c: CoreId, i: nat)
    requires TxSide(core, c) && core.pc == Idle && i < |core.txs| && core.active != Some(i)
    ensures var core' := core.(txs := core.txs[i := core.txs[i].(pending := None)]);
            TxSide(core', c) && Rest(core', c) == Rest(core, c)
  {
    hide TotalWords, Legal, Words;
    var core' := core.(txs := core.txs[i := core.txs[i].(pending := None)]);
    assert TxValid(core, core.txs[i], i, c);
    forall k | 0 <= k < |core'.txs| ensures TxValid(core', core'.txs[k], k, c) {
      assert TxValid(core, core.txs[k], k, c);
    }
  }

  lemma BeginRecvInv(core: Core, peerWire: seq<Frame>, c: CoreId, j: nat)
    requires RxSide(core, peerWire, c) && j < |core.rxs| && core.pc == Idle && Accumulating(core.acc)
    ensures RxSide(BeginRecv(core, j), peerWire, c)
  {
    hide Inbox, Lost, StartRecv, Accumulating;
    var core' := BeginRecv(core, j);
    var rx := core.rxs[j];
    assert RxValid(core.demux, rx);
    InboxStartRecv(LAYOUT, core.demux, peerWire[..core.received], core.local, Residents(c), rx);
    forall k | 0 <= k < |core'.rxs| ensures RxValid(core'.demux, core'.rxs[k]) {
      assert RxValid(core.demux, core.rxs[k]);
    }
  }

  lemma RequeueInv(core: Core, peerWire: seq<Frame>, c: CoreId, j: nat)
    requires RxSide(core, peerWire, c) && j < |core.rxs| && core.pc == Idle
    ensures RxSide(DoRequeue(core, j), peerWire, c)
  {
    hide Inbox, Lost;
    var core' := DoRequeue(core, j);
    forall k | 0 <= k < |core'.rxs| ensures RxValid(core'.demux, core'.rxs[k]) {
      assert RxValid(core.demux, core.rxs[k]);
    }
  }

  /** Only what receiving may change is changed. */
  predicate ReceiveOnly(core: Core, core': Core) {
    core' == core.(rxs := core'.rxs, acc := core'.acc, demux := core'.demux, pc := core'.pc,
                   received := core'.received, refused := core'.refused, broken := core'.broken)
  }

  lemma WireFrame(core: Core, c: CoreId, k: nat)
    requires TxSide(core, c) && k < |core.wire|
    ensures OfCore(core.wire[k], c)
  {
    hide TxValid, OfCore, TxPcValid;
    assert core.wire[k] in core.wire;
  }

  lemma ReadingRx(core: Core, peerWire: seq<Frame>, c: CoreId)
    requires RxSide(core, peerWire, c) && core.pc.Reading?
    ensures RxPcValid(core)
  {
    hide RxValid, Inbox, Lost, RxPcValid;
  }

  /** A decoded frame enters the demultiplexer as the next frame of the peer's wire. */
  lemma TakeWordInv(core: Core, peerWire: seq<Frame>, c: CoreId, j: nat, word: Word)
    requires RxSide(core, peerWire, c) && j < |core.rxs| && core.pc == Reading(j) && Accumulating(core.acc)
    requires core.received < |peerWire| && OfCore(peerWire[core.received], 1 - c)
    requires Push(core.acc, word).1 in {Incomplete, Complete(peerWire[core.received])}
    ensures RxSide(TakeWord(core, j, word), peerWire, c)
    ensures TakeWord(core, j, word).acc == Push(core.acc, word).0
    ensures TakeWord(core, j, word).received == if Push(core.acc, word).1.Complete? then core.received + 1 else core.received
    ensures TakeWord(core, j, word).pc in {Idle, Polling(j)}
    ensures ReceiveOnly(core, TakeWord(core, j, word))
  {
    hide Inbox, Lost, Push, Accumulating, Legal;
    var core' := TakeWord(core, j, word);
    var rx := core.rxs[j];
    var f := peerWire[core.received];
    assert peerWire[..core.received + 1] == peerWire[..core.received] + [f];
    InboxArrive(LAYOUT, core.demux, peerWire[..core.received], core.local, Residents(c), rx.role, rx.lane, f);
    forall k | 0 <= k < |core'.rxs| ensures RxValid(core'.demux, core'.rxs[k]) {
      assert RxValid(core.demux, core.rxs[k]);
    }
  }

  // ---------------------------------------------------------------- preservation, both cores together

  /** A step that leaves the device and the stream position of its core alone. */
  lemma LocalStep(s: World, c: CoreId, core': Core)
    requires Inv(s)
    requires TxSide(core', c) && RxSide(core', s.cores[1 - c].wire, c)
    requires Rest(core', c) == Rest(s.cores[c], c) && core'.wire == s.cores[c].wire
    requires core'.acc == s.cores[c].acc && core'.received == s.cores[c].received
    requires (core'.pc.Writing? ==> Writable(s.dev, c)) && (core'.pc.Reading? ==> Readable(s.dev, c))
    ensures Inv(s.(cores := s.cores[c := core']))
  {
    hide TxSide, RxSide, Streaming, Rest, Readable, Writable;
    var s' := s.(cores := s.cores[c := core']);
    var peer: CoreId := 1 - c;
    assert s'.cores[c] == core' && s'.cores[peer] == s.cores[peer];
    assert Stream(s, c) && Stream(s, peer);
    assert Stream(s', c) && Stream(s', peer);
  }

  /** The part of a core that sending looks at, and the part receiving looks at. */
  lemma SameTxSide(core: Core, core': Core, c: CoreId)
    requires TxSide(core, c) && ReceiveOnly(core, core')
    requires core'.pc.Idle? || core'.pc.Polling? || core'.pc.Reading?
    ensures TxSide(core', c) && Rest(core', c) == Rest(core, c)
  {
    hide TotalWords, Words, Legal;
    forall k | 0 <= k < |core'.txs| ensures TxValid(core', core'.txs[k], k, c) {
      assert TxValid(core, core.txs[k], k, c);
    }
  }

  lemma SameRxSide(core: Core, core': Core, peerWire: seq<Frame>, c: CoreId)
    requires RxSide(core, peerWire, c)
    requires core' == core.(txs := core'.txs, pc := core'.pc, active := core'.active, asked := core'.asked,
                            acked := core'.acked, wire := core'.wire)
    requires core'.pc.Idle? || core'.pc.Offering? || core'.pc.Writing?
    ensures RxSide(core', peerWire, c)
  {
    hide Inbox, Lost;
    forall k | 0 <= k < |core'.rxs| ensures RxValid(core'.demux, core'.rxs[k]) {
      assert RxValid(core.demux, core.rxs[k]);
    }
  }

  /** The peer's wire may grow: what this core has received is the same prefix of it. */
  lemma GrownWire(core: Core, peerWire: seq<Frame>, peerWire': seq<Frame>, c: CoreId)
    requires RxSide(core, peerWire, c) && peerWire <= peerWire'
    ensures RxSide(core, peerWire', c)
  {
    hide Inbox, Lost;
    assert peerWire'[..core.received] == peerWire[..core.received];
    forall k | 0 <= k < |core.rxs| ensures RxValid(core.demux, core.rxs[k]) {}
  }

  lemma TxStepInv(s: World, c: CoreId)
    requires Inv(s) && Enabled(s, TxStep(c))
    ensures Inv(Next(s, TxStep(c)))
  {
    hide TxSide, RxSide, Streaming, Rest;
    var core, peer := s.cores[c], s.cores[1 - c];
    var (core', dev') := AdvanceTx(core, s.dev, c);
    assert Stream(s, c) && Stream(s, 1 - c);
    if core.pc.Offering? {
      OfferInv(core, s.dev, c);
      SameRxSide(core, core', peer.wire, c);
      LocalStep(s, c, core');
    } else if core.pc.Writing? {
      var s' := World(dev', s.cores[c := core']);
      WriteInv(core, s.dev, c, peer.acc, peer.received);
      SameRxSide(core, core', peer.wire, c);
      GrownWire(peer, core.wire, core'.wire, 1 - c);
      assert Stream(s', c) && Stream(s', 1 - c);
    } else {
      assert s.cores[c := core'] == s.cores;
    }
  }

  lemma RxStepInv(s: World, c: CoreId)
    requires Inv(s) && Enabled(s, RxStep(c))
    ensures Inv(Next(s, RxStep(c)))
  {
    hide TxSide, RxSide, Streaming, Rest, TakeWord, Push, Accumulating, InProgress;
    var core, peer := s.cores[c], s.cores[1 - c];
    var (core', dev') := AdvanceRx(core, s.dev, c);
    assert Stream(s, c) && Stream(s, 1 - c);
    if core.pc.Polling? {
      PollStatusInv(core, core', peer.wire, c);
      SameTxSide(core, core', c);
      LocalStep(s, c, core');
    } else if core.pc.Reading? {
      var s' := World(dev', s.cores[c := core']);
      ReadInv(s, c);
      assert Stream(s', c) && Stream(s', 1 - c);
    } else {
      assert s.cores[c := core'] == s.cores;
    }
  }

  lemma PollStatusInv(core: Core, core': Core, peerWire: seq<Frame>, c: CoreId)
    requires RxSide(core, peerWire, c) && core.pc.Polling?
    requires core' == core.(pc := Idle) || core' == core.(pc := Reading(core.pc.rx))
    ensures RxSide(core', peerWire, c)
  {
    hide Inbox, Lost;
    forall k | 0 <= k < |core'.rxs| ensures RxValid(core'.demux, core'.rxs[k]) {
      assert RxValid(core.demux, core.rxs[k]);
    }
  }

  /** Reading a word keeps the stream equation in its direction and the demultiplexer in order. */
  lemma ReadInv(s: World, c: CoreId)
    requires Inv(s) && s.cores[c].pc.Reading?
    ensures var core, peer := s.cores[c], s.cores[1 - c];
            RxPcValid(core) &&
            var (core', dev') := AdvanceRx(core, s.dev, c);
            && TxSide(core', c) && Rest(core', c) == Rest(core, c) && core'.wire == core.wire
            && RxSide(core', peer.wire, c)
            && Streaming(core'.acc, dev'.fifo[1 - c], Rest(peer, 1 - c), peer.wire, core'.received)
            && dev' == s.dev.(fifo := dev'.fifo) && dev'.fifo == s.dev.fifo[1 - c := s.dev.fifo[1 - c][1..]]
            && (core'.pc.Idle? || core'.pc.Polling?)
  {
    hide Streaming, Rest, Push, Accumulating, TxSide, RxSide, TakeWord, OfCore;
    var peerId: CoreId := 1 - c;
    var core, peer := s.cores[c], s.cores[peerId];
    var word := s.dev.fifo[peerId][0];
    assert Stream(s, peerId);
    ReadingRx(core, peer.wire, c);
    StreamPop(core.acc, s.dev.fifo[peerId], Rest(peer, peerId), peer.wire, core.received);
    WireFrame(peer, peerId, core.received);
    TakeWordInv(core, peer.wire, c, core.pc.rx, word);
    SameTxSide(core, TakeWord(core, core.pc.rx, word), c);
  }

  lemma SendInv(s: World, step: Step)
    requires Inv(s) && step.Send? && Enabled(s, step)
    ensures Inv(Next(s, step))
  {
    hide TxSide, RxSide, Streaming, Rest, LocalSend;
    var c := step.core;
    assert Stream(s, c);
    BeginSendTx(s.cores[c], c, step.tx, step.target, step.frameLabel, step.lane, step.payload);
    BeginSendRx(s.cores[c], s.cores[1 - c].wire, c, step.tx, step.target, step.frameLabel, step.lane, step.payload);
    LocalStep(s, c, BeginSend(s.cores[c], c, step.tx, step.target, step.frameLabel, step.lane, step.payload));
  }

  /** What a core accumulates is always a proper prefix of a frame. */
  lemma StreamAccumulating(acc: seq<Word>, fifo: seq<Word>, rest: seq<Word>, wire: seq<Frame>, received: nat)
    requires Streaming(acc, fifo, rest, wire, received)
    ensures Accumulating(acc)
  {
    hide Words, TotalWords, Legal;
    if acc != [] {
      var f := wire[received];
      var tail := wire[received..];
      WordCount(f);
      assert tail[0] == f;
      assert acc == (acc + fifo + rest)[..|acc|] == (Words(f) + Flatten(tail[1..]))[..|acc|] == Words(f)[..|acc|];
      PushNextWord(f, |acc|);
    }
  }

  lemma RecvInv(s: World, step: Step)
    requires Inv(s) && (step.Recv? || step.Requeue?) && Enabled(s, step)
    ensures Inv(Next(s, step))
  {
    hide TxSide, RxSide, Streaming, Rest, Collect, Accumulating;
    var c, j := step.core, step.rx;
    var core, peer := s.cores[c], s.cores[1 - c];
    assert Stream(s, c) && Stream(s, 1 - c);
    StreamAccumulating(core.acc, s.dev.fifo[1 - c], Rest(peer, 1 - c), peer.wire, core.received);
    var core' := if step.Recv? then BeginRecv(core, j) else DoRequeue(core, j);
    if step.Recv? {
      BeginRecvInv(core, peer.wire, c, j);
    } else {
      RequeueInv(core, peer.wire, c, j);
    }
    SameTxSide(core, core', c);
    LocalStep(s, c, core');
  }

  lemma StepInv(s: World, step: Step)
    requires Inv(s) && Enabled(s, step)
    ensures Inv(Next(s, step))
  {
    hide TxSide, RxSide, Stream, AdvanceTx, AdvanceRx;
    match step
    case Send(_, _, _, _, _, _) => SendInv(s, step);
    case TxStep(c) => TxStepInv(s, c);
    case Cancel(c, i) => CancelStepInv(s, c, i);
    case Recv(_, _) => RecvInv(s, step);
    case RxStep(c) => RxStepInv(s, c);
    case Requeue(_, _) => RecvInv(s, step);
  }

  lemma CancelStepInv(s: World, c: CoreId, i: nat)
    requires Inv(s) && Enabled(s, Cancel(c, i))
    ensures Inv(Next(s, Cancel(c, i)))
  {
    hide TxSide, RxSide, Streaming, Rest;
    var core := s.cores[c];
    var core' := core.(txs := core.txs[i := core.txs[i].(pending := None)]);
    assert Stream(s, c);
    CancelInv(core, c, i);
    SameRxSide(core, core', s.cores[1 - c].wire, c);
    LocalStep(s, c, core');
  }

  lemma {:induction false} RunInv(s: World, steps: seq<Step>, end: World)
    requires Inv(s) && RunOf(s, steps, end)
    ensures Inv(end)
    decreases |steps|
  {
    hide Inv, Possible;
    if steps != [] {
      StepInv(s, steps[0]);
      RunInv(Next(s, steps[0]), steps[1..], end);
    }
  }
}
