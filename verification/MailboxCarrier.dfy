/** The RP2040 mailbox carrier as two cores taking interleaved steps. Every read and write of a shared
    mailbox field is a step of its own, so that torn reads would show. */
module MailboxCarrier {
  import opened Wire
  import opened Demux
  import opened MailboxSlot

  type CoreId = c: nat | c < 2

  /** Three stash slots; a frame for any other role is a transport failure. */
  const LAYOUT: Layout := Layout(3, Failed)

  datatype Pending = Pending(frame: Frame, published: bool)

  datatype Tx = Tx(role: Role, lane: Byte, session: Word, pending: Option<Pending>)

  /** Where a core is: before the flag check of a publish, filling the slot (`k` fields written), done
      with it; or before the flag check of a take, copying (`k` fields read), or rejecting a frame. */
  datatype Pc =
    | Idle
    | Checking(tx: nat) | Filling(tx: nat, k: nat) | Finishing(tx: nat)
    | Polling(rx: nat) | Copying(rx: nat, k: nat, copy: Copy) | Rejecting(rx: nat)

  /** One core. `lanes` is the lane last registered for each role attached here. The rest is history:
      `asked` the frame the last `poll_send` towards the mailbox was called with, `acked` the frames for
      which such a call answered Ok, `wire` the frames published, `taken` how many of the peer's were taken,
      `local` those stashed (and answered Ok) for this core by its own senders, `refused` and `invalid` the
      errors returned by `poll_recv`. */
  datatype Core = Core(txs: seq<Tx>, rxs: seq<Rx>, demux: Demux, lanes: map<Role, Byte>, pc: Pc,
                       asked: Option<Frame>, acked: seq<Frame>, wire: seq<Frame>, taken: nat, local: seq<Frame>,
                       refused: nat, invalid: nat)

  /** A published frame whose poll has not answered yet, if any. */
  function InProgress(core: Core): seq<Frame> {
    if core.pc.Finishing? && core.pc.tx < |core.txs| && core.txs[core.pc.tx].pending.Some?
    then [core.txs[core.pc.tx].pending.value.frame] else []
  }

  /** `slots[c]` is written by core `c`; `home[c]` are the roles whose endpoints are opened on core `c`. */
  datatype World = World(slots: seq<Slot>, cores: seq<Core>, home: seq<set<Role>>)

  datatype Step =
    | Send(core: CoreId, tx: nat, target: Role, frameLabel: Byte, lane: Byte, payload: seq<Byte>)
    | TxStep(core: CoreId)
    | Cancel(core: CoreId, tx: nat)
    | Recv(core: CoreId, rx: nat)
    | RxStep(core: CoreId)
    | Requeue(core: CoreId, rx: nat)

  // ---------------------------------------------------------------- the steps of one core

  /** The head of `poll_send`: registers the sender's lane, refuses self-sends and oversized frames,
      stashes for a role attached to this core on that role's lane, else leaves a pending frame. */
  function BeginSend(core: Core, i: nat, target: Role, frameLabel: Byte, lane: Byte, payload: seq<Byte>): Core
    requires i < |core.txs|
  {
    var tx := core.txs[i];
    var core := core.(lanes := core.lanes[tx.role := tx.lane]);
    if target == tx.role || |payload| > FRAME_BYTES then core
    else if target in core.lanes then
      var f := Frame(tx.session, tx.role, target, frameLabel, core.lanes[target], payload);
      var (demux, routed) := LocalSend(LAYOUT, core.demux, f);
      core.(demux := demux, local := if routed.Stashed? then core.local + [f] else core.local)
    else
      var f := Frame(tx.session, tx.role, target, frameLabel, lane, payload);
      if tx.pending.Some? then core.(pc := Checking(i), asked := Some(f))
      else core.(txs := core.txs[i := tx.(pending := Some(Pending(f, false)))], pc := Checking(i), asked := Some(f))
  }

  predicate GoesToMailbox(core: Core, tx: Tx, target: Role, payload: seq<Byte>) {
    target != tx.role && |payload| <= FRAME_BYTES && target !in core.lanes
  }

  predicate TxPcValid(core: Core, slot: Slot) {
    && (core.pc.Checking? || core.pc.Filling? || core.pc.Finishing? ==>
          && core.pc.tx < |core.txs| && core.txs[core.pc.tx].pending.Some?
          && Legal(core.txs[core.pc.tx].pending.value.frame))
    && (core.pc.Filling? ==> core.pc.k <= 6 + |core.txs[core.pc.tx].pending.value.frame.payload|)
    && |slot.bytes| == FRAME_BYTES
  }

  /** One access of `publish_mailbox_frame`, and the bookkeeping after it. */
  function AdvanceTx(core: Core, slot: Slot): (Core, Slot)
    requires TxPcValid(core, slot)
  {
    match core.pc
    case Checking(i) =>
      if core.txs[i].pending.value.published then (core.(pc := Finishing(i)), slot)
      else if slot.occupied then (core.(pc := Idle), slot)
      else (core.(pc := Filling(i, 0)), slot)
    case Filling(i, k) =>
      var f := core.txs[i].pending.value.frame;
      if k < 6 + |f.payload| then (core.(pc := Filling(i, k + 1)), WriteField(slot, f, k))
      else (core.(pc := Finishing(i), wire := core.wire + [f],
                  txs := core.txs[i := core.txs[i].(pending := Some(Pending(f, true)))]),
            slot.(occupied := true))
    case Finishing(i) =>
      (core.(txs := core.txs[i := core.txs[i].(pending := None)], pc := Idle,
             acked := if core.asked.Some? then core.acked + [core.asked.value] else core.acked), slot)
    case _ => (core, slot)
  }

  /** `cancel_send`: empties the mailbox if the pending frame was already published. */
  function DoCancel(core: Core, slot: Slot, i: nat): (Core, Slot)
    requires i < |core.txs|
  {
    var p := core.txs[i].pending;
    (core.(txs := core.txs[i := core.txs[i].(pending := None)]),
     if p.Some? && p.value.published then slot.(occupied := false) else slot)
  }

  function BeginRecv(core: Core, j: nat): Core
    requires j < |core.rxs|
  {
    var (demux, rx, start) := StartRecv(LAYOUT, core.demux, core.rxs[j]);
    core.(demux := demux, lanes := core.lanes[rx.role := rx.lane], rxs := core.rxs[j := rx],
          pc := if start.FromWire? then Polling(j) else Idle,
          refused := if start.Denied? then core.refused + 1 else core.refused)
  }

  predicate RxPcValid(core: Core, slot: Slot) {
    && (core.pc.Polling? || core.pc.Copying? || core.pc.Rejecting? ==> core.pc.rx < |core.rxs|)
    && (core.pc.Copying? && core.pc.k > 0 ==> core.pc.copy.len <= FRAME_BYTES)
    && |slot.bytes| == FRAME_BYTES
  }

  /** One access of `take_mailbox_frame`; clearing the flag also disposes of the frame. */
  function AdvanceRx(core: Core, slot: Slot): (Core, Slot)
    requires RxPcValid(core, slot)
  {
    match core.pc
    case Polling(j) => (core.(pc := if slot.occupied then Copying(j, 0, BLANK) else Idle), slot)
    case Copying(j, k, copy) =>
      if k < 6 + copy.len || k == 0 then
        var copy' := ReadField(slot, copy, k);
        if k == 0 && copy'.len > FRAME_BYTES then (core.(pc := Rejecting(j)), slot)
        else if k == 2 && copy'.sender == copy'.peer then (core.(pc := Rejecting(j)), slot)
        else (core.(pc := Copying(j, k + 1, copy')), slot)
      else (Dispose(core, j, FrameOf(copy)), slot.(occupied := false))
    case Rejecting(j) => (core.(pc := Idle, taken := core.taken + 1, invalid := core.invalid + 1), slot.(occupied := false))
    case _ => (core, slot)
  }

  /** What `poll_recv` does with the frame it took: hand it over, or stash it and poll on. */
  function Dispose(core: Core, j: nat, f: Frame): Core
    requires j < |core.rxs|
  {
    var rx := core.rxs[j];
    var (demux, routed) := Arrive(LAYOUT, core.demux, rx.role, rx.lane, f);
    var core' := core.(demux := demux, taken := core.taken + 1);
    match routed
    case Staged => core'.(rxs := core.rxs[j := rx.(staged := Some(f), delivered := true)], pc := Idle)
    case Stashed => core'.(pc := Polling(j))
    case Refused(_) => core'.(pc := Idle, refused := core.refused + 1)
  }

  // ---------------------------------------------------------------- steps and runs

  ghost predicate Shape(s: World) {
    |s.slots| == |s.cores| == |s.home| == 2 && WellFormed(s.slots[0]) && WellFormed(s.slots[1])
  }

  /** A core runs one poll at a time, and calls name endpoints opened on it; otherwise any step may come at
      any moment. */
  ghost predicate Enabled(s: World, step: Step) {
    && Shape(s)
    && var core := s.cores[step.core];
       match step
       case Send(_, i, _, _, _, _) => core.pc == Idle && i < |core.txs|
       case TxStep(c) => TxPcValid(core, s.slots[c])
       case Cancel(_, i) => core.pc == Idle && i < |core.txs|
       case Recv(_, j) => core.pc == Idle && j < |core.rxs|
       case RxStep(c) => RxPcValid(core, s.slots[1 - c])
       case Requeue(_, j) => core.pc == Idle && j < |core.rxs|
  }

  ghost function Next(s: World, step: Step): World
    requires Enabled(s, step)
  {
    var c := step.core;
    var core := s.cores[c];
    match step
    case Send(_, i, target, frameLabel, lane, payload) =>
      s.(cores := s.cores[c := BeginSend(core, i, target, frameLabel, lane, payload)])
    case TxStep(_) =>
      var (core', slot') := AdvanceTx(core, s.slots[c]);
      s.(slots := s.slots[c := slot'], cores := s.cores[c := core'])
    case Cancel(_, i) =>
      var (core', slot') := DoCancel(core, s.slots[c], i);
      s.(slots := s.slots[c := slot'], cores := s.cores[c := core'])
    case Recv(_, j) => s.(cores := s.cores[c := BeginRecv(core, j)])
    case RxStep(_) =>
      var (core', slot') := AdvanceRx(core, s.slots[1 - c]);
      s.(slots := s.slots[1 - c := slot'], cores := s.cores[c := core'])
    case Requeue(_, j) => s.(cores := s.cores[c := core.(rxs := core.rxs[j := RequeueRx(core.rxs[j])])])
  }

  /** A step as a function on all states: one that may not be taken changes nothing. */
  ghost function Advance(s: World, step: Step): World {
    if Enabled(s, step) then Next(s, step) else s
  }

  ghost predicate RunOf(s: World, steps: seq<Step>, end: World)
    decreases |steps|
  {
    if steps == [] then s == end
    else Enabled(s, steps[0]) && RunOf(Next(s, steps[0]), steps[1..], end)
  }

  ghost predicate Opened(core: Core, here: set<Role>) {
    && (forall i :: 0 <= i < |core.txs| ==> core.txs[i].role in here && core.txs[i].pending.None?)
    && (forall j :: 0 <= j < |core.rxs| ==> core.rxs[j].staged.None? && !core.rxs[j].requeued && !core.rxs[j].delivered)
    && core == Core(core.txs, core.rxs, Demux(map[], [], []), core.lanes, Idle, None, [], [], 0, [], 0, 0)
  }

  ghost predicate Init(s: World) {
    && s.slots == [EmptySlot(), EmptySlot()] && |s.cores| == |s.home| == 2 && s.home[0] !! s.home[1]
    && Opened(s.cores[0], s.home[0]) && Opened(s.cores[1], s.home[1])
  }

  // ---------------------------------------------------------------- the invariant

  /** The sender's side: while it fills the slot the flag is down and its writes so far are in place;
      between polls no pending frame has been published. */
  ghost predicate TxSide(core: Core, slot: Slot, here: set<Role>) {
    && TxPcValid(core, slot)
    && (forall i :: 0 <= i < |core.txs| ==> TxValid(core, core.txs[i], i, here))
    && (core.pc.Filling? ==>
          && !slot.occupied && !core.txs[core.pc.tx].pending.value.published
          && Filled(slot, core.txs[core.pc.tx].pending.value.frame, core.pc.k))
    && (core.pc.Checking? || core.pc.Filling? || core.pc.Finishing? ==> core.asked.Some?)
    && (forall f :: f in core.wire ==> Legal(f) && f.sender in here)
    && |core.wire| == |core.acked| + |InProgress(core)| && core.wire[|core.acked|..] == InProgress(core)
  }

  ghost predicate TxValid(core: Core, tx: Tx, i: nat, here: set<Role>) {
    && tx.role in here
    && (tx.pending.Some? ==>
          && Legal(tx.pending.value.frame) && tx.pending.value.frame.sender == tx.role
          && (tx.pending.value.published ==> core.pc == Finishing(i)))
  }

  /** The receiver's side: the slot is occupied exactly when one published frame has not been taken,
      it then shows that frame, and what is being copied is that frame. */
  ghost predicate RxSide(core: Core, slot: Slot, peerWire: seq<Frame>, here: set<Role>) {
    && RxPcValid(core, slot)
    && core.taken <= |peerWire| == core.taken + (if slot.occupied then 1 else 0)
    && (slot.occupied ==> Holds(slot, peerWire[core.taken]))
    && (core.pc.Copying? ==> slot.occupied && core.pc.k <= 6 + |peerWire[core.taken].payload| && Copied(core.pc.copy, peerWire[core.taken], core.pc.k))
    && !core.pc.Rejecting?
    && Inbox(LAYOUT, core.demux, peerWire[..core.taken], core.local, here)
    && (core.pc.Polling? || core.pc.Copying? ==>
          !IsWaiting(core.demux.stash, core.rxs[core.pc.rx].role, core.rxs[core.pc.rx].lane) && core.rxs[core.pc.rx].staged.None?)
    && |Lost(core.demux.arrived)| == core.refused && core.invalid == 0
    && (forall j :: 0 <= j < |core.rxs| ==> RxValid(core.demux, core.rxs[j]))
  }

  ghost predicate Inv(s: World) {
    && Shape(s) && s.home[0] !! s.home[1]
    && forall c: CoreId ::
         && TxSide(s.cores[c], s.slots[c], s.home[c])
         && RxSide(s.cores[c], s.slots[1 - c], s.cores[1 - c].wire, s.home[c])
  }

  lemma OpenedInv(core: Core, slot: Slot, here: set<Role>)
    requires Opened(core, here) && slot == EmptySlot()
    ensures TxSide(core, slot, here) && RxSide(core, slot, [], here)
  {}

  lemma InitInv(s: World)
    requires Init(s)
    ensures Inv(s)
  {
    hide TxSide, RxSide;
    forall c: CoreId ensures TxSide(s.cores[c], s.slots[c], s.home[c]) && RxSide(s.cores[c], s.slots[1 - c], s.cores[1 - c].wire, s.home[c]) {
      OpenedInv(s.cores[c], s.slots[c], s.home[c]);
    }
  }

  // ---------------------------------------------------------------- preservation

  lemma SendTx(core: Core, slot: Slot, here: set<Role>, i: nat, target: Role, frameLabel: Byte, lane: Byte, payload: seq<Byte>)
    requires TxSide(core, slot, here) && core.pc == Idle && i < |core.txs|
    ensures var core' := BeginSend(core, i, target, frameLabel, lane, payload);
            TxSide(core', slot, here) && core'.wire == core.wire
  {
    hide LocalSend, Filled;
    var core' := BeginSend(core, i, target, frameLabel, lane, payload);
    assert TxValid(core, core.txs[i], i, here);
    forall k | 0 <= k < |core'.txs| ensures TxValid(core', core'.txs[k], k, here) {
      assert TxValid(core, core.txs[k], k, here);
    }
  }

  lemma SendRx(core: Core, slot: Slot, peerWire: seq<Frame>, here: set<Role>, i: nat, target: Role, frameLabel: Byte, lane: Byte, payload: seq<Byte>)
    requires RxSide(core, slot, peerWire, here) && core.pc == Idle && i < |core.txs| && core.txs[i].role in here
    ensures RxSide(BeginSend(core, i, target, frameLabel, lane, payload), slot, peerWire, here)
  {
    hide LocalSend, Inbox, Lost, Holds, Copied;
    var core' := BeginSend(core, i, target, frameLabel, lane, payload);
    var tx := core.txs[i];
    var lanes := core.lanes[tx.role := tx.lane];
    if target in lanes {
      InboxLocalSend(LAYOUT, core.demux, peerWire[..core.taken], core.local, here,
                     Frame(tx.session, tx.role, target, frameLabel, lanes[target], payload));
    }
    forall j | 0 <= j < |core'.rxs| ensures RxValid(core'.demux, core'.rxs[j]) {
      assert RxValid(core.demux, core.rxs[j]);
    }
  }

  /** A write keeps what was filled before it, and raising the flag shows exactly the pending frame. */
  lemma TxStepTx(core: Core, slot: Slot, here: set<Role>)
    requires TxSide(core, slot, here)
    ensures var (core', slot') := AdvanceTx(core, slot);
            && TxSide(core', slot', here) && WellFormed(slot')
            && core' == core.(txs := core'.txs, pc := core'.pc, asked := core'.asked, acked := core'.acked, wire := core'.wire)
            && (if core'.wire == core.wire then slot' == slot || (!slot.occupied && !slot'.occupied)
                else !slot.occupied && slot'.occupied && |core'.wire| == |core.wire| + 1 && core.wire <= core'.wire && Holds(slot', core'.wire[|core.wire|]))
            && (core.pc.Idle? || core.pc.Polling? || core.pc.Copying? || core.pc.Rejecting? ==> core' == core && slot' == slot)
            && (!core.pc.Idle? && !core.pc.Polling? && !core.pc.Copying? && !core.pc.Rejecting? ==>
                  !core'.pc.Polling? && !core'.pc.Copying? && !core'.pc.Rejecting?)
  {
    hide Filled, WriteField;
    var (core', slot') := AdvanceTx(core, slot);
    if core.pc.Filling? {
      var f, k := core.txs[core.pc.tx].pending.value.frame, core.pc.k;
      if k < 6 + |f.payload| {
        FillStep(slot, f, k);
      } else {
        FlagKeepsFields(slot, f);
      }
    } else if core.pc.Checking? && core'.pc.Filling? {
      FillStart(slot, core.txs[core.pc.tx].pending.value.frame);
    }
    forall k | 0 <= k < |core'.txs| ensures TxValid(core', core'.txs[k], k, here) {
      assert TxValid(core, core.txs[k], k, here);
    }
  }

  lemma FillStart(slot: Slot, f: Frame)
    requires WellFormed(slot) && Legal(f)
    ensures Filled(slot, f, 0)
  {}

  lemma FlagKeepsFields(slot: Slot, f: Frame)
    requires WellFormed(slot) && Legal(f) && Filled(slot, f, 6 + |f.payload|)
    ensures Holds(slot.(occupied := true), f)
  {}

  /** The peer's sender changing the slot, or publishing into it, suits this core's receiver. */
  lemma TxStepRx(peer: Core, slot: Slot, slot': Slot, wire: seq<Frame>, wire': seq<Frame>, here: set<Role>)
    requires RxSide(peer, slot, wire, here) && WellFormed(slot')
    requires if wire' == wire then slot' == slot || (!slot.occupied && !slot'.occupied)
             else !slot.occupied && slot'.occupied && |wire'| == |wire| + 1 && wire <= wire' && Holds(slot', wire'[|wire|])
    ensures RxSide(peer, slot', wire', here)
  {
    hide Holds, Inbox, Lost, Copied;
    assert wire'[..peer.taken] == wire[..peer.taken];
  }

  lemma SameRx(core: Core, core': Core, slot: Slot, peerWire: seq<Frame>, here: set<Role>)
    requires RxSide(core, slot, peerWire, here) && core' == core.(txs := core'.txs, pc := core'.pc, asked := core'.asked, acked := core'.acked, wire := core'.wire)
    requires core'.pc == core.pc || !(core'.pc.Polling? || core'.pc.Copying? || core'.pc.Rejecting?)
    ensures RxSide(core', slot, peerWire, here)
  {
    hide Holds, Inbox, Lost, Copied;
  }

  /** Between polls `cancel_send` finds no published frame, so it leaves the mailbox alone. */
  lemma CancelTx(core: Core, slot: Slot, here: set<Role>, i: nat)
    requires TxSide(core, slot, here) && core.pc == Idle && i < |core.txs|
    ensures var (core', slot') := DoCancel(core, slot, i);
            slot' == slot && TxSide(core', slot, here) && core' == core.(txs := core'.txs)
  {
    hide Filled;
    var (core', _) := DoCancel(core, slot, i);
    assert TxValid(core, core.txs[i], i, here);
    forall k | 0 <= k < |core'.txs| ensures TxValid(core', core'.txs[k], k, here) {
      assert TxValid(core, core.txs[k], k, here);
    }
  }

  lemma RecvRx(core: Core, slot: Slot, peerWire: seq<Frame>, here: set<Role>, j: nat)
    requires RxSide(core, slot, peerWire, here) && core.pc == Idle && j < |core.rxs|
    ensures RxSide(BeginRecv(core, j), slot, peerWire, here)
  {
    hide Holds, Inbox, Lost, Copied, StartRecv;
    var core' := BeginRecv(core, j);
    assert RxValid(core.demux, core.rxs[j]);
    InboxStartRecv(LAYOUT, core.demux, peerWire[..core.taken], core.local, here, core.rxs[j]);
    forall k | 0 <= k < |core'.rxs| ensures RxValid(core'.demux, core'.rxs[k]) {
      assert RxValid(core.demux, core.rxs[k]);
    }
  }

  lemma RequeueRxSide(core: Core, slot: Slot, peerWire: seq<Frame>, here: set<Role>, j: nat)
    requires RxSide(core, slot, peerWire, here) && core.pc == Idle && j < |core.rxs|
    ensures RxSide(core.(rxs := core.rxs[j := RequeueRx(core.rxs[j])]), slot, peerWire, here)
  {
    hide Holds, Inbox, Lost, Copied;
    var core' := core.(rxs := core.rxs[j := RequeueRx(core.rxs[j])]);
    forall k | 0 <= k < |core'.rxs| ensures RxValid(core'.demux, core'.rxs[k]) {
      assert RxValid(core.demux, core.rxs[k]);
    }
  }

  lemma SameTx(core: Core, core': Core, slot: Slot, slot': Slot, here: set<Role>)
    requires TxSide(core, slot, here) && (core.pc.Idle? || core.pc.Polling? || core.pc.Copying? || core.pc.Rejecting?)
    requires core'.txs == core.txs && core'.wire == core.wire && core'.acked == core.acked && (core'.pc.Idle? || core'.pc.Polling? || core'.pc.Copying? || core'.pc.Rejecting?)
    requires slot' == slot
    ensures TxSide(core', slot', here)
  {
    forall k | 0 <= k < |core'.txs| ensures TxValid(core', core'.txs[k], k, here) {
      assert TxValid(core, core.txs[k], k, here);
    }
  }

  /** Lowering the flag suits the peer's sender: it is not in the middle of filling. */
  lemma FlagDownTx(peer: Core, slot: Slot, here: set<Role>)
    requires TxSide(peer, slot, here)
    ensures TxSide(peer, slot.(occupied := false), here)
  {}

  /** A read copies the next field of the published frame; the last step releases exactly that frame. */
  lemma RxStepRx(core: Core, slot: Slot, peerWire: seq<Frame>, here: set<Role>)
    requires RxSide(core, slot, peerWire, here)
    requires forall f :: f in peerWire ==> Legal(f) && f.sender !in here
    ensures var (core', slot') := AdvanceRx(core, slot);
            && RxSide(core', slot', peerWire, here)
            && (slot' == slot || slot' == slot.(occupied := false))
            && core'.txs == core.txs && core'.wire == core.wire && core'.acked == core.acked && core'.lanes == core.lanes
            && (core.pc.Polling? || core.pc.Copying? ==> core'.pc.Idle? || core'.pc.Polling? || core'.pc.Copying?)
            && (!(core.pc.Polling? || core.pc.Copying?) ==> core' == core && slot' == slot)
  {
    hide Holds, Inbox, Lost, Copied, ReadField, Arrive;
    if core.pc.Copying? {
      var f, k, copy := peerWire[core.taken], core.pc.k, core.pc.copy;
      assert f in peerWire;
      CopiedLen(copy, f, k);
      if k < 6 + |f.payload| {
        CopyStep(slot, f, copy, k);
        CopiedLen(ReadField(slot, copy, k), f, k + 1);
      } else {
        CopyDone(copy, f);
        DisposeRx(core, slot, peerWire, here);
      }
    } else if core.pc.Polling? {
      CopyStart(BLANK);
    }
  }

  lemma CopyStart(copy: Copy)
    requires copy == BLANK
    ensures forall f: Frame :: Copied(copy, f, 0)
  {}

  lemma CopiedLen(copy: Copy, f: Frame, k: nat)
    requires Copied(copy, f, k) && Legal(f)
    ensures k > 0 ==> copy.len == |f.payload| <= FRAME_BYTES
    ensures k > 2 ==> copy.sender != copy.peer
  {}

  lemma DisposeRx(core: Core, slot: Slot, peerWire: seq<Frame>, here: set<Role>)
    requires RxSide(core, slot, peerWire, here) && core.pc.Copying?
    requires forall f :: f in peerWire ==> f.sender !in here
    ensures RxSide(Dispose(core, core.pc.rx, peerWire[core.taken]), slot.(occupied := false), peerWire, here)
  {
    hide Holds, Inbox, Lost, Copied;
    var j, f := core.pc.rx, peerWire[core.taken];
    var core' := Dispose(core, j, f);
    var rx := core.rxs[j];
    assert f in peerWire;
    assert peerWire[..core.taken + 1] == peerWire[..core.taken] + [f];
    InboxArrive(LAYOUT, core.demux, peerWire[..core.taken], core.local, here, rx.role, rx.lane, f);
    forall k | 0 <= k < |core'.rxs| ensures RxValid(core'.demux, core'.rxs[k]) {
      assert RxValid(core.demux, core.rxs[k]);
    }
  }

  lemma StepInv(s: World, step: Step)
    requires Inv(s) && Enabled(s, step)
    ensures Inv(Next(s, step))
  {
    hide TxSide, RxSide, BeginSend, BeginRecv, AdvanceTx, AdvanceRx, DoCancel;
    var c: CoreId := step.core;
    var peer: CoreId := 1 - c;
    var s' := Next(s, step);
    var core := s.cores[c];
    assert TxSide(core, s.slots[c], s.home[c]) && RxSide(core, s.slots[peer], s.cores[peer].wire, s.home[c]);
    assert TxSide(s.cores[peer], s.slots[peer], s.home[peer]) && RxSide(s.cores[peer], s.slots[c], core.wire, s.home[peer]);
    match step
    case Send(_, i, target, frameLabel, lane, payload) =>
      RoleIsHome(core, s.slots[c], s.home[c], i);
      SendTx(core, s.slots[c], s.home[c], i, target, frameLabel, lane, payload);
      SendRx(core, s.slots[peer], s.cores[peer].wire, s.home[c], i, target, frameLabel, lane, payload);
    case TxStep(_) =>
      TxStepTx(core, s.slots[c], s.home[c]);
      SameRx(core, s'.cores[c], s.slots[peer], s.cores[peer].wire, s.home[c]);
      TxStepRx(s.cores[peer], s.slots[c], s'.slots[c], core.wire, s'.cores[c].wire, s.home[peer]);
    case Cancel(_, i) =>
      CancelTx(core, s.slots[c], s.home[c], i);
      SameRx(core, s'.cores[c], s.slots[peer], s.cores[peer].wire, s.home[c]);
      assert s'.slots[c] == s.slots[c];
    case Recv(_, j) =>
      RecvRx(core, s.slots[peer], s.cores[peer].wire, s.home[c], j);
      RecvFrame(core, j);
      SameTx(core, s'.cores[c], s.slots[c], s.slots[c], s.home[c]);
    case RxStep(_) =>
      WireIsForeign(s.cores[peer], s.slots[peer], s.home[peer], s.home[c]);
      RxStepRx(core, s.slots[peer], s.cores[peer].wire, s.home[c]);
      if core.pc.Polling? || core.pc.Copying? {
        SameTx(core, s'.cores[c], s.slots[c], s.slots[c], s.home[c]);
        FlagDownTx(s.cores[peer], s.slots[peer], s.home[peer]);
      }
    case Requeue(_, j) =>
      RequeueRxSide(core, s.slots[peer], s.cores[peer].wire, s.home[c], j);
      SameTx(core, s'.cores[c], s.slots[c], s.slots[c], s.home[c]);
  }

  lemma RecvFrame(core: Core, j: nat)
    requires j < |core.rxs|
    ensures var core' := BeginRecv(core, j);
            core'.txs == core.txs && core'.wire == core.wire && core'.acked == core.acked && (core'.pc.Idle? || core'.pc.Polling?)
  {}

  lemma RoleIsHome(core: Core, slot: Slot, here: set<Role>, i: nat)
    requires TxSide(core, slot, here) && i < |core.txs|
    ensures core.txs[i].role in here
  {
    assert TxValid(core, core.txs[i], i, here);
  }

  lemma WireIsForeign(peer: Core, slot: Slot, there: set<Role>, here: set<Role>)
    requires TxSide(peer, slot, there) && there !! here
    ensures forall f :: f in peer.wire ==> Legal(f) && f.sender !in here
  {}

  lemma {:induction false} RunInv(s: World, steps: seq<Step>, end: World)
    requires Inv(s) && RunOf(s, steps, end)
    ensures Inv(end)
    decreases |steps|
  {
    hide Inv, Enabled;
    if steps != [] {
      StepInv(s, steps[0]);
      RunInv(Next(s, steps[0]), steps[1..], end);
    }
  }
}
