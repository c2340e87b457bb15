/** When the mailbox carrier drops a frame: the guard of the step that drops it, over whole runs. */
module MailboxLosses {
  import opened Wire
  import opened Demux
  import opened MailboxSlot
  import opened MailboxCarrier
  import opened Runs

  /** The step lets core `c` finish taking a frame of the flow, on behalf of an endpoint the frame is not
      for, while its peer's slot is missing or taken. */
  ghost predicate Drops(s: World, step: Step, c: CoreId, t: Flow) {
    && Enabled(s, step) && step == RxStep(c) && s.cores[c].pc.Copying?
    && var pc, rx := s.cores[c].pc, s.cores[c].rxs[s.cores[c].pc.rx];
       var f := FrameOf(pc.copy);
       pc.k > 0 && pc.k >= 6 + pc.copy.len && OnFlow(f, t) && Refuses(LAYOUT, s.cores[c].demux.stash, rx.role, rx.lane, f)
  }

  ghost function Dropping(c: CoreId, t: Flow): (World, Step) -> bool {
    (s, step) => Drops(s, step, c, t)
  }

  ghost predicate NeverDrops(s: World, steps: seq<Step>, c: CoreId, t: Flow) {
    Never(Advance, Dropping(c, t), s, steps)
  }

  function LostOf(s: World, c: CoreId, t: Flow): seq<Frame>
    requires |s.cores| == 2
  {
    Project(Lost(s.cores[c].demux.arrived), t)
  }

  /** A step loses a frame of the flow exactly when it drops one. */
  lemma StepLoses(s: World, step: Step, c: CoreId, t: Flow)
    requires Enabled(s, step)
    ensures |Next(s, step).cores| == 2
    ensures |LostOf(Next(s, step), c, t)| == |LostOf(s, c, t)| + if Drops(s, step, c, t) then 1 else 0
  {
    hide Project, Lost, Collect, LocalSend, Refuses, Dispose, ReadField, WriteField, FrameOf, BeginSend;
    var core := s.cores[c];
    if step.core == c {
      match step
      case Send(_, i, target, frameLabel, lane, payload) =>
        SendLoses(core, i, target, frameLabel, lane, payload);
      case Recv(_, j) =>
        CollectKeepsLog(core.demux, core.rxs[j]);
      case RxStep(_) =>
        if core.pc.Copying? {
          DisposeLoses(core, core.pc.rx, FrameOf(core.pc.copy), t);
        }
      case _ =>
    }
  }

  lemma SendLoses(core: Core, i: nat, target: Role, frameLabel: Byte, lane: Byte, payload: seq<Byte>)
    requires i < |core.txs|
    ensures Lost(BeginSend(core, i, target, frameLabel, lane, payload).demux.arrived) == Lost(core.demux.arrived)
  {
    hide Lost, LocalSend;
    var tx := core.txs[i];
    var lanes := core.lanes[tx.role := tx.lane];
    if target in lanes {
      LocalSendLoses(LAYOUT, core.demux, Frame(tx.session, tx.role, target, frameLabel, lanes[target], payload));
    }
  }

  lemma CollectKeepsLog(d: Demux, rx: Rx)
    ensures StartRecv(LAYOUT, d, rx).0.arrived == d.arrived
  {
    hide PollStash;
  }

  lemma DisposeLoses(core: Core, j: nat, f: Frame, t: Flow)
    requires j < |core.rxs|
    ensures |Project(Lost(Dispose(core, j, f).demux.arrived), t)|
            == |Project(Lost(core.demux.arrived), t)|
               + if OnFlow(f, t) && Refuses(LAYOUT, core.demux.stash, core.rxs[j].role, core.rxs[j].lane, f) then 1 else 0
  {
    hide Project, Lost, Arrive, Refuses;
    ArriveLoses(LAYOUT, core.demux, core.rxs[j].role, core.rxs[j].lane, f, t);
  }

  /** Over every run: the run loses nothing more of the flow if and only if none of its steps drops a frame
      of it. */
  lemma {:induction false} RunLoses(s: World, steps: seq<Step>, end: World, c: CoreId, t: Flow)
    requires RunOf(s, steps, end) && |s.cores| == 2
    ensures |end.cores| == 2 && |LostOf(end, c, t)| >= |LostOf(s, c, t)|
    ensures |LostOf(end, c, t)| == |LostOf(s, c, t)| <==> NeverDrops(s, steps, c, t)
    decreases |steps|
  {
    hide Enabled, Next, Drops, LostOf;
    if steps != [] {
      StepLoses(s, steps[0], c, t);
      RunLoses(Next(s, steps[0]), steps[1..], end, c, t);
      NeverSplit(Advance, Dropping(c, t), s, steps);
    }
  }

  // ---------------------------------------------------------------- frames answered for by mistake

  /** The step answers Ok for a frame other than the one it published: the send was called with it while
      another one was pending. */
  ghost predicate Swaps(s: World, step: Step, c: CoreId) {
    && Enabled(s, step) && step == TxStep(c) && s.cores[c].pc.Finishing?
    && s.cores[c].asked != Some(s.cores[c].txs[s.cores[c].pc.tx].pending.value.frame)
  }

  ghost function Swapping(c: CoreId): (World, Step) -> bool {
    (s, step) => Swaps(s, step, c)
  }

  ghost predicate NeverSwaps(s: World, steps: seq<Step>, c: CoreId) {
    Never(Advance, Swapping(c), s, steps)
  }

  /** What was answered Ok is, so far, what was published. */
  predicate Honest(core: Core) {
    core.acked <= core.wire
  }

  /** A step keeps the answers honest exactly when it does not answer for another frame. */
  lemma StepSwaps(s: World, step: Step, c: CoreId)
    requires Inv(s) && Enabled(s, step)
    ensures |Next(s, step).cores| == 2
    ensures Honest(Next(s, step).cores[c]) <==> Honest(s.cores[c]) && !Swaps(s, step, c)
  {
    hide Inv, TxSide, BeginSend, BeginRecv, AdvanceTx, AdvanceRx, DoCancel, TxPcValid, RxPcValid;
    SenderSide(s, c);
    if step.core == c && step.TxStep? {
      TxStepSwaps(s, c);
    } else if step.core == c {
      KeepsAnswers(s, step);
    }
  }

  lemma SenderSide(s: World, c: CoreId)
    requires Inv(s)
    ensures Shape(s) && TxSide(s.cores[c], s.slots[c], s.home[c])
  {}

  lemma KeepsAnswers(s: World, step: Step)
    requires Enabled(s, step) && !step.TxStep?
    ensures var core, core' := s.cores[step.core], Next(s, step).cores[step.core];
            core'.acked == core.acked && core'.wire == core.wire
  {
    hide StartRecv, LocalSend, Arrive, ReadField, FrameOf;
  }

  lemma TxStepSwaps(s: World, c: CoreId)
    requires Enabled(s, TxStep(c)) && TxSide(s.cores[c], s.slots[c], s.home[c])
    ensures Honest(Next(s, TxStep(c)).cores[c]) <==> Honest(s.cores[c]) && !Swaps(s, TxStep(c), c)
  {
    hide Legal, Filled, WriteField;
    var core := s.cores[c];
    if core.pc.Finishing? {
      OneMoreAnswer(core.acked, core.wire, core.txs[core.pc.tx].pending.value.frame, core.asked.value);
    } else if core.pc.Filling? {
      OneMoreSent(core.acked, core.wire, core.txs[core.pc.tx].pending.value.frame);
    }
  }

  /** Over every run: what was answered Ok is what was published if and only if no step answered for
      another frame. */
  lemma {:induction false} RunSwaps(s: World, steps: seq<Step>, end: World, c: CoreId)
    requires Inv(s) && RunOf(s, steps, end)
    ensures Inv(end)
    ensures Honest(end.cores[c]) <==> Honest(s.cores[c]) && NeverSwaps(s, steps, c)
    decreases |steps|
  {
    hide Inv, Enabled, Next, Swaps, Honest;
    SenderSide(s, c);
    if steps != [] {
      StepInv(s, steps[0]);
      StepSwaps(s, steps[0], c);
      RunSwaps(Next(s, steps[0]), steps[1..], end, c);
      NeverSplit(Advance, Swapping(c), s, steps);
    }
    SenderSide(end, c);
  }

  /** The send goes to the mailbox and finds another frame pending than the one it is called with. */
  ghost predicate Switches(s: World, step: Step, c: CoreId) {
    && Enabled(s, step) && step.Send? && step.core == c
    && var core, tx := s.cores[c], s.cores[c].txs[step.tx];
       && GoesToMailbox(core, tx, step.target, step.payload) && tx.pending.Some?
       && tx.pending.value.frame != Frame(tx.session, tx.role, step.target, step.frameLabel, step.lane, step.payload)
  }

  ghost function Switching(c: CoreId): (World, Step) -> bool {
    (s, step) => Switches(s, step, c)
  }

  /** The send under way, if any, is for the frame it was called with. */
  predicate Matched(core: Core) {
    core.pc.Checking? || core.pc.Filling? || core.pc.Finishing? ==>
      core.pc.tx < |core.txs| && core.txs[core.pc.tx].pending.Some? && core.asked == Some(core.txs[core.pc.tx].pending.value.frame)
  }

  lemma StepMatches(s: World, step: Step, c: CoreId)
    requires Enabled(s, step) && Matched(s.cores[c]) && !Switches(s, step, c)
    ensures |Next(s, step).cores| == 2 && Matched(Next(s, step).cores[c]) && !Swaps(s, step, c)
  {
    hide StartRecv, LocalSend, Arrive, ReadField, WriteField, FrameOf, Legal;
    if step.core == c && step.Send? {
      SendMatches(s, step, c);
    }
  }

  lemma SendMatches(s: World, step: Step, c: CoreId)
    requires Enabled(s, step) && step.Send? && step.core == c && Matched(s.cores[c]) && !Switches(s, step, c)
    ensures Matched(Next(s, step).cores[c])
  {
    hide LocalSend, Legal;
  }

  /** As long as every caller repeats the frame it has pending, no answer is for another frame. */
  lemma {:induction false} RepeatingIsHonest(s: World, steps: seq<Step>, end: World, c: CoreId)
    requires RunOf(s, steps, end) && |s.cores| == 2 && Matched(s.cores[c])
    requires Never(Advance, Switching(c), s, steps)
    ensures NeverSwaps(s, steps, c)
    decreases |steps|
  {
    hide Enabled, Next, Swaps, Switches, Matched;
    if steps != [] {
      NeverSplit(Advance, Switching(c), s, steps);
      StepMatches(s, steps[0], c);
      RepeatingIsHonest(Next(s, steps[0]), steps[1..], end, c);
      NeverSplit(Advance, Swapping(c), s, steps);
    }
  }
}
