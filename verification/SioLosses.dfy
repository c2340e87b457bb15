/** When the word-stream carrier drops a frame: the guard of the step that drops it, over whole runs. */
module SioLosses {
  import opened Wire
  import opened SioCodec
  import opened SioDevice
  import opened Demux
  import opened SioCarrier
  import opened Runs

  /** The step makes core `c` read the last word of a frame of the flow, on behalf of an endpoint the frame
      is not for, while its peer's slot is missing or taken. */
  predicate Drops(s: World, step: Step, c: CoreId, t: Flow) {
    && Enabled(s, step) && step == RxStep(c) && s.cores[c].pc.Reading?
    && var rx := s.cores[c].rxs[s.cores[c].pc.rx];
       var answer := Push(s.cores[c].acc, ReadFifo(s.dev, c).1).1;
       answer.Complete? && OnFlow(answer.frame, t) && Refuses(LAYOUT, s.cores[c].demux.stash, rx.role, rx.lane, answer.frame)
  }

  function Dropping(c: CoreId, t: Flow): (World, Step) -> bool {
    (s, step) => Drops(s, step, c, t)
  }

  ghost predicate NeverDrops(s: World, steps: seq<Step>, c: CoreId, t: Flow) {
    Never(Advance, Dropping(c, t), s, steps)
  }

  function LostOf(s: World, c: CoreId, t: Flow): seq<Frame>
    requires |s.cores| == 2
  {
    Project(Lost(s.cores[c].demux.arrived), t)
  }

  /** A step loses a frame of the flow exactly when it drops one. */
  lemma StepLoses(s: World, step: Step, c: CoreId, t: Flow)
    requires Enabled(s, step)
    ensures |Next(s, step).cores| == 2
    ensures |LostOf(Next(s, step), c, t)| == |LostOf(s, c, t)| + if Drops(s, step, c, t) then 1 else 0
  {
    hide Push, Project, Lost, Collect, Arrive, LocalSend, Refuses;
    var core := s.cores[c];
    if step.core == c {
      match step
      case Send(_, i, target, frameLabel, lane, payload) =>
        LocalSendLoses(LAYOUT, core.demux, Frame(core.txs[i].session, core.txs[i].role, target, frameLabel, lane, payload));
      case Recv(_, j) =>
        CollectKeepsLog(core.demux, core.rxs[j]);
      case RxStep(_) =>
        if core.pc.Reading? {
          ReadLoses(core, core.pc.rx, ReadFifo(s.dev, c).1, t);
        }
      case _ =>
    }
  }

  lemma CollectKeepsLog(d: Demux, rx: Rx)
    ensures StartRecv(LAYOUT, d, rx).0.arrived == d.arrived
  {
    hide PollStash;
  }

  lemma ReadLoses(core: Core, j: nat, word: Word, t: Flow)
    requires j < |core.rxs| && Accumulating(core.acc)
    ensures var answer := Push(core.acc, word).1;
            |Project(Lost(TakeWord(core, j, word).demux.arrived), t)|
            == |Project(Lost(core.demux.arrived), t)|
               + if answer.Complete? && OnFlow(answer.frame, t) && Refuses(LAYOUT, core.demux.stash, core.rxs[j].role, core.rxs[j].lane, answer.frame) then 1 else 0
  {
    hide Push, Project, Lost, Arrive, Refuses, Accumulating;
    var answer := Push(core.acc, word).1;
    if answer.Complete? {
      ArriveLoses(LAYOUT, core.demux, core.rxs[j].role, core.rxs[j].lane, answer.frame, t);
    }
  }

  /** Over every run: the run loses nothing more of the flow if and only if none of its steps drops a frame
      of it. */
  lemma {:induction false} RunLoses(s: World, steps: seq<Step>, end: World, c: CoreId, t: Flow)
    requires RunOf(s, steps, end) && |s.cores| == 2
    ensures |end.cores| == 2 && |LostOf(end, c, t)| >= |LostOf(s, c, t)|
    ensures |LostOf(end, c, t)| == |LostOf(s, c, t)| <==> NeverDrops(s, steps, c, t)
    decreases |steps|
  {
    hide Possible, KeepsFramesWhole, Next, Drops, LostOf;
    if steps != [] {
      StepLoses(s, steps[0], c, t);
      RunLoses(Next(s, steps[0]), steps[1..], end, c, t);
      NeverSplit(Advance, Dropping(c, t), s, steps);
    }
  }

  // ---------------------------------------------------------------- frames answered for by mistake

  /** The step answers Ok for a frame other than the one it finished: the send was called with it while
      another one was pending. */
  predicate Swaps(s: World, step: Step, c: CoreId) {
    && Enabled(s, step) && step == TxStep(c) && s.cores[c].pc.Offering?
    && var p := s.cores[c].txs[s.cores[c].pc.tx].pending.value;
       p.index >= TotalWords(p.frame) && s.cores[c].asked != Some(p.frame)
  }

  function Swapping(c: CoreId): (World, Step) -> bool {
    (s, step) => Swaps(s, step, c)
  }

  ghost predicate NeverSwaps(s: World, steps: seq<Step>, c: CoreId) {
    Never(Advance, Swapping(c), s, steps)
  }

  /** What was answered Ok is, so far, what was put on the wire. */
  predicate Honest(core: Core) {
    core.acked <= core.wire
  }

  /** A step keeps the answers honest exactly when it does not answer for another frame. */
  lemma StepSwaps(s: World, step: Step, c: CoreId)
    requires Inv(s) && Enabled(s, step)
    ensures |Next(s, step).cores| == 2
    ensures Honest(Next(s, step).cores[c]) <==> Honest(s.cores[c]) && !Swaps(s, step, c)
  {
    hide Inv, Push, BeginRecv, TakeWord, LocalSend, TxSide;
    var core, core' := s.cores[c], Next(s, step).cores[c];
    assert TxSide(core, c) by { SenderSide(s, c); }
    if step.core == c && step.TxStep? {
      TxStepSwaps(s, c);
    } else if step.core == c {
      KeepsAnswers(s, step);
    }
  }

  lemma SenderSide(s: World, c: CoreId)
    requires Inv(s)
    ensures |s.cores| == 2 && TxSide(s.cores[c], c)
  {}

  lemma KeepsAnswers(s: World, step: Step)
    requires Possible(s, step) && !step.TxStep?
    ensures var core, core' := s.cores[step.core], Next(s, step).cores[step.core];
            core'.acked == core.acked && core'.wire == core.wire
  {
    hide Push, StartRecv, LocalSend, Arrive, Accumulating;
  }

  lemma TxStepSwaps(s: World, c: CoreId)
    requires Possible(s, TxStep(c)) && TxSide(s.cores[c], c)
    ensures Honest(Next(s, TxStep(c)).cores[c]) <==> Honest(s.cores[c]) && !Swaps(s, TxStep(c), c)
  {
    hide Words, TotalWords, WordAt, Legal, OfCore;
    var core := s.cores[c];
    var core' := Next(s, TxStep(c)).cores[c];
    if core.pc.Offering? {
      var p := core.txs[core.pc.tx].pending.value;
      assert TxValid(core, core.txs[core.pc.tx], core.pc.tx, c);
      WordCount(p.frame);
      if p.index >= TotalWords(p.frame) {
        OneMoreAnswer(core.acked, core.wire, p.frame, core.asked.value);
      }
    } else if core.pc.Writing? {
      OneMoreSent(core.acked, core.wire, core.txs[core.pc.tx].pending.value.frame);
    }
  }

  /** Over every run: what was answered Ok is what was put on the wire if and only if no step answered for
      another frame. */
  lemma {:induction false} RunSwaps(s: World, steps: seq<Step>, end: World, c: CoreId)
    requires Inv(s) && RunOf(s, steps, end)
    ensures Inv(end)
    ensures Honest(end.cores[c]) <==> Honest(s.cores[c]) && NeverSwaps(s, steps, c)
    decreases |steps|
  {
    hide Inv, Possible, KeepsFramesWhole, Next, Swaps, Honest;
    SenderSide(s, c);
    if steps != [] {
      StepInv(s, steps[0]);
      StepSwaps(s, steps[0], c);
      RunSwaps(Next(s, steps[0]), steps[1..], end, c);
      NeverSplit(Advance, Swapping(c), s, steps);
    }
    SenderSide(end, c);
  }

  /** The send goes to the FIFO and finds another frame pending than the one it is called with. */
  predicate Switches(s: World, step: Step, c: CoreId) {
    && Enabled(s, step) && step.Send? && step.core == c
    && var tx := s.cores[c].txs[step.tx];
       && GoesToFifo(tx, c, step.target, step.payload) && tx.pending.Some?
       && tx.pending.value.frame != Frame(tx.session, tx.role, step.target, step.frameLabel, step.lane, step.payload)
  }

  function Switching(c: CoreId): (World, Step) -> bool {
    (s, step) => Switches(s, step, c)
  }

  /** The send under way, if any, is for the frame it was called with. */
  predicate Matched(core: Core) {
    core.pc.Offering? || core.pc.Writing? ==>
      core.pc.tx < |core.txs| && core.txs[core.pc.tx].pending.Some? && core.asked == Some(core.txs[core.pc.tx].pending.value.frame)
  }

  lemma StepMatches(s: World, step: Step, c: CoreId)
    requires Enabled(s, step) && Matched(s.cores[c]) && !Switches(s, step, c)
    ensures |Next(s, step).cores| == 2 && Matched(Next(s, step).cores[c]) && !Swaps(s, step, c)
  {
    hide StartRecv, LocalSend, Arrive, Push, Accumulating, TotalWords, WordAt, Legal;
  }

  /** As long as every caller repeats the frame it has pending, no answer is for another frame. */
  lemma {:induction false} RepeatingIsHonest(s: World, steps: seq<Step>, end: World, c: CoreId)
    requires RunOf(s, steps, end) && |s.cores| == 2 && Matched(s.cores[c])
    requires Never(Advance, Switching(c), s, steps)
    ensures NeverSwaps(s, steps, c)
    decreases |steps|
  {
    hide Possible, KeepsFramesWhole, Next, Swaps, Switches, Matched;
    if steps != [] {
      NeverSplit(Advance, Switching(c), s, steps);
      StepMatches(s, steps[0], c);
      RepeatingIsHonest(Next(s, steps[0]), steps[1..], end, c);
      NeverSplit(Advance, Swapping(c), s, steps);
    }
  }
}
