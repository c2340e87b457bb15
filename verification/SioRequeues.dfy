/** What giving a frame back does on the word-stream carrier: the next poll hands it over again, once. */
module SioRequeues {
  import opened Wire
  import opened SioCodec
  import opened SioDevice
  import opened Demux
  import opened Endpoints
  import opened SioCarrier
  import opened SioPolls
  import opened SioGuarantees

  // ---------------------------------------------------------------- whole polls

  /** A whole poll of an endpoint that gave its frame back answers that frame under the endpoint's role, whatever
      the stash, the accumulator and the FIFO hold, and leaves all three alone. */
  lemma GivenBackIsHandedOver(role: Role, lane: Byte, f: Frame, delivered: bool, acc: seq<Word>, stash: Stash, fifo: seq<Word>)
    requires Accumulating(acc)
    ensures RequeueRx(Rx(role, lane, Some(f), false, delivered)) == Rx(role, lane, Some(f), true, false)
    ensures RecvSpec(Rx(role, lane, Some(f), true, false), acc, stash, fifo)
         == (Rx(role, lane, Some(f), false, true), acc, stash, fifo, Received(f.(peer := role)))
  {}

  /** A frame that was handed over and not given back is forgotten by the next poll, which goes on as if there had
      been none: it answers with what the stash or the FIFO gives, or not at all. */
  lemma HandedOverIsForgotten(role: Role, lane: Byte, f: Frame, acc: seq<Word>, stash: Stash, fifo: seq<Word>)
    requires Accumulating(acc)
    ensures RecvSpec(Rx(role, lane, Some(f), false, true), acc, stash, fifo) == RecvSpec(Rx(role, lane, None, false, false), acc, stash, fifo)
    ensures role !in stash && fifo == [] ==>
              RecvSpec(Rx(role, lane, Some(f), false, true), acc, stash, fifo) == (Rx(role, lane, None, false, false), acc, stash, [], RecvPending)
  {}

  lemma NothingToGiveBack(role: Role, lane: Byte, delivered: bool)
    ensures RequeueRx(Rx(role, lane, None, false, delivered)) == Rx(role, lane, None, false, delivered)
  {}

  // ---------------------------------------------------------------- the machine

  /** In every run: an endpoint that gives its frame back and polls again has it once more, handed over and not
      given back, at once and without touching the FIFO, and nothing else in the machine has changed. A second poll
      after that begins as if the endpoint had no frame. Giving back when there is nothing to give back
      changes nothing at all. */
  lemma RequeueThenRecv(start: World, before: seq<Step>, s: World, c: CoreId, j: nat)
    requires Init(start) && RunOf(start, before, s) && Enabled(s, Requeue(c, j))
    ensures s.cores[c].rxs[j].staged.None? ==> Next(s, Requeue(c, j)) == s
    ensures var rx, s1 := s.cores[c].rxs[j], Next(s, Requeue(c, j));
            rx.staged.Some? ==>
              && s1 == WithRx(s, c, j, rx.(requeued := true, delivered := false)) && Enabled(s1, Recv(c, j))
              && var s2 := Next(s1, Recv(c, j));
                 && s2 == WithRx(s, c, j, rx.(requeued := false, delivered := true))
                 && Enabled(s2, Recv(c, j)) && Next(s2, Recv(c, j)) == Next(WithRx(s, c, j, Unstaged(rx)), Recv(c, j))
  {
    hide Inv, Collect, Init, RunOf;
    Reachable(start, before, s);
    EndpointValid(s, c, j);
    var core, rx := s.cores[c], s.cores[c].rxs[j];
    assert core.rxs[j := rx] == core.rxs && s.cores[c := core] == s.cores;
    if rx.staged.Some? {
      var s1 := Next(s, Requeue(c, j));
      var s2, again := Next(s1, Recv(c, j)), rx.(requeued := false, delivered := true);
      assert s1.cores[c].rxs[j := again] == core.rxs[j := again];
      assert s1.cores[c := s2.cores[c]] == s.cores[c := s2.cores[c]];
      SettledIsUnstaged(s2, c, j);
      assert core.rxs[j := again][j := Unstaged(again)] == core.rxs[j := Unstaged(rx)];
      assert s2.cores[c := WithRx(s2, c, j, Unstaged(again)).cores[c]] == WithRx(s, c, j, Unstaged(rx)).cores;
    }
  }

  function WithRx(s: World, c: CoreId, j: nat, rx: Rx): World
    requires |s.cores| == 2 && j < |s.cores[c].rxs|
  {
    s.(cores := s.cores[c := s.cores[c].(rxs := s.cores[c].rxs[j := rx])])
  }

  /** The endpoint without its frame. */
  function Unstaged(rx: Rx): Rx {
    if rx.staged.None? then rx else Rx(rx.role, rx.lane, None, false, false)
  }

  lemma EndpointValid(s: World, c: CoreId, j: nat)
    requires Inv(s) && j < |s.cores[c].rxs|
    ensures RxValid(s.cores[c].demux, s.cores[c].rxs[j])
  {
    hide Inbox, Lost, TxSide, Stream;
    assert RxSide(s.cores[c], s.cores[1 - c].wire, c);
  }

  /** The endpoint has a frame to hand over again. */
  predicate GivenBack(rx: Rx) {
    rx.staged.Some? && rx.requeued && !rx.delivered
  }

  lemma StepKeepsGivenBack(s: World, step: Step, c: CoreId, j: nat)
    requires Inv(s) && Enabled(s, step) && step != Recv(c, j) && j < |s.cores[c].rxs|
    requires GivenBack(s.cores[c].rxs[j])
    ensures |Next(s, step).cores| == 2 && j < |Next(s, step).cores[c].rxs| && Next(s, step).cores[c].rxs[j] == s.cores[c].rxs[j]
  {
    hide PollStash, LocalSend, Arrive, Push, Accumulating, WordAt, TotalWords, Legal, Inbox, Lost, TxSide, Stream;
    assert RxSide(s.cores[c], s.cores[1 - c].wire, c);
  }

  /** Over every run: a frame given back stays so until its endpoint polls, and then it is handed over once more. */
  lemma {:induction false} GivenBackUntilPolled(s: World, steps: seq<Step>, end: World, c: CoreId, j: nat)
    requires Inv(s) && RunOf(s, steps, end) && j < |s.cores[c].rxs| && GivenBack(s.cores[c].rxs[j])
    requires forall k :: 0 <= k < |steps| ==> steps[k] != Recv(c, j)
    ensures |end.cores| == 2 && j < |end.cores[c].rxs| && end.cores[c].rxs[j] == s.cores[c].rxs[j]
    ensures Enabled(end, Recv(c, j)) ==>
              Next(end, Recv(c, j)) == WithRx(end, c, j, end.cores[c].rxs[j].(requeued := false, delivered := true))
    decreases |steps|
  {
    hide Inv, Possible, KeepsFramesWhole, Next, GivenBack, WithRx;
    if steps == [] {
      HandsOverAgain(end, c, j);
    } else {
      StepKeepsGivenBack(s, steps[0], c, j);
      StepInv(s, steps[0]);
      GivenBackUntilPolled(Next(s, steps[0]), steps[1..], end, c, j);
    }
  }

  lemma HandsOverAgain(s: World, c: CoreId, j: nat)
    requires Inv(s) && j < |s.cores[c].rxs| && GivenBack(s.cores[c].rxs[j])
    ensures |s.cores| == 2
    ensures Enabled(s, Recv(c, j)) ==>
              Next(s, Recv(c, j)) == WithRx(s, c, j, s.cores[c].rxs[j].(requeued := false, delivered := true))
  {
    hide Collect;
  }

  /** Nothing will be handed over again: the endpoint's frame was handed over and has not been given back. */
  predicate Settled(rx: Rx) {
    !rx.requeued && (rx.staged.Some? ==> rx.delivered)
  }

  lemma StepSettles(s: World, step: Step, c: CoreId, j: nat)
    requires Enabled(s, step) && step != Requeue(c, j) && j < |s.cores[c].rxs| && Settled(s.cores[c].rxs[j])
    ensures |Next(s, step).cores| == 2 && j < |Next(s, step).cores[c].rxs| && Settled(Next(s, step).cores[c].rxs[j])
  {
    hide PollStash, LocalSend, Arrive, Push, Accumulating, WordAt, TotalWords, Legal;
  }

  /** Over every run: as long as an endpoint gives nothing back, no poll hands a frame over a second time; each
      begins as if the endpoint had no frame. */
  lemma {:induction false} NothingTwice(s: World, steps: seq<Step>, end: World, c: CoreId, j: nat)
    requires RunOf(s, steps, end) && |s.cores| == 2 && j < |s.cores[c].rxs| && Settled(s.cores[c].rxs[j])
    requires forall k :: 0 <= k < |steps| ==> steps[k] != Requeue(c, j)
    ensures |end.cores| == 2 && j < |end.cores[c].rxs| && Settled(end.cores[c].rxs[j])
    ensures Enabled(end, Recv(c, j)) ==>
              Next(end, Recv(c, j)) == Next(WithRx(end, c, j, Unstaged(end.cores[c].rxs[j])), Recv(c, j))
    decreases |steps|
  {
    hide Possible, KeepsFramesWhole, Next, WithRx, Settled;
    if steps == [] {
      SettledIsUnstaged(end, c, j);
    } else {
      StepSettles(s, steps[0], c, j);
      NothingTwice(Next(s, steps[0]), steps[1..], end, c, j);
    }
  }

  lemma SettledIsUnstaged(s: World, c: CoreId, j: nat)
    requires |s.cores| == 2 && j < |s.cores[c].rxs| && Settled(s.cores[c].rxs[j])
    ensures Enabled(s, Recv(c, j)) ==>
              Next(s, Recv(c, j)) == Next(WithRx(s, c, j, Unstaged(s.cores[c].rxs[j])), Recv(c, j))
  {
    hide Collect;
    var core, rx := s.cores[c], s.cores[c].rxs[j];
    var core' := core.(rxs := core.rxs[j := Unstaged(rx)]);
    var next := BeginRecv(core, j);
    assert core'.rxs[j := next.rxs[j]] == core.rxs[j := next.rxs[j]];
    assert s.cores[c := core'][c := next] == s.cores[c := next];
  }
}
