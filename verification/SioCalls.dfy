/** A whole `poll_recv` of the word-stream carrier while the other core does anything at all. */
module SioCalls {
  import opened Wire
  import opened SioCodec
  import opened SioDevice
  import opened Demux
  import opened Drains
  import opened SioCarrier
  import opened SioGuarantees

  /** The core is in the pop loop of a poll of endpoint `j`. */
  predicate Polls(core: Core, j: nat) {
    core.pc == Polling(j) || core.pc == Reading(j)
  }

  function TallyOf(core: Core): Tally {
    Tally(core.received, core.demux.stash, core.demux.delivered, core.refused + core.broken)
  }

  /** The rest of a call on core `c`, the other core doing anything meanwhile: the call ends with these steps. */
  ghost predicate OneCall(s: World, steps: seq<Step>, end: World, c: CoreId)
    decreases |steps|
  {
    && |s.cores| == 2
    && if steps == [] then s == end && s.cores[c].pc == Idle
       else s.cores[c].pc != Idle && Enabled(s, steps[0]) && OneCall(Next(s, steps[0]), steps[1..], end, c)
  }

  /** A step of either core takes nothing, or the next frame the peer put on the wire. */
  lemma PollStep(s: World, step: Step, c: CoreId, j: nat)
    requires Inv(s) && Enabled(s, step) && Polls(s.cores[c], j)
    ensures |Next(s, step).cores| == 2 && j < |s.cores[c].rxs|
    ensures var core, core', wire, wire' := s.cores[c], Next(s, step).cores[c], s.cores[1 - c].wire, Next(s, step).cores[1 - c].wire;
            && wire <= wire' && (Polls(core', j) || core'.pc == Idle) && (Polls(core', j) ==> core'.rxs == core.rxs)
            && LoopStep(LAYOUT, TallyOf(core), TallyOf(core'), core.rxs[j].role, core.rxs[j].lane, wire, Polls(core', j))
  {
    hide Inv, Route, TakeWord, BeginSend, BeginRecv, TxPcValid, Accumulating, Streaming, TxSide, WordAt, TotalWords;
    LoopFacts(s, c, j);
    var core, peer := s.cores[c], s.cores[1 - c];
    if step.core != c {
      WireGrows(s, step);
    } else if step == RxStep(c) && core.pc.Reading? {
      assert Stream(s, 1 - c);
      TakeStep(core, s.dev.fifo[1 - c], j, Rest(peer, 1 - c), peer.wire);
    }
  }

  lemma LoopFacts(s: World, c: CoreId, j: nat)
    requires Inv(s) && Polls(s.cores[c], j)
    ensures |s.cores| == 2 && WellFormed(s.dev) && j < |s.cores[c].rxs| && TxSide(s.cores[1 - c], 1 - c) && Stream(s, 1 - c)
    ensures (s.cores[c].pc.Reading? ==> s.dev.fifo[1 - c] != []) && s.cores[c].received <= |s.cores[1 - c].wire|
  {
    hide Inbox, Lost, Streaming, Rest, TxValid, OfCore;
    var peer: CoreId := 1 - c;
    assert TxSide(s.cores[c], c) && TxSide(s.cores[peer], peer) && Stream(s, peer) && RxSide(s.cores[c], s.cores[peer].wire, c);
  }

  lemma WireGrows(s: World, step: Step)
    requires Enabled(s, step)
    ensures var wire, wire' := s.cores[step.core].wire, Next(s, step).cores[step.core].wire; wire <= wire'
  {
    hide StartRecv, LocalSend, Arrive, Push, Accumulating, WordAt, TotalWords;
  }

  lemma TakeStep(core: Core, fifo: seq<Word>, j: nat, rest: seq<Word>, wire: seq<Frame>)
    requires j < |core.rxs| && core.pc == Reading(j) && fifo != [] && Streaming(core.acc, fifo, rest, wire, core.received)
    ensures Accumulating(core.acc)
    ensures var core' := TakeWord(core, j, fifo[0]);
            && (Polls(core', j) || core'.pc == Idle) && (Polls(core', j) ==> core'.rxs == core.rxs)
            && LoopStep(LAYOUT, TallyOf(core), TallyOf(core'), core.rxs[j].role, core.rxs[j].lane, wire, Polls(core', j))
  {
    hide Push, Streaming, Route, Accumulating;
    StreamPop(core.acc, fifo, rest, wire, core.received);
  }

  /** A call in the loop ends exactly as the loop on whole frames does, run on the frames it took: the next
      ones of the peer's wire, of which any number may have been sent during the call. */
  lemma {:induction false} CallIsDrain(s: World, steps: seq<Step>, end: World, c: CoreId, j: nat)
    requires Inv(s) && OneCall(s, steps, end, c) && Polls(s.cores[c], j)
    ensures |end.cores| == 2 && j < |s.cores[c].rxs| && s.cores[1 - c].wire <= end.cores[1 - c].wire
    ensures var rx := s.cores[c].rxs[j];
            LoopEnds(LAYOUT, TallyOf(s.cores[c]), TallyOf(end.cores[c]), rx.role, rx.lane, end.cores[1 - c].wire)
    decreases |steps|
  {
    hide Inv, Possible, KeepsFramesWhole, Next, TakesFrame, LoopEnds;
    LoopFacts(s, c, j);
    PollStep(s, steps[0], c, j);
    StepInv(s, steps[0]);
    var s1, rx := Next(s, steps[0]), s.cores[c].rxs[j];
    if Polls(s1.cores[c], j) {
      CallIsDrain(s1, steps[1..], end, c, j);
      EndsLater(LAYOUT, TallyOf(s.cores[c]), TallyOf(s1.cores[c]), TallyOf(end.cores[c]), rx.role, rx.lane, end.cores[1 - c].wire);
    } else {
      assert end == s1;
      EndsAtOnce(LAYOUT, TallyOf(s.cores[c]), TallyOf(end.cores[c]), rx.role, rx.lane, end.cores[1 - c].wire);
    }
  }

  /** A whole `poll_recv` of endpoint `j`, from any reachable state and whatever the other core does during it,
      answers an error if and only if it gets as far as the FIFO and among the frames it takes there one
      collides: it comes before every frame for the endpoint, and its slot is missing, occupied, or claimed by
      an earlier one. */
  lemma CallFailsExactlyOnCollision(start: World, before: seq<Step>, s: World, steps: seq<Step>, end: World, c: CoreId, j: nat)
    requires Init(start) && RunOf(start, before, s) && Enabled(s, Recv(c, j)) && OneCall(Next(s, Recv(c, j)), steps, end, c)
    ensures |end.cores| == 2
    ensures var rx, wire := s.cores[c].rxs[j], end.cores[1 - c].wire;
            var tally, tally' := TallyOf(s.cores[c]), TallyOf(end.cores[c]);
            && tally.taken <= tally'.taken <= |wire| && tally.errors <= tally'.errors <= tally.errors + 1
            && (tally'.errors > tally.errors <==>
                  && !Redelivers(rx) && rx.role !in tally.stash
                  && Collides(LAYOUT, tally.stash, wire[tally.taken..tally'.taken], rx.role, rx.lane))
  {
    hide Inv, Collides, DrainFrames, RunOf, Init, BeginRecv;
    Reachable(start, before, s);
    StepInv(s, Recv(c, j));
    var s1, rx := Next(s, Recv(c, j)), s.cores[c].rxs[j];
    CallHead(s, c, j);
    if Polls(s1.cores[c], j) {
      CallIsDrain(s1, steps, end, c, j);
      LoopFails(LAYOUT, TallyOf(s1.cores[c]), TallyOf(end.cores[c]), rx.role, rx.lane, end.cores[1 - c].wire);
    } else {
      assert end == s1;
    }
  }

  /** The head of a poll never fails; it goes on to the FIFO unless a frame is given again or waits for the role. */
  lemma CallHead(s: World, c: CoreId, j: nat)
    requires Inv(s) && Enabled(s, Recv(c, j))
    ensures var core, core', rx := s.cores[c], BeginRecv(s.cores[c], j), s.cores[c].rxs[j];
            && TallyOf(core').taken == TallyOf(core).taken <= |s.cores[1 - c].wire| && TallyOf(core').errors == TallyOf(core).errors
            && (if !Redelivers(rx) && rx.role !in core.demux.stash then
                  && core'.pc == Polling(j) && TallyOf(core') == TallyOf(core)
                  && core'.rxs[j].role == rx.role && core'.rxs[j].lane == rx.lane
                else core'.pc == Idle)
  {
    hide TxSide, Stream, Lost, TxValid, OfCore;
    var core, peer: CoreId := s.cores[c], 1 - c;
    assert RxSide(core, s.cores[peer].wire, c);
    WrongLanePollChangesNothing(LAYOUT, core.demux.stash, core.rxs[j].role, core.rxs[j].lane);
  }
}
