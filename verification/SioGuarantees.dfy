/** What the word-stream carrier guarantees over every run of the two cores. */
module SioGuarantees {
  import opened Wire
  import opened SioCodec
  import opened SioDevice
  import opened Demux
  import opened SioCarrier
  import opened SioLosses

  lemma Reachable(start: World, steps: seq<Step>, s: World)
    requires Init(start) && RunOf(start, steps, s)
    ensures Inv(s)
  {
    InitInv(start);
    RunInv(start, steps, s);
  }

  /** What was sent towards core `c` on a flow: the frames begun on the peer core's FIFO; for a sender on
      the same core, the frames stashed. */
  function SentTo(s: World, c: CoreId, t: Flow): seq<Frame>
    requires |s.cores| == 2
  {
    if LivesOn(t.sender, c) then s.cores[c].local else s.cores[1 - c].wire
  }

  /** What `poll_send` has answered Ok for, and the frame it is in the middle of. */
  function AnsweredTo(s: World, c: CoreId, t: Flow): seq<Frame>
    requires |s.cores| == 2
  {
    if LivesOn(t.sender, c) then s.cores[c].local else s.cores[1 - c].acked + InProgress(s.cores[1 - c])
  }

  /** The part of it not yet decoded. */
  function InFlight(s: World, c: CoreId, t: Flow): seq<Frame>
    requires |s.cores| == 2
  {
    if LivesOn(t.sender, c) || s.cores[c].received > |SentTo(s, c, t)| then [] else SentTo(s, c, t)[s.cores[c].received..]
  }

  /** What a flow lost, in terms of the run and in terms of what is left. */
  lemma FlowOnCore(start: World, steps: seq<Step>, s: World, c: CoreId, t: Flow)
    requires Init(start) && RunOf(start, steps, s)
    ensures Inv(s)
    ensures Project(Lost(s.cores[c].demux.arrived), t) == [] <==> NeverDrops(start, steps, c, t)
  {
    hide Inv, Possible, Next;
    Reachable(start, steps, s);
    assert start.cores[c].demux.arrived == [];
    assert LostOf(start, c, t) == [];
    RunLoses(start, steps, s, c, t);
  }

  /** In-order delivery. On every flow: what core `c` was handed, what waits for it and what is in flight
      make up exactly what was sent, in order and without a gap, if and only if no step of the run dropped
      a frame of the flow. What it was handed is then a prefix of what was sent; and in any case a prefix
      of what was not dropped. What was sent is what `poll_send` answered Ok for if no step answered for
      another frame. Frames are compared whole, and none comes twice. */
  lemma DeliveryIsInOrder(start: World, steps: seq<Step>, s: World, c: CoreId, t: Flow)
    requires Init(start) && RunOf(start, steps, s)
    ensures |s.cores| == 2
    ensures var d := s.cores[c].demux;
            && Project(d.delivered, t) <= Project(Kept(d.arrived), t)
            && (NeverDrops(start, steps, c, t) <==>
                  Project(d.delivered, t) + Waiting(d.stash, t) + Project(InFlight(s, c, t), t) == Project(SentTo(s, c, t), t))
            && (NeverDrops(start, steps, c, t) ==> Project(d.delivered, t) <= Project(SentTo(s, c, t), t))
            && (LivesOn(t.sender, c) || NeverSwaps(start, steps, 1 - c) ==> SentTo(s, c, t) == AnsweredTo(s, c, t))
  {
    hide Project, Kept, Lost, Inbox, Streaming, Waiting, NeverDrops, InProgress, NeverSwaps;
    FlowOnCore(start, steps, s, c, t);
    AcknowledgedIsSent(start, steps, s, 1 - c);
    var core, peer := s.cores[c], s.cores[1 - c];
    assert RxSide(core, peer.wire, c) && TxSide(peer, 1 - c);
    var d, fromPeer := core.demux, peer.wire[..core.received];
    FlowComplete(LAYOUT, d, fromPeer, core.local, Residents(c), t);
    InboxGuarantee(LAYOUT, d, fromPeer, core.local, Residents(c), t, Frame(0, 0, 0, 0, 0, []));
    var had := Project(d.delivered, t) + Waiting(d.stash, t);
    if LivesOn(t.sender, c) {
      NothingProjected(t);
      assert had + [] == had;
    } else {
      ProjectSplit(peer.wire, core.received, t);
      ProjectPrefix(peer.wire, core.received, t);
      SameTail(had, Project(fromPeer, t), Project(peer.wire[core.received..], t));
    }
  }

  /** Every frame answered Ok is one frame begun on the FIFO, and at most one is begun and not yet answered;
      they are the same frames, in order, if and only if no step of the run answered Ok for a frame other
      than the one it finished. */
  lemma AcknowledgedIsSent(start: World, steps: seq<Step>, s: World, c: CoreId)
    requires Init(start) && RunOf(start, steps, s)
    ensures |s.cores| == 2
    ensures var core := s.cores[c];
            && |core.wire| == |core.acked| + |InProgress(core)| && |InProgress(core)| <= 1
            && (core.wire == core.acked + InProgress(core) <==> NeverSwaps(start, steps, c))
  {
    hide Inv, Possible, KeepsFramesWhole, Next, NeverSwaps, TxSide;
    InitInv(start);
    RunSwaps(start, steps, s, c);
    SenderSide(s, c);
    SameAnswers(s.cores[c], c);
    assert start.cores[c].acked == [];
  }

  lemma SameAnswers(core: Core, c: CoreId)
    requires TxSide(core, c)
    ensures |core.wire| == |core.acked| + |InProgress(core)|
    ensures core.wire == core.acked + InProgress(core) <==> Honest(core)
  {
    hide TxValid, TxPcValid, OfCore, InProgress;
    if Honest(core) {
      assert core.wire == core.wire[..|core.acked|] + core.wire[|core.acked|..];
    }
  }

  /** No silent loss. Every copy of a frame sent towards core `c` is delivered, waits in its peer's stash
      slot, is still in flight, or was dropped; each drop was answered by one error at the receiver, there
      is none unless a step of the run dropped a frame of that flow, and no word ever failed to decode. The
      frames in flight are exactly the ones whose words are accumulated, queued, or still to be pushed. What
      was sent is what was answered Ok, and the frame in progress, if no step answered for another frame. */
  lemma NoSilentLoss(start: World, steps: seq<Step>, s: World, c: CoreId, f: Frame)
    requires Init(start) && RunOf(start, steps, s) && LivesOn(f.sender, 1 - c)
    ensures |s.cores| == 2 && s.cores[c].received <= |s.cores[1 - c].wire|
    ensures var core, sent := s.cores[c], s.cores[1 - c].wire;
            && Copies(sent, f) == Copies(core.demux.delivered, f) + Held(core.demux.stash, f)
                                  + Copies(Lost(core.demux.arrived), f) + Copies(sent[core.received..], f)
            && |Lost(core.demux.arrived)| == core.refused && core.broken == 0
            && (NeverDrops(start, steps, c, FlowOf(f)) ==> Copies(Lost(core.demux.arrived), f) == 0)
            && (NeverSwaps(start, steps, 1 - c) ==> sent == s.cores[1 - c].acked + InProgress(s.cores[1 - c]))
    ensures TxSide(s.cores[1 - c], 1 - c) && WellFormed(s.dev)
    ensures Streaming(s.cores[c].acc, s.dev.fifo[1 - c], Rest(s.cores[1 - c], 1 - c), s.cores[1 - c].wire, s.cores[c].received)
  {
    hide Project, Kept, Lost, Inbox, Streaming, Copies, NeverDrops, NeverSwaps, InProgress, Rest;
    FlowOnCore(start, steps, s, c, FlowOf(f));
    AcknowledgedIsSent(start, steps, s, 1 - c);
    var core, peer := s.cores[c], s.cores[1 - c];
    assert RxSide(core, peer.wire, c) && TxSide(peer, 1 - c) && Stream(s, 1 - c);
    CopiesSplit(peer.wire, core.received, f);
    InboxGuarantee(LAYOUT, core.demux, peer.wire[..core.received], core.local, Residents(c), FlowOf(f), f);
    CopiesOnFlow(Lost(core.demux.arrived), f);
    NoCopies([], f);
  }

  /** The same for a frame sent on its own core: once the stash has accepted it, it is delivered or waits. */
  lemma NoSilentLocalLoss(start: World, steps: seq<Step>, s: World, c: CoreId, f: Frame)
    requires Init(start) && RunOf(start, steps, s) && LivesOn(f.sender, c)
    ensures |s.cores| == 2
    ensures var core := s.cores[c];
            Copies(core.local, f) == Copies(core.demux.delivered, f) + Held(core.demux.stash, f)
  {
    hide Project, Kept, Lost, Inbox, TxSide, Streaming, Copies;
    Reachable(start, steps, s);
    var core, peer := s.cores[c], s.cores[1 - c];
    assert RxSide(core, peer.wire, c);
    InboxGuarantee(LAYOUT, core.demux, peer.wire[..core.received], core.local, Residents(c), FlowOf(f), f);
  }

  /** The hardware never flags an overflow or underflow, no core is ever stuck inside a poll, and a
      redelivered frame is one the endpoint was handed before, on its own role and lane. */
  lemma CarrierIsSafe(start: World, steps: seq<Step>, s: World, c: CoreId)
    requires Init(start) && RunOf(start, steps, s)
    ensures s.dev.wof == s.dev.roe == [false, false] && WellFormed(s.dev)
    ensures Enabled(s, TxStep(c)) && Enabled(s, RxStep(c))
    ensures forall j :: 0 <= j < |s.cores[c].rxs| ==> RxValid(s.cores[c].demux, s.cores[c].rxs[j])
  {
    hide Inbox, Streaming, Rest;
    Reachable(start, steps, s);
    assert TxSide(s.cores[c], c) && RxSide(s.cores[c], s.cores[1 - c].wire, c);
  }
}
