/** What the mailbox carrier guarantees over every run of the two cores. */
module MailboxGuarantees {
  import opened Wire
  import opened Demux
  import opened MailboxSlot
  import opened MailboxCarrier
  import opened MailboxLosses

  lemma Reachable(start: World, steps: seq<Step>, s: World)
    requires Init(start) && RunOf(start, steps, s)
    ensures Inv(s)
  {
    InitInv(start);
    RunInv(start, steps, s);
  }

  /** The slot is a one-place queue: at every moment at most one published frame is untaken, the flag is
      up exactly then, the slot shows all of that frame, and a reader that has copied every field
      holds exactly it. No frame is ever rejected as malformed, and no core gets stuck. */
  lemma NeverTorn(start: World, steps: seq<Step>, s: World, c: CoreId)
    requires Init(start) && RunOf(start, steps, s)
    ensures Shape(s)
    ensures var core, wire, slot := s.cores[c], s.cores[1 - c].wire, s.slots[1 - c];
            && core.taken <= |wire| == core.taken + (if slot.occupied then 1 else 0)
            && (slot.occupied ==> Holds(slot, wire[core.taken]) && TakeSpec(slot) == Taken(wire[core.taken]))
            && (core.pc.Copying? && core.pc.k == 6 + core.pc.copy.len ==> slot.occupied && FrameOf(core.pc.copy) == wire[core.taken])
            && core.invalid == 0
    ensures Enabled(s, TxStep(c)) && Enabled(s, RxStep(c))
  {
    hide Inbox, Filled, Lost;
    Reachable(start, steps, s);
    var core, wire, slot := s.cores[c], s.cores[1 - c].wire, s.slots[1 - c];
    assert TxSide(core, s.slots[c], s.home[c]) && RxSide(core, slot, wire, s.home[c]);
    if slot.occupied {
      TakePublished(slot, wire[core.taken]);
      if core.pc.Copying? && core.pc.k == 6 + core.pc.copy.len {
        CopyDone(core.pc.copy, wire[core.taken]);
      }
    }
  }

  /** `cancel_send` never erases a published frame: whenever it can be called, it leaves every slot as
      it is. */
  lemma CancelErasesNothing(start: World, steps: seq<Step>, s: World, c: CoreId, i: nat)
    requires Init(start) && RunOf(start, steps, s) && Enabled(s, Cancel(c, i))
    ensures Next(s, Cancel(c, i)).slots == s.slots
    ensures var core := s.cores[c];
            Next(s, Cancel(c, i)).cores == s.cores[c := core.(txs := core.txs[i := core.txs[i].(pending := None)])]
    ensures s.cores[c].txs[i].pending.Some? ==> !s.cores[c].txs[i].pending.value.published
  {
    Reachable(start, steps, s);
    var core := s.cores[c];
    assert TxSide(core, s.slots[c], s.home[c]);
    assert TxValid(core, core.txs[i], i, s.home[c]);
    assert s.slots[c := s.slots[c]] == s.slots;
  }

  /** What was sent towards core `c` on a flow: the frames published by the peer core; for a sender on the
      same core, the frames stashed. */
  function SentTo(s: World, c: CoreId, t: Flow): seq<Frame>
    requires |s.cores| == |s.home| == 2
  {
    if t.sender in s.home[c] then s.cores[c].local else s.cores[1 - c].wire
  }

  /** What `poll_send` has answered Ok for, and a frame published but not yet answered. */
  function AnsweredTo(s: World, c: CoreId, t: Flow): seq<Frame>
    requires |s.cores| == |s.home| == 2
  {
    if t.sender in s.home[c] then s.cores[c].local else s.cores[1 - c].acked + InProgress(s.cores[1 - c])
  }

  /** The part of it still in the mailbox: at most one frame. */
  function InMailbox(s: World, c: CoreId, t: Flow): seq<Frame>
    requires |s.cores| == |s.home| == 2
  {
    if t.sender in s.home[c] || s.cores[c].taken > |SentTo(s, c, t)| then [] else SentTo(s, c, t)[s.cores[c].taken..]
  }

  lemma FlowOnCore(start: World, steps: seq<Step>, s: World, c: CoreId, t: Flow)
    requires Init(start) && RunOf(start, steps, s)
    ensures Inv(s)
    ensures Project(Lost(s.cores[c].demux.arrived), t) == [] <==> NeverDrops(start, steps, c, t)
  {
    hide Inv, Enabled, Next;
    Reachable(start, steps, s);
    assert start.cores[c].demux.arrived == [];
    assert LostOf(start, c, t) == [];
    RunLoses(start, steps, s, c, t);
  }

  /** In-order delivery, under any schedule and any cancellation. On every flow: what core `c` was handed,
      what waits for it and what is in the mailbox make up exactly what was sent, in order and without a gap,
      if and only if no step of the run dropped a frame of the flow. What it was handed is then a prefix of
      what was sent; and in any case a prefix of what was not dropped. What was sent is what `poll_send`
      answered Ok for if no step answered for another frame. */
  lemma MailboxDelivery(start: World, steps: seq<Step>, s: World, c: CoreId, t: Flow)
    requires Init(start) && RunOf(start, steps, s)
    ensures Shape(s)
    ensures var d := s.cores[c].demux;
            && Project(d.delivered, t) <= Project(Kept(d.arrived), t)
            && (NeverDrops(start, steps, c, t) <==>
                  Project(d.delivered, t) + Waiting(d.stash, t) + Project(InMailbox(s, c, t), t) == Project(SentTo(s, c, t), t))
            && (NeverDrops(start, steps, c, t) ==> Project(d.delivered, t) <= Project(SentTo(s, c, t), t))
            && (t.sender in s.home[c] || NeverSwaps(start, steps, 1 - c) ==> SentTo(s, c, t) == AnsweredTo(s, c, t))
  {
    hide Project, Kept, Lost, Inbox, Waiting, NeverDrops, NeverSwaps, InProgress, Holds, Copied, Filled;
    FlowOnCore(start, steps, s, c, t);
    AcknowledgedIsPublished(start, steps, s, 1 - c);
    var core, peer := s.cores[c], s.cores[1 - c];
    assert RxSide(core, s.slots[1 - c], peer.wire, s.home[c]) && TxSide(peer, s.slots[1 - c], s.home[1 - c]);
    var d, fromPeer := core.demux, peer.wire[..core.taken];
    FlowComplete(LAYOUT, d, fromPeer, core.local, s.home[c], t);
    InboxGuarantee(LAYOUT, d, fromPeer, core.local, s.home[c], t, Frame(0, 0, 0, 0, 0, []));
    var had := Project(d.delivered, t) + Waiting(d.stash, t);
    if t.sender in s.home[c] {
      NothingProjected(t);
      assert had + [] == had;
    } else {
      ProjectSplit(peer.wire, core.taken, t);
      ProjectPrefix(peer.wire, core.taken, t);
      SameTail(had, Project(fromPeer, t), Project(peer.wire[core.taken..], t));
    }
  }

  /** Every frame answered Ok is one frame published, and at most one is published and not yet answered;
      they are the same frames, in order, if and only if no step of the run answered Ok for a frame other
      than the one it published. */
  lemma AcknowledgedIsPublished(start: World, steps: seq<Step>, s: World, c: CoreId)
    requires Init(start) && RunOf(start, steps, s)
    ensures Shape(s)
    ensures var core := s.cores[c];
            && |core.wire| == |core.acked| + |InProgress(core)| && |InProgress(core)| <= 1
            && (core.wire == core.acked + InProgress(core) <==> NeverSwaps(start, steps, c))
  {
    hide Inv, Enabled, Next, NeverSwaps, TxSide;
    InitInv(start);
    RunSwaps(start, steps, s, c);
    SenderSide(s, c);
    SameAnswers(s.cores[c], s.slots[c], s.home[c]);
    assert start.cores[c].acked == [];
  }

  lemma SameAnswers(core: Core, slot: Slot, here: set<Role>)
    requires TxSide(core, slot, here)
    ensures |core.wire| == |core.acked| + |InProgress(core)|
    ensures core.wire == core.acked + InProgress(core) <==> Honest(core)
  {
    hide TxValid, TxPcValid, InProgress, Filled;
    if Honest(core) {
      assert core.wire == core.wire[..|core.acked|] + core.wire[|core.acked|..];
    }
  }

  /** No silent loss. Every copy of a frame sent from the other core is delivered, waits in the stash, is
      still in the mailbox, or was dropped; every copy of one sent on this core is delivered or waits. Each
      drop was answered by one error at the receiver, and there is none unless a step of the run dropped a
      frame of that flow. What was sent is what was answered Ok, and a frame not yet answered, if no step
      answered for another frame. */
  lemma MailboxLosesNothingSilently(start: World, steps: seq<Step>, s: World, c: CoreId, f: Frame)
    requires Init(start) && RunOf(start, steps, s)
    ensures Shape(s) && (f.sender !in s.home[c] ==> s.cores[c].taken <= |SentTo(s, c, FlowOf(f))|)
    ensures var d, sent := s.cores[c].demux, SentTo(s, c, FlowOf(f));
            && |Lost(d.arrived)| == s.cores[c].refused && s.cores[c].invalid == 0
            && (NeverDrops(start, steps, c, FlowOf(f)) ==> Copies(Lost(d.arrived), f) == 0)
            && (f.sender !in s.home[c] ==>
                  Copies(sent, f) == Copies(d.delivered, f) + Held(d.stash, f) + Copies(Lost(d.arrived), f)
                                     + Copies(sent[s.cores[c].taken..], f))
            && (f.sender in s.home[c] ==> Copies(sent, f) == Copies(d.delivered, f) + Held(d.stash, f))
            && (f.sender in s.home[c] || NeverSwaps(start, steps, 1 - c) ==> sent == AnsweredTo(s, c, FlowOf(f)))
  {
    hide Project, Kept, Lost, Inbox, Copies, NeverDrops, NeverSwaps, InProgress, Holds, Copied, Filled;
    FlowOnCore(start, steps, s, c, FlowOf(f));
    AcknowledgedIsPublished(start, steps, s, 1 - c);
    var core, peer := s.cores[c], s.cores[1 - c];
    assert RxSide(core, s.slots[1 - c], peer.wire, s.home[c]) && TxSide(peer, s.slots[1 - c], s.home[1 - c]);
    InboxGuarantee(LAYOUT, core.demux, peer.wire[..core.taken], core.local, s.home[c], FlowOf(f), f);
    CopiesSplit(peer.wire, core.taken, f);
    CopiesOnFlow(Lost(core.demux.arrived), f);
    NoCopies([], f);
  }

  /** A frame for a role on the sender's own core is stashed on the lane that role last registered, so it
      arrives on the lane it was sent on if and only if the two agree. */
  lemma LocalFrameKeepsItsLane(core: Core, i: nat, target: Role, frameLabel: Byte, lane: Byte, payload: seq<Byte>)
    requires i < |core.txs|
    requires target != core.txs[i].role && |payload| <= FRAME_BYTES && target in core.lanes
    requires HasSlot(LAYOUT, target) && target !in core.demux.stash
    ensures var tx := core.txs[i];
            var after := BeginSend(core, i, target, frameLabel, lane, payload);
            && target in after.demux.stash
            && (after.demux.stash[target] == Frame(tx.session, tx.role, target, frameLabel, lane, payload) <==> core.lanes[target] == lane)
  {}
}
