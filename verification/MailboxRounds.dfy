/** Whole mailbox accesses against the field-by-field carrier. */
module MailboxRounds {
  import opened Wire
  import opened Demux
  import opened Endpoints
  import opened MailboxSlot
  import MailboxPolls
  import opened MailboxCarrier
  import opened Runs

  lemma RunFirst(s: World, a: Step, steps: seq<Step>, end: World)
    requires Enabled(s, a) && RunOf(Next(s, a), steps, end)
    ensures RunOf(s, [a] + steps, end)
  {
    hide Enabled, Next;
    assert ([a] + steps)[1..] == steps;
  }

  lemma NoSteps(s: World)
    ensures RunOf(s, [], s)
  {}

  // ---------------------------------------------------------------- publishing

  /** A core whose poll has published `f` and answered Ok. */
  function Published(core: Core, i: nat, f: Frame): Core
    requires i < |core.txs|
  {
    core.(wire := core.wire + [f], pc := Idle, txs := core.txs[i := core.txs[i].(pending := None)],
          acked := if core.asked.Some? then core.acked + [core.asked.value] else core.acked)
  }

  /** Filling the slot from write `k` on, raising the flag and taking the pending frame off: the slot shows
      the frame, and the frame is on the wire. */
  lemma {:induction false} FillIsARun(s: World, c: CoreId) returns (steps: seq<Step>, end: World)
    requires Shape(s) && s.cores[c].pc.Filling? && TxPcValid(s.cores[c], s.slots[c])
    requires Filled(s.slots[c], s.cores[c].txs[s.cores[c].pc.tx].pending.value.frame, s.cores[c].pc.k)
    ensures RunOf(s, steps, end) && AllAre(steps, TxStep(c)) && Shape(end) && end.home == s.home
    ensures var core, i := s.cores[c], s.cores[c].pc.tx;
            var f := core.txs[i].pending.value.frame;
            && end.slots[c].occupied && Holds(end.slots[c], f) && end.slots[1 - c] == s.slots[1 - c]
            && end.cores == s.cores[c := Published(core, i, f)]
    decreases 6 + |s.cores[c].txs[s.cores[c].pc.tx].pending.value.frame.payload| - s.cores[c].pc.k
  {
    hide Filled, WriteField, Legal;
    var core, i, k := s.cores[c], s.cores[c].pc.tx, s.cores[c].pc.k;
    var f := core.txs[i].pending.value.frame;
    var s1 := Next(s, TxStep(c));
    if k < 6 + |f.payload| {
      FillStep(s.slots[c], f, k);
      steps, end := FillIsARun(s1, c);
      assert s1.cores[c := end.cores[c]] == s.cores[c := end.cores[c]];
      RunFirst(s, TxStep(c), steps, end);
      steps := [TxStep(c)] + steps;
    } else {
      FlagShows(s.slots[c], f);
      end := Next(s1, TxStep(c));
      NoSteps(end);
      RunFirst(s1, TxStep(c), [], end);
      RunFirst(s, TxStep(c), [TxStep(c)] + [], end);
      steps := [TxStep(c)] + ([TxStep(c)] + []);
      assert core.txs[i := s1.cores[c].txs[i]][i := end.cores[c].txs[i]] == core.txs[i := end.cores[c].txs[i]];
    }
  }

  lemma FlagShows(slot: Slot, f: Frame)
    requires WellFormed(slot) && Legal(f) && Filled(slot, f, 6 + |f.payload|)
    ensures Holds(slot.(occupied := true), f)
  {}

  /** A whole publish is a run without interference. */
  lemma {:induction false} PublishIsARun(s: World, c: CoreId) returns (steps: seq<Step>, end: World)
    requires Shape(s) && s.cores[c].pc.Checking? && TxPcValid(s.cores[c], s.slots[c])
    requires !s.cores[c].txs[s.cores[c].pc.tx].pending.value.published
    ensures RunOf(s, steps, end) && AllAre(steps, TxStep(c)) && Shape(end) && end.home == s.home
    ensures var core, i := s.cores[c], s.cores[c].pc.tx;
            var f := core.txs[i].pending.value.frame;
            if s.slots[c].occupied then end == s.(cores := s.cores[c := core.(pc := Idle)])
            else
              && end.slots[c].occupied && Holds(end.slots[c], f) && end.slots[1 - c] == s.slots[1 - c]
              && end.cores == s.cores[c := Published(core, i, f)]
  {
    hide Holds, WriteField, Legal;
    var s1 := Next(s, TxStep(c));
    assert s.slots[c := s.slots[c]] == s.slots;
    if s.slots[c].occupied {
      end := s1;
      NoSteps(s1);
      steps := [];
    } else {
      steps, end := FillIsARun(s1, c);
      assert s1.cores[c := end.cores[c]] == s.cores[c := end.cores[c]];
    }
    RunFirst(s, TxStep(c), steps, end);
    steps := [TxStep(c)] + steps;
  }

  /** So is a whole `poll_send` of a frame that goes through the mailbox: when the mailbox is free it
      publishes the pending frame and answers Ok for the frame it was called with, be it another one or not. */
  lemma {:induction false} SendIsARun(s: World, c: CoreId, i: nat, target: Role, frameLabel: Byte, lane: Byte, payload: seq<Byte>)
    returns (steps: seq<Step>, end: World)
    requires Enabled(s, Send(c, i, target, frameLabel, lane, payload)) && GoesToMailbox(s.cores[c], s.cores[c].txs[i], target, payload)
    requires var p := s.cores[c].txs[i].pending; p.Some? ==> Legal(p.value.frame) && !p.value.published
    ensures RunOf(s, steps, end) && CallOf(steps, Send(c, i, target, frameLabel, lane, payload), TxStep(c)) && Shape(end) && end.home == s.home
    ensures var tx := s.cores[c].txs[i];
            var f := Frame(tx.session, tx.role, target, frameLabel, lane, payload);
            var g := if tx.pending.Some? then tx.pending.value.frame else f;
            var asked := s.cores[c].(lanes := s.cores[c].lanes[tx.role := tx.lane], asked := Some(f));
            && end.cores[1 - c] == s.cores[1 - c] && end.slots[1 - c] == s.slots[1 - c]
            && if s.slots[c].occupied then
                 end.slots[c] == s.slots[c] && end.cores[c] == asked.(txs := asked.txs[i := tx.(pending := Some(Pending(g, false)))])
               else
                 && end.slots[c].occupied && Holds(end.slots[c], g)
                 && end.cores[c] == asked.(txs := asked.txs[i := tx.(pending := None)], wire := asked.wire + [g], acked := asked.acked + [f])
  {
    hide Holds, AdvanceTx, AdvanceRx;
    var first := Send(c, i, target, frameLabel, lane, payload);
    var tx := s.cores[c].txs[i];
    var g := if tx.pending.Some? then tx.pending.value.frame else Frame(tx.session, tx.role, target, frameLabel, lane, payload);
    var s1 := Next(s, first);
    assert s1.cores[c].txs == s.cores[c].txs[i := tx.(pending := Some(Pending(g, false)))];
    steps, end := PublishIsARun(s1, c);
    RunFirst(s, first, steps, end);
    steps := [first] + steps;
  }

  // ---------------------------------------------------------------- taking

  /** Copying the slot from read `k` on and lowering the flag: what is disposed of is the frame the slot
      shows. */
  lemma {:induction false} CopyIsARun(s: World, c: CoreId, f: Frame) returns (steps: seq<Step>, end: World)
    requires Shape(s) && s.cores[c].pc.Copying? && RxPcValid(s.cores[c], s.slots[1 - c])
    requires s.slots[1 - c].occupied && Holds(s.slots[1 - c], f) && s.cores[c].pc.k <= 6 + |f.payload|
    requires Copied(s.cores[c].pc.copy, f, s.cores[c].pc.k)
    ensures RunOf(s, steps, end) && AllAre(steps, RxStep(c))
    ensures end == s.(slots := s.slots[1 - c := s.slots[1 - c].(occupied := false)],
                      cores := s.cores[c := Dispose(s.cores[c], s.cores[c].pc.rx, f)])
    decreases 6 + |f.payload| - s.cores[c].pc.k
  {
    hide Copied, Holds, ReadField, Dispose, FrameOf;
    var core, k, copy := s.cores[c], s.cores[c].pc.k, s.cores[c].pc.copy;
    var s1 := Next(s, RxStep(c));
    if k < 6 + |f.payload| {
      ReadOn(s.slots[1 - c], f, copy, k);
      CopyStep(s.slots[1 - c], f, copy, k);
      assert s.slots[1 - c := s.slots[1 - c]] == s.slots;
      steps, end := CopyIsARun(s1, c, f);
      DisposeForgets(core, s1.cores[c], core.pc.rx, f);
      assert s1.cores[c := end.cores[c]] == s.cores[c := end.cores[c]];
    } else {
      CopyDone(copy, f);
      CopyLength(copy, f, k);
      steps, end := [], s1;
      NoSteps(s1);
    }
    RunFirst(s, RxStep(c), steps, end);
    steps := [RxStep(c)] + steps;
  }

  /** While the slot shows a legal frame no read rejects it, and the length read first is right. */
  lemma ReadOn(slot: Slot, f: Frame, copy: Copy, k: nat)
    requires Holds(slot, f) && Copied(copy, f, k) && k < 6 + |f.payload|
    ensures k > 0 ==> copy.len == |f.payload|
    ensures var next := ReadField(slot, copy, k);
            next.len <= FRAME_BYTES && (k == 2 ==> next.sender != next.peer)
  {}

  lemma CopyLength(copy: Copy, f: Frame, k: nat)
    requires Copied(copy, f, k) && k > 0
    ensures copy.len == |f.payload|
  {}

  /** What happens to a frame does not depend on where its reader stood. */
  lemma DisposeForgets(core: Core, core': Core, j: nat, f: Frame)
    requires j < |core.rxs| && core' == core.(pc := core'.pc)
    ensures Dispose(core', j, f) == Dispose(core, j, f)
  {}

  /** A whole take is a run without interference: on any memory at all it returns what its specification
      says, and then disposes of the frame or reports the error. */
  lemma {:induction false} TakeIsARun(s: World, c: CoreId) returns (steps: seq<Step>, end: World)
    requires Shape(s) && s.cores[c].pc.Polling? && RxPcValid(s.cores[c], s.slots[1 - c])
    ensures RunOf(s, steps, end) && AllAre(steps, RxStep(c))
    ensures var core, slot := s.cores[c], s.slots[1 - c];
            match TakeSpec(slot)
            case Vacant => end == s.(cores := s.cores[c := core.(pc := Idle)])
            case Invalid(_) =>
              end == s.(slots := s.slots[1 - c := slot.(occupied := false)],
                        cores := s.cores[c := core.(pc := Idle, taken := core.taken + 1, invalid := core.invalid + 1)])
            case Taken(f) =>
              end == s.(slots := s.slots[1 - c := slot.(occupied := false)], cores := s.cores[c := Dispose(core, core.pc.rx, f)])
  {
    hide Dispose, Filled, Legal, AdvanceTx, BeginSend, BeginRecv, DoCancel, FrameOf, RunOf, TxPcValid;
    var core, slot := s.cores[c], s.slots[1 - c];
    var s1 := Next(s, RxStep(c));
    assert s.slots[1 - c := slot] == s.slots;
    match TakeSpec(slot) {
      case Vacant =>
        steps, end := [], s1;
        NoSteps(s1);
      case Invalid(_) =>
        steps, end := RejectIsARun(s1, c);
        assert s1.cores[c := end.cores[c]] == s.cores[c := end.cores[c]];
      case Taken(f) =>
        ShownFrame(slot, f);
        steps, end := CopyIsARun(s1, c, f);
        DisposeForgets(core, s1.cores[c], core.pc.rx, f);
        assert s1.cores[c := end.cores[c]] == s.cores[c := end.cores[c]];
    }
    RunFirst(s, RxStep(c), steps, end);
    steps := [RxStep(c)] + steps;
  }

  lemma ShownFrame(slot: Slot, f: Frame)
    requires WellFormed(slot) && TakeSpec(slot) == Taken(f)
    ensures Holds(slot, f) && Copied(BLANK, f, 0)
  {}

  /** A bad length is seen by the first read, equal roles by the third; both free the slot. */
  lemma {:induction false} RejectIsARun(s: World, c: CoreId) returns (steps: seq<Step>, end: World)
    requires Shape(s) && s.cores[c].pc.Copying? && s.cores[c].pc.k == 0 && s.cores[c].pc.copy == BLANK
    requires RxPcValid(s.cores[c], s.slots[1 - c]) && TakeSpec(s.slots[1 - c]).Invalid?
    ensures RunOf(s, steps, end) && AllAre(steps, RxStep(c))
    ensures end == s.(slots := s.slots[1 - c := s.slots[1 - c].(occupied := false)],
                      cores := s.cores[c := s.cores[c].(pc := Idle, taken := s.cores[c].taken + 1, invalid := s.cores[c].invalid + 1)])
  {
    hide Next, Enabled, RunOf, RxPcValid, TakeSpec;
    var slot := s.slots[1 - c];
    RejectReads(s, c);
    var a, s1 := RxStep(c), Next(s, RxStep(c));
    if slot.len > FRAME_BYTES {
      steps, end := FreeIsARun(s1, c);
    } else {
      var s2 := Next(s1, a);
      var s3 := Next(s2, a);
      steps, end := FreeIsARun(s3, c);
      RunFirst(s2, a, steps, end);
      RunFirst(s1, a, [a] + steps, end);
      steps := [a] + ([a] + steps);
    }
    RunFirst(s, a, steps, end);
    steps := [a] + steps;
    var rejecting := s.cores[c].(pc := Rejecting(s.cores[c].pc.rx));
    assert s.cores[c := rejecting][c := end.cores[c]] == s.cores[c := end.cores[c]];
  }

  /** The reads that find the fault change nothing but the reader's position. */
  lemma RejectReads(s: World, c: CoreId)
    requires Shape(s) && s.cores[c].pc.Copying? && s.cores[c].pc.k == 0 && s.cores[c].pc.copy == BLANK
    requires RxPcValid(s.cores[c], s.slots[1 - c]) && TakeSpec(s.slots[1 - c]).Invalid?
    ensures var a, slot, rejecting := RxStep(c), s.slots[1 - c], s.(cores := s.cores[c := s.cores[c].(pc := Rejecting(s.cores[c].pc.rx))]);
            && s.cores[c].pc.rx < |s.cores[c].rxs| && Enabled(s, a)
            && if slot.len > FRAME_BYTES then Next(s, a) == rejecting
               else
                 && Enabled(Next(s, a), a) && Enabled(Next(Next(s, a), a), a)
                 && Next(Next(Next(s, a), a), a) == rejecting
  {
    hide Dispose, AdvanceTx, BeginSend, BeginRecv, DoCancel, FrameOf, TxPcValid;
    var a := RxStep(c);
    assert s.slots[1 - c := s.slots[1 - c]] == s.slots;
    var s1 := Next(s, a);
    if s.slots[1 - c].len <= FRAME_BYTES {
      var s2 := Next(s1, a);
      var s3 := Next(s2, a);
      assert s1.cores[c := s3.cores[c]] == s.cores[c := s3.cores[c]] && s2.cores[c := s3.cores[c]] == s1.cores[c := s3.cores[c]];
    }
  }

  lemma {:induction false} FreeIsARun(s: World, c: CoreId) returns (steps: seq<Step>, end: World)
    requires Shape(s) && s.cores[c].pc.Rejecting? && s.cores[c].pc.rx < |s.cores[c].rxs|
    ensures RunOf(s, steps, end) && AllAre(steps, RxStep(c))
    ensures end == s.(slots := s.slots[1 - c := s.slots[1 - c].(occupied := false)],
                      cores := s.cores[c := s.cores[c].(pc := Idle, taken := s.cores[c].taken + 1, invalid := s.cores[c].invalid + 1)])
  {
    end := Next(s, RxStep(c));
    NoSteps(end);
    RunFirst(s, RxStep(c), [], end);
    steps := [RxStep(c)] + [];
  }

  // ---------------------------------------------------------------- whole receives

  /** Only what receiving may change is changed. */
  predicate ReceiveOnly(core: Core, core': Core) {
    core' == core.(rxs := core'.rxs, demux := core'.demux, pc := core'.pc, taken := core'.taken, refused := core'.refused, invalid := core'.invalid)
  }

  /** The head of `poll_recv` against the specification of the whole poll: it either settles the poll or
      leaves it to the mailbox loop. */
  lemma RecvHead(core: Core, j: nat, slot: Slot)
    requires j < |core.rxs| && core.pc == Idle && WellFormed(slot)
    ensures var core', rx := BeginRecv(core, j), core.rxs[j];
            var (rx', stash, slot', answer) := MailboxPolls.RecvSpec(rx, core.demux.stash, slot);
            && ReceiveOnly(core.(lanes := core.lanes[rx.role := rx.lane]), core') && core'.invalid == core.invalid
            && if core'.pc == Polling(j) then
                 && core'.rxs == core.rxs[j := Cleared(rx)]
                 && core'.demux.delivered == core.demux.delivered && core'.refused == core.refused
                 && (rx', stash, slot', answer) == AfterTake(Cleared(rx), core'.demux.stash, slot)
               else
                 && core'.pc == Idle && core'.rxs == core.rxs[j := rx'] && core'.demux.stash == stash && slot' == slot
                 && core'.refused == core.refused + (if answer.RecvFailed? then 1 else 0)
                 && (!answer.Received? ==> core'.demux.delivered == core.demux.delivered)
  {
    hide PollStash, TakeSpec, Route;
  }

  /** The mailbox part of a receive. */
  function AfterTake(rx: Rx, stash: Stash, slot: Slot): (Rx, Stash, Slot, RecvResult)
    requires WellFormed(slot)
  {
    match TakeSpec(slot)
    case Vacant => (rx, stash, slot, RecvPending)
    case Invalid(e) => (rx, stash, slot.(occupied := false), RecvFailed(e))
    case Taken(f) =>
      var (stash', routed) := Route(LAYOUT, stash, rx.role, rx.lane, f);
      match routed
      case Staged => (rx.(staged := Some(f), delivered := true), stash', slot.(occupied := false), Received(f.(peer := rx.role)))
      case Stashed => (rx, stash', slot.(occupied := false), RecvPending)
      case Refused(e) => (rx, stash', slot.(occupied := false), RecvFailed(e))
  }

  lemma DisposeIsRoute(core: Core, j: nat, f: Frame)
    requires j < |core.rxs|
    ensures var core' := Dispose(core, j, f);
            var (stash', routed) := Route(LAYOUT, core.demux.stash, core.rxs[j].role, core.rxs[j].lane, f);
            && ReceiveOnly(core, core') && core'.demux.stash == stash' && core'.invalid == core.invalid
            && core'.rxs == (if routed.Staged? then core.rxs[j := core.rxs[j].(staged := Some(f), delivered := true)] else core.rxs)
            && core'.pc == (if routed.Stashed? then Polling(j) else Idle)
            && core'.refused == core.refused + (if routed.Refused? then 1 else 0)
            && (!routed.Staged? ==> core'.demux.delivered == core.demux.delivered)
  {
    hide Route;
  }

  /** The mailbox loop is a run: it takes a frame, and looks once more if it stashed it. */
  lemma {:induction false} LoopIsARun(s: World, c: CoreId) returns (steps: seq<Step>, end: World)
    requires Shape(s) && s.cores[c].pc.Polling? && RxPcValid(s.cores[c], s.slots[1 - c])
    ensures RunOf(s, steps, end) && AllAre(steps, RxStep(c))
    ensures var core, j := s.cores[c], s.cores[c].pc.rx;
            var (rx, stash, slot, answer) := AfterTake(core.rxs[j], core.demux.stash, s.slots[1 - c]);
            && Shape(end) && end.home == s.home && end.slots == s.slots[1 - c := slot] && end.cores[1 - c] == s.cores[1 - c]
            && end.cores[c].pc == Idle && end.cores[c].rxs == core.rxs[j := rx] && end.cores[c].demux.stash == stash
            && ReceiveOnly(core, end.cores[c])
            && end.cores[c].refused + end.cores[c].invalid == core.refused + core.invalid + (if answer.RecvFailed? then 1 else 0)
            && (!answer.Received? ==> end.cores[c].demux.delivered == core.demux.delivered)
  {
    hide TakeSpec, Route, Dispose, AdvanceTx, AdvanceRx, Copied, Filled, RunOf, Enabled, Next, RxPcValid;
    var core, j, slot := s.cores[c], s.cores[c].pc.rx, s.slots[1 - c];
    LoopReader(s, c);
    steps, end := TakeIsARun(s, c);
    assert s.slots[1 - c := slot] == s.slots && core.rxs[j := core.rxs[j]] == core.rxs;
    if TakeSpec(slot).Taken? {
      DisposeIsRoute(core, j, TakeSpec(slot).frame);
      var routed := Route(LAYOUT, core.demux.stash, core.rxs[j].role, core.rxs[j].lane, TakeSpec(slot).frame).1;
      assert routed.Refused? == AfterTake(core.rxs[j], core.demux.stash, slot).3.RecvFailed?;
      if end.cores[c].pc.Polling? {
        var mid := end;
        end := LookAgain(mid, c);
        RunConcat(s, steps, mid, [RxStep(c)], end);
        steps := steps + [RxStep(c)];
      }
    }
  }

  lemma LoopReader(s: World, c: CoreId)
    requires Shape(s) && s.cores[c].pc.Polling? && RxPcValid(s.cores[c], s.slots[1 - c])
    ensures s.cores[c].pc.rx < |s.cores[c].rxs|
  {}

  /** A poll that looks at an empty mailbox ends. */
  lemma {:induction false} LookAgain(s: World, c: CoreId) returns (end: World)
    requires Shape(s) && s.cores[c].pc.Polling? && s.cores[c].pc.rx < |s.cores[c].rxs| && !s.slots[1 - c].occupied
    ensures RunOf(s, [RxStep(c)], end)
    ensures end == s.(cores := s.cores[c := s.cores[c].(pc := Idle)])
  {
    end := Next(s, RxStep(c));
    NoSteps(end);
    RunFirst(s, RxStep(c), [], end);
    assert [RxStep(c)] + [] == [RxStep(c)];
    assert s.slots[1 - c := s.slots[1 - c]] == s.slots;
  }

  lemma {:induction false} RunConcat(s: World, xs: seq<Step>, mid: World, ys: seq<Step>, end: World)
    requires RunOf(s, xs, mid) && RunOf(mid, ys, end)
    ensures RunOf(s, xs + ys, end)
    decreases |xs|
  {
    hide Enabled, Next;
    if xs == [] {
      assert xs + ys == ys;
    } else {
      RunConcat(Next(s, xs[0]), xs[1..], mid, ys, end);
      assert (xs + ys)[1..] == xs[1..] + ys;
    }
  }

  /** A whole `poll_recv` is a run without interference: it leaves exactly what its specification says. */
  lemma {:induction false} RecvIsARun(s: World, c: CoreId, j: nat) returns (steps: seq<Step>, end: World)
    requires Enabled(s, Recv(c, j))
    ensures RunOf(s, steps, end) && CallOf(steps, Recv(c, j), RxStep(c))
    ensures var core := s.cores[c];
            var (rx, stash, slot, answer) := MailboxPolls.RecvSpec(core.rxs[j], core.demux.stash, s.slots[1 - c]);
            && Shape(end) && end.home == s.home && end.slots == s.slots[1 - c := slot] && end.cores[1 - c] == s.cores[1 - c]
            && end.cores[c].pc == Idle && end.cores[c].rxs == core.rxs[j := rx] && end.cores[c].demux.stash == stash
            && ReceiveOnly(core.(lanes := core.lanes[core.rxs[j].role := core.rxs[j].lane]), end.cores[c])
            && end.cores[c].refused + end.cores[c].invalid == core.refused + core.invalid + (if answer.RecvFailed? then 1 else 0)
            && (answer.Received? ==> rx.staged.Some? && answer.frame == rx.staged.value.(peer := rx.role))
            && (!answer.Received? ==> end.cores[c].demux.delivered == core.demux.delivered)
  {
    hide MailboxPolls.RecvSpec, BeginRecv, AdvanceTx, AdvanceRx, AfterTake;
    var core := s.cores[c];
    RecvHead(core, j, s.slots[1 - c]);
    AnswersStaged(core.rxs[j], core.demux.stash, s.slots[1 - c]);
    var s1 := Next(s, Recv(c, j));
    assert s.slots[1 - c := s.slots[1 - c]] == s.slots;
    if s1.cores[c].pc.Polling? {
      steps, end := LoopIsARun(s1, c);
    } else {
      steps, end := [], s1;
      NoSteps(s1);
    }
    RunFirst(s, Recv(c, j), steps, end);
    steps := [Recv(c, j)] + steps;
  }

  /** A frame is answered exactly as it was staged. */
  lemma AnswersStaged(rx: Rx, stash: Stash, slot: Slot)
    requires WellFormed(slot)
    ensures var (rx', _, _, answer) := MailboxPolls.RecvSpec(rx, stash, slot);
            answer.Received? ==> rx'.staged.Some? && answer.frame == rx'.staged.value.(peer := rx'.role) && rx'.delivered
  {
    hide PollStash, TakeSpec, Route;
  }

  /** A send that does not go to the mailbox is over at once: a self-send or an oversized frame changes nothing
      but the sender's registered lane, and a frame for a role on this core goes to its slot, on that role's
      lane, and is logged if the stash takes it. */
  lemma SendElsewhere(s: World, c: CoreId, i: nat, target: Role, frameLabel: Byte, lane: Byte, payload: seq<Byte>)
    requires Enabled(s, Send(c, i, target, frameLabel, lane, payload)) && !GoesToMailbox(s.cores[c], s.cores[c].txs[i], target, payload)
    ensures var core, tx := s.cores[c], s.cores[c].txs[i];
            var registered := core.(lanes := core.lanes[tx.role := tx.lane]);
            var core' := Next(s, Send(c, i, target, frameLabel, lane, payload)).cores[c];
            && Next(s, Send(c, i, target, frameLabel, lane, payload)) == s.(cores := s.cores[c := core'])
            && if target == tx.role || |payload| > 128 then core' == registered
               else
                 && target in core.lanes
                 && var f := Frame(tx.session, tx.role, target, frameLabel, core.lanes[target], payload);
                    && core' == registered.(demux := core'.demux, local := core'.local)
                    && if target >= 3 || target in core.demux.stash then core'.demux == core.demux && core'.local == core.local
                       else core'.demux.stash == core.demux.stash[target := f] && core'.local == core.local + [f]
                            && core'.demux.delivered == core.demux.delivered
  {}
}
