/** Whole polls against the interleaved carrier, and how many of them a delivery takes. */
module SioRounds {
  import opened Wire
  import opened SioCodec
  import opened SioDevice
  import opened Demux
  import opened Drains
  import opened Endpoints
  import opened SioCarrier
  import opened SioPolls
  import opened Runs

  // ---------------------------------------------------------------- a poll is a run without interference

  /** Only what pushing may change is changed. */
  predicate SendOnly(core: Core, core': Core) {
    core' == core.(txs := core'.txs, pc := core'.pc, active := core'.active, acked := core'.acked, wire := core'.wire)
  }

  /** The push loop of `poll_send` is a run of the sender's steps: same FIFO, same progress, the core is idle
      again afterwards; the frame is on the wire once a word is out, and acknowledged once all are. */
  lemma {:induction false} BurstIsARun(s: World, c: CoreId) returns (steps: seq<Step>, end: World)
    requires |s.cores| == 2 && WellFormed(s.dev)
    requires s.cores[c].pc.Offering? && TxPcValid(s.cores[c])
    requires var p := s.cores[c].txs[s.cores[c].pc.tx].pending.value; p.index <= TotalWords(p.frame)
    ensures RunOf(s, steps, end) && |end.cores| == 2 && WellFormed(end.dev) && AllAre(steps, TxStep(c))
    ensures var i := s.cores[c].pc.tx;
            var p := s.cores[c].txs[i].pending.value;
            var (fifo, index) := Burst(s.dev.fifo[c], Words(p.frame), p.index, FIFO_DEPTH);
            && end.dev == s.dev.(fifo := s.dev.fifo[c := fifo])
            && end.cores[c].pc == Idle
            && end.cores[c].txs == s.cores[c].txs[i := s.cores[c].txs[i].(pending := if index == |Words(p.frame)| then None else Some(Pending(p.frame, index)))]
            && SendOnly(s.cores[c], end.cores[c]) && end.cores[1 - c] == s.cores[1 - c]
            && end.cores[c].wire == (if p.index == 0 && index > 0 then s.cores[c].wire + [p.frame] else s.cores[c].wire)
            && end.cores[c].active == (if index == |Words(p.frame)| then None else if index > p.index then Some(i) else s.cores[c].active)
            && (s.cores[c].asked.Some? ==>
                  end.cores[c].acked == if index == |Words(p.frame)| then s.cores[c].acked + [s.cores[c].asked.value] else s.cores[c].acked)
    decreases var p := s.cores[c].txs[s.cores[c].pc.tx].pending.value; TotalWords(p.frame) - p.index
  {
    hide TotalWords, WordAt, Words, Legal, Burst, AdvanceTx, AdvanceRx, BeginSend, BeginRecv, RunOf;
    var i := s.cores[c].pc.tx;
    var p := s.cores[c].txs[i].pending.value;
    WordCount(p.frame);
    BurstStep(s.dev.fifo[c], Words(p.frame), p.index, FIFO_DEPTH);
    if p.index >= TotalWords(p.frame) || |s.dev.fifo[c]| == FIFO_DEPTH {
      end := PushEnds(s, c);
      steps := [TxStep(c)];
      assert s.dev.fifo[c := s.dev.fifo[c]] == s.dev.fifo;
    } else {
      var s2 := PushTwoSteps(s, c);
      WordOfFrame(p.frame, p.index);
      steps, end := BurstIsARun(s2, c);
      var fifo := Burst(s2.dev.fifo[c], Words(p.frame), p.index + 1, FIFO_DEPTH).0;
      assert s2.dev.fifo[c := fifo] == s.dev.fifo[c := fifo];
      assert s2.cores[c].txs[i := end.cores[c].txs[i]] == s.cores[c].txs[i := end.cores[c].txs[i]];
      RunPrefix(s, TxStep(c), TxStep(c), steps, end);
      steps := [TxStep(c), TxStep(c)] + steps;
    }
  }

  /** A check that finds the frame out, or the FIFO full, ends the call. */
  lemma {:induction false} PushEnds(s: World, c: CoreId) returns (end: World)
    requires |s.cores| == 2 && WellFormed(s.dev) && s.cores[c].pc.Offering? && TxPcValid(s.cores[c])
    requires var p := s.cores[c].txs[s.cores[c].pc.tx].pending.value; p.index >= TotalWords(p.frame) || |s.dev.fifo[c]| == FIFO_DEPTH
    ensures RunOf(s, [TxStep(c)], end)
    ensures var core, i := s.cores[c], s.cores[c].pc.tx;
            var done := core.txs[i].pending.value.index >= TotalWords(core.txs[i].pending.value.frame);
            end == World(s.dev, s.cores[c :=
              if done then core.(txs := core.txs[i := core.txs[i].(pending := None)], active := None, pc := Idle,
                                 acked := if core.asked.Some? then core.acked + [core.asked.value] else core.acked)
              else core.(pc := Idle)])
  {
    hide TotalWords, WordAt, Legal;
    end := Next(s, TxStep(c));
    assert RunOf(end, [], end);
  }

  /** A check that finds room, then the write of the next word. */
  lemma {:induction false} PushTwoSteps(s: World, c: CoreId) returns (end: World)
    requires |s.cores| == 2 && WellFormed(s.dev) && s.cores[c].pc.Offering? && TxPcValid(s.cores[c])
    requires var p := s.cores[c].txs[s.cores[c].pc.tx].pending.value; p.index < TotalWords(p.frame) && |s.dev.fifo[c]| < FIFO_DEPTH
    ensures Enabled(s, TxStep(c)) && Enabled(Next(s, TxStep(c)), TxStep(c)) && end == Next(Next(s, TxStep(c)), TxStep(c))
    ensures var core, i := s.cores[c], s.cores[c].pc.tx;
            var p := core.txs[i].pending.value;
            && end.dev == s.dev.(fifo := s.dev.fifo[c := s.dev.fifo[c] + [WordAt(p.frame, p.index)]])
            && end.cores == s.cores[c := core.(txs := core.txs[i := core.txs[i].(pending := Some(Pending(p.frame, p.index + 1)))],
                                               active := Some(i), wire := if p.index == 0 then core.wire + [p.frame] else core.wire)]
    ensures WellFormed(end.dev) && TxPcValid(end.cores[c])
  {
    hide TotalWords, WordAt, Legal;
    var s1 := Next(s, TxStep(c));
    end := Next(s1, TxStep(c));
    assert s1.cores[c := end.cores[c]] == s.cores[c := end.cores[c]];
  }

  lemma RunPrefix(s: World, a: Step, b: Step, steps: seq<Step>, end: World)
    requires Enabled(s, a) && Enabled(Next(s, a), b) && RunOf(Next(Next(s, a), b), steps, end)
    ensures RunOf(s, [a, b] + steps, end)
  {
    hide Possible, Next;
    var tail := [b] + steps;
    assert tail[1..] == steps;
    assert RunOf(Next(s, a), tail, end);
    assert ([a, b] + steps)[1..] == tail;
  }

  /** The pop loop of `poll_recv` is a run of the receiver's steps: same FIFO, accumulator and stash,
      and what it hands over is staged at the polling endpoint and logged as delivered. */
  lemma {:induction false} DrainIsARun(s: World, c: CoreId) returns (steps: seq<Step>, end: World)
    requires |s.cores| == 2 && WellFormed(s.dev)
    requires s.cores[c].pc.Polling? && RxPcValid(s.cores[c])
    ensures RunOf(s, steps, end) && |end.cores| == 2 && WellFormed(end.dev) && AllAre(steps, RxStep(c))
    ensures var core, j := s.cores[c], s.cores[c].pc.rx;
            var (acc, stash, fifo, stop) := Drain(core.acc, core.demux.stash, s.dev.fifo[1 - c], core.rxs[j].role, core.rxs[j].lane);
            && end.dev == s.dev.(fifo := s.dev.fifo[1 - c := fifo])
            && end.cores[c].pc == Idle && end.cores[c].acc == acc && end.cores[c].demux.stash == stash
            && end.cores[c].rxs == (if stop.Got? then core.rxs[j := core.rxs[j].(staged := Some(stop.frame), delivered := true)] else core.rxs)
            && end.cores[c].demux.delivered == (if stop.Got? then core.demux.delivered + [stop.frame] else core.demux.delivered)
            && ReceiveOnly(core, end.cores[c]) && end.cores[1 - c] == s.cores[1 - c]
            && end.cores[c].refused + end.cores[c].broken == core.refused + core.broken + (if stop.Failure? then 1 else 0)
    decreases |s.dev.fifo[1 - c]|
  {
    hide Next, Possible, TakeWord, Push, Route;
    var core, peer: CoreId, j := s.cores[c], 1 - c, s.cores[c].pc.rx;
    if s.dev.fifo[peer] == [] {
      end := PollEmpty(s, c);
      steps := [RxStep(c)];
      assert s.dev.fifo[peer := []] == s.dev.fifo;
    } else {
      var s2 := PopTwoSteps(s, c);
      TakeWordIsDrainStep(core, j, s.dev.fifo[peer]);
      if s2.cores[c].pc.Polling? {
        steps, end := DrainIsARun(s2, c);
        var fifo := Drain(s2.cores[c].acc, s2.cores[c].demux.stash, s2.dev.fifo[peer], core.rxs[j].role, core.rxs[j].lane).2;
        assert s2.dev.fifo[peer := fifo] == s.dev.fifo[peer := fifo];
      } else {
        steps, end := [], s2;
      }
      RunPrefix(s, RxStep(c), RxStep(c), steps, end);
      steps := [RxStep(c), RxStep(c)] + steps;
    }
  }

  /** A status read that finds the FIFO empty ends the poll. */
  lemma {:induction false} PollEmpty(s: World, c: CoreId) returns (end: World)
    requires |s.cores| == 2 && WellFormed(s.dev) && s.cores[c].pc.Polling? && RxPcValid(s.cores[c])
    requires s.dev.fifo[1 - c] == []
    ensures RunOf(s, [RxStep(c)], end)
    ensures end == World(s.dev, s.cores[c := s.cores[c].(pc := Idle)])
  {
    end := Next(s, RxStep(c));
    assert RunOf(end, [], end);
  }

  /** A status read that finds a word, then the read of that word. */
  lemma {:induction false} PopTwoSteps(s: World, c: CoreId) returns (end: World)
    requires |s.cores| == 2 && WellFormed(s.dev) && s.cores[c].pc.Polling? && RxPcValid(s.cores[c])
    requires s.dev.fifo[1 - c] != []
    ensures Enabled(s, RxStep(c)) && Enabled(Next(s, RxStep(c)), RxStep(c)) && end == Next(Next(s, RxStep(c)), RxStep(c))
    ensures end == World(s.dev.(fifo := s.dev.fifo[1 - c := s.dev.fifo[1 - c][1..]]),
                         s.cores[c := TakeWord(s.cores[c].(pc := Reading(s.cores[c].pc.rx)), s.cores[c].pc.rx, s.dev.fifo[1 - c][0])])
    ensures WellFormed(end.dev) && RxPcValid(end.cores[c])
  {
    hide Push, Arrive, Accumulating;
    var s1 := Next(s, RxStep(c));
    end := Next(s1, RxStep(c));
    assert s1.cores[c := end.cores[c]] == s.cores[c := end.cores[c]];
  }

  /** Taking one word is one unfolding of the drain. */
  lemma TakeWordIsDrainStep(core: Core, j: nat, fifo: seq<Word>)
    requires j < |core.rxs| && Accumulating(core.acc) && core.pc == Polling(j) && fifo != []
    ensures var core' := TakeWord(core.(pc := Reading(j)), j, fifo[0]);
            && (core'.pc == Idle || core'.pc == Polling(j)) && ReceiveOnly(core, core') && Accumulating(core'.acc)
            && var (role, lane) := (core.rxs[j].role, core.rxs[j].lane);
               var stop := Drain(core.acc, core.demux.stash, fifo, role, lane);
               if core'.pc == Polling(j) then
                 && core'.rxs == core.rxs && core'.demux.delivered == core.demux.delivered
                 && core'.refused + core'.broken == core.refused + core.broken
                 && stop == Drain(core'.acc, core'.demux.stash, fifo[1..], role, lane)
               else
                 && stop.0 == core'.acc && stop.1 == core'.demux.stash && stop.2 == fifo[1..] && !stop.3.Empty?
                 && core'.rxs == (if stop.3.Got? then core.rxs[j := core.rxs[j].(staged := Some(stop.3.frame), delivered := true)] else core.rxs)
                 && core'.demux.delivered == (if stop.3.Got? then core.demux.delivered + [stop.3.frame] else core.demux.delivered)
                 && core'.refused + core'.broken == core.refused + core.broken + (if stop.3.Failure? then 1 else 0)
  {
    hide Push, Accumulating;
  }

  lemma RunFirst(s: World, a: Step, steps: seq<Step>, end: World)
    requires Enabled(s, a) && RunOf(Next(s, a), steps, end)
    ensures RunOf(s, [a] + steps, end)
  {
    hide Possible, Next;
    assert ([a] + steps)[1..] == steps;
  }

  lemma {:induction false} RunConcat(s: World, xs: seq<Step>, mid: World, ys: seq<Step>, end: World)
    requires RunOf(s, xs, mid) && RunOf(mid, ys, end)
    ensures RunOf(s, xs + ys, end)
    decreases |xs|
  {
    hide Possible, Next;
    if xs == [] {
      assert xs + ys == ys;
    } else {
      RunConcat(Next(s, xs[0]), xs[1..], mid, ys, end);
      assert (xs + ys)[1..] == xs[1..] + ys;
    }
  }

  /** The head of `poll_recv` against the specification of the whole poll: it either settles the poll or
      leaves it to the pop loop. */
  lemma RecvHead(core: Core, j: nat, fifo: seq<Word>)
    requires j < |core.rxs| && core.pc == Idle && Accumulating(core.acc)
    ensures var core', rx := BeginRecv(core, j), core.rxs[j];
            var (rx', acc, stash, fifo', answer) := RecvSpec(rx, core.acc, core.demux.stash, fifo);
            && ReceiveOnly(core, core') && core'.acc == core.acc && core'.broken == core.broken
            && if core'.pc == Polling(j) then
                 && core'.rxs == core.rxs[j := Cleared(rx)]
                 && core'.demux.delivered == core.demux.delivered && core'.refused == core.refused
                 && var (acc1, stash1, fifo1, stop) := Drain(core.acc, core'.demux.stash, fifo, rx.role, rx.lane);
                    && (acc, stash, fifo') == (acc1, stash1, fifo1)
                    && rx' == (if stop.Got? then Cleared(rx).(staged := Some(stop.frame), delivered := true) else Cleared(rx))
                    && answer == match stop case Empty => RecvPending case Failure(e) => RecvFailed(e) case Got(f) => Received(f.(peer := rx.role))
               else
                 && core'.pc == Idle && core'.rxs == core.rxs[j := rx'] && core'.demux.stash == stash && (acc, fifo') == (core.acc, fifo)
                 && core'.refused == core.refused + (if answer.RecvFailed? then 1 else 0)
                 && (answer.Received? ==> rx'.staged.Some? && answer.frame == rx'.staged.value.(peer := rx'.role))
                 && (!answer.Received? ==> core'.demux.delivered == core.demux.delivered)
  {
    hide Drain, PollStash, Accumulating;
  }

  /** A whole `poll_recv` is a run without interference: it leaves exactly what its specification says. */
  lemma {:induction false} RecvIsARun(s: World, c: CoreId, j: nat) returns (steps: seq<Step>, end: World)
    requires |s.cores| == 2 && WellFormed(s.dev) && s.cores[c].pc == Idle && j < |s.cores[c].rxs|
    requires Accumulating(s.cores[c].acc)
    ensures RunOf(s, steps, end) && CallOf(steps, Recv(c, j), RxStep(c))
    ensures var core := s.cores[c];
            var (rx, acc, stash, fifo, answer) := RecvSpec(core.rxs[j], core.acc, core.demux.stash, s.dev.fifo[1 - c]);
            && |end.cores| == 2 && end.dev == s.dev.(fifo := s.dev.fifo[1 - c := fifo])
            && end.cores[c].pc == Idle && end.cores[c].acc == acc && end.cores[c].demux.stash == stash
            && end.cores[c].rxs == core.rxs[j := rx] && ReceiveOnly(core, end.cores[c]) && end.cores[1 - c] == s.cores[1 - c]
            && end.cores[c].refused + end.cores[c].broken == core.refused + core.broken + (if answer.RecvFailed? then 1 else 0)
            && (answer.Received? ==> rx.staged.Some? && answer.frame == rx.staged.value.(peer := rx.role))
            && (!answer.Received? ==> end.cores[c].demux.delivered == core.demux.delivered)
  {
    hide Drain, Accumulating, AdvanceTx, AdvanceRx, RecvSpec, BeginRecv;
    var core := s.cores[c];
    RecvHead(core, j, s.dev.fifo[1 - c]);
    var s1 := Next(s, Recv(c, j));
    if s1.cores[c].pc.Polling? {
      steps, end := DrainIsARun(s1, c);
      RunFirst(s, Recv(c, j), steps, end);
      steps := [Recv(c, j)] + steps;
    } else {
      steps, end := [Recv(c, j)], s1;
      assert RunOf(s1, [], s1);
      assert s.dev.fifo[1 - c := s.dev.fifo[1 - c]] == s.dev.fifo;
    }
  }

  /** So is a whole `poll_send` of a frame that goes out over the FIFO; it answers Ok
      for the frame it was called with when all words of the pending frame are out, be it another one or not. */
  lemma {:induction false} SendIsARun(s: World, c: CoreId, i: nat, target: Role, frameLabel: Byte, lane: Byte, payload: seq<Byte>)
    returns (steps: seq<Step>, end: World)
    requires Enabled(s, Send(c, i, target, frameLabel, lane, payload)) && GoesToFifo(s.cores[c].txs[i], c, target, payload)
    requires var p := s.cores[c].txs[i].pending; p.Some? ==> Legal(p.value.frame) && p.value.index <= TotalWords(p.value.frame)
    ensures RunOf(s, steps, end) && CallOf(steps, Send(c, i, target, frameLabel, lane, payload), TxStep(c))
    ensures var tx := s.cores[c].txs[i];
            var f := Frame(tx.session, tx.role, target, frameLabel, lane, payload);
            var p := if tx.pending.Some? then tx.pending.value else Pending(f, 0);
            var (fifo, index) := Burst(s.dev.fifo[c], Words(p.frame), p.index, FIFO_DEPTH);
            && |end.cores| == 2 && end.dev == s.dev.(fifo := s.dev.fifo[c := fifo])
            && end.cores[c].pc == Idle
            && end.cores[c].txs == s.cores[c].txs[i := tx.(pending := if index == |Words(p.frame)| then None else Some(Pending(p.frame, index)))]
            && SendOnly(s.cores[c].(asked := Some(f)), end.cores[c]) && end.cores[1 - c] == s.cores[1 - c]
            && end.cores[c].wire == (if p.index == 0 && index > 0 then s.cores[c].wire + [p.frame] else s.cores[c].wire)
            && end.cores[c].acked == (if index == |Words(p.frame)| then s.cores[c].acked + [f] else s.cores[c].acked)
            && end.cores[c].active == (if index == |Words(p.frame)| then None else if index > p.index then Some(i) else s.cores[c].active)
  {
    hide Words, Burst, TotalWords, WordAt, AdvanceTx, AdvanceRx, BeginRecv;
    var first := Send(c, i, target, frameLabel, lane, payload);
    var tx := s.cores[c].txs[i];
    var s1 := Next(s, first);
    if tx.pending.None? {
      WordCount(Frame(tx.session, tx.role, target, frameLabel, lane, payload));
    }
    steps, end := BurstIsARun(s1, c);
    RunFirst(s, first, steps, end);
    steps := [first] + steps;
  }

  /** A send that does not go to the FIFO is over at once: a self-send or an oversized frame changes nothing, and a
      frame for a role on this core goes to its slot and is logged if the stash takes it. */
  lemma SendElsewhere(s: World, c: CoreId, i: nat, target: Role, frameLabel: Byte, lane: Byte, payload: seq<Byte>)
    requires Enabled(s, Send(c, i, target, frameLabel, lane, payload)) && !GoesToFifo(s.cores[c].txs[i], c, target, payload)
    ensures var core, tx := s.cores[c], s.cores[c].txs[i];
            var core' := Next(s, Send(c, i, target, frameLabel, lane, payload)).cores[c];
            && Next(s, Send(c, i, target, frameLabel, lane, payload)) == s.(cores := s.cores[c := core'])
            && if target == tx.role || |payload| > 128 then core' == core
               else
                 var f := Frame(tx.session, tx.role, target, frameLabel, lane, payload);
                 && (if target == 1 then c == 1 else c == 0) && core' == core.(demux := core'.demux, local := core'.local)
                 && if target in core.demux.stash then core'.demux == core.demux && core'.local == core.local
                    else core'.demux.stash == core.demux.stash[target := f] && core'.local == core.local + [f]
                         && core'.demux.delivered == core.demux.delivered
  {}

  // ---------------------------------------------------------------- how many polls a delivery takes

  /** Draining part of a frame meant for this endpoint accumulates it, draining the rest delivers it. */
  lemma {:induction false} DrainPart(f: Frame, from: nat, till: nat, stash: Stash)
    requires Legal(f) && from < |Words(f)| && from <= till <= |Words(f)|
    ensures Accumulating(Words(f)[..from])
    ensures Drain(Words(f)[..from], stash, Words(f)[from..till], f.peer, f.lane)
            == if till < |Words(f)| then (Words(f)[..till], stash, [], Empty) else ([], stash, [], Got(f))
    decreases till - from
  {
    hide Words, Push, Accumulating, Legal;
    PushNextWord(f, from);
    var part := Words(f)[from..till];
    if from < till {
      assert part[0] == Words(f)[from] && part[1..] == Words(f)[from + 1..till];
      if from + 1 < |Words(f)| {
        DrainPart(f, from + 1, till, stash);
      }
    }
  }

  lemma RecvPart(f: Frame, from: nat, till: nat, rx: Rx, stash: Stash)
    requires Legal(f) && from < till <= |Words(f)| && rx.role == f.peer && rx.lane == f.lane && !Redelivers(rx) && f.peer !in stash
    ensures Accumulating(Words(f)[..from])
    ensures RecvSpec(rx, Words(f)[..from], stash, Words(f)[from..till])
         == if till < |Words(f)| then (Cleared(rx), Words(f)[..till], stash, [], RecvPending)
            else (Cleared(rx).(staged := Some(f), delivered := true), [], stash, [], Received(f))
  {
    hide Words, Drain, Accumulating;
    DrainPart(f, from, till, stash);
  }

  /** Alternating a full `poll_send` of `f` with a full `poll_recv` until a frame is received or nothing
      moves: the number of rounds and the frame. */
  function Alternate(f: Frame, index: nat, rx: Rx, acc: seq<Word>, stash: Stash, fifo: seq<Word>, depth: nat): (nat, Option<Frame>)
    requires Legal(f) && index <= |Words(f)| && |fifo| <= depth && Accumulating(acc)
    decreases |Words(f)| - index
  {
    var (fifo1, index1) := Burst(fifo, Words(f), index, depth);
    var (rx', acc', stash', fifo', answer) := RecvSpec(rx, acc, stash, fifo1);
    if answer.Received? then (1, Some(answer.frame))
    else if index1 == index || |fifo'| > depth || !Accumulating(acc') then (1, None)
    else
      var (rounds, got) := Alternate(f, index1, rx', acc', stash', fifo', depth);
      (rounds + 1, got)
  }

  /** n / d rounded up. */
  function CeilDiv(n: nat, d: nat): (k: nat)
    requires n > 0 && d > 0
    ensures k > 0 && (k - 1) * d < n <= k * d
  {
    if n <= d then 1
    else
      var k := CeilDiv(n - d, d);
      assert k * d == (k - 1) * d + d && (k + 1) * d == k * d + d;
      k + 1
  }

  /** From an empty FIFO and a free stash slot, a frame of n words through a FIFO of depth D is received,
      unchanged, in exactly ceil(n / D) rounds. */
  lemma DeliveryBound(f: Frame, rx: Rx, stash: Stash, depth: nat)
    requires Legal(f) && depth > 0 && f.peer == rx.role && f.lane == rx.lane
    requires rx.role !in stash && !Redelivers(rx)
    ensures Alternate(f, 0, rx, [], stash, [], depth) == (CeilDiv(TotalWords(f), depth), Some(f))
    ensures depth == FIFO_DEPTH ==> CeilDiv(TotalWords(f), depth) <= 5
  {
    hide Alternate;
    WordCount(f);
    assert Words(f)[..0] == [];
    AlternateFrom(f, 0, rx, stash, depth);
  }

  lemma {:induction false} AlternateFrom(f: Frame, index: nat, rx: Rx, stash: Stash, depth: nat)
    requires Legal(f) && index < |Words(f)| && depth > 0 && f.peer == rx.role && f.lane == rx.lane
    requires rx.role !in stash && !Redelivers(rx)
    ensures Accumulating(Words(f)[..index])
    ensures Alternate(f, index, rx, Words(f)[..index], stash, [], depth) == (CeilDiv(|Words(f)| - index, depth), Some(f))
    decreases |Words(f)| - index
  {
    hide Words, Burst, RecvSpec, Accumulating, Legal;
    var ws := Words(f);
    BurstFromEmpty(ws, index, depth);
    var till := if |ws| - index <= depth then |ws| else index + depth;
    RecvPart(f, index, till, rx, stash);
    if till < |ws| {
      AlternateFrom(f, till, Cleared(rx), stash, depth);
    }
  }

  lemma {:induction false} BurstFromEmpty(ws: seq<Word>, index: nat, depth: nat)
    requires index <= |ws|
    ensures var till := if |ws| - index <= depth then |ws| else index + depth;
            Burst([], ws, index, depth) == (ws[index..till], till)
  {
    var (fifo, till) := Burst([], ws, index, depth);
    assert fifo == ws[index..till];
  }

  // ---------------------------------------------------------------- a delivery as a run

  /** The steps of one whole `poll_send` and of one whole `poll_recv`. */
  datatype Round = Round(send: seq<Step>, recv: seq<Step>)

  function StepsOf(rounds: seq<Round>): seq<Step> {
    if rounds == [] then [] else rounds[0].send + rounds[0].recv + StepsOf(rounds[1..])
  }

  predicate RoundsOf(rounds: seq<Round>, send: Step, recv: Step) {
    forall k :: 0 <= k < |rounds| ==>
      CallOf(rounds[k].send, send, TxStep(send.core)) && CallOf(rounds[k].recv, recv, RxStep(recv.core))
  }

  /** Sender `i` of core `c` has the first `index` words of `f` out, and receiver `j` of the other core, whom the
      frame is for, has accumulated them. */
  predicate Halfway(s: World, c: CoreId, i: nat, j: nat, f: Frame, index: nat) {
    && |s.cores| == 2 && WellFormed(s.dev) && Legal(f) && index <= |Words(f)|
    && var sender, receiver := s.cores[c], s.cores[1 - c];
       && sender.pc == Idle && receiver.pc == Idle && i < |sender.txs| && j < |receiver.rxs|
       && s.dev.fifo[c] == [] && (sender.active == None || sender.active == Some(i))
       && sender.txs[i] == Tx(f.sender, f.session, if index == 0 then None else Some(Pending(f, index)))
       && f.peer <= 2 && LivesOn(f.peer, 1 - c)
       && receiver.acc == Words(f)[..index] && receiver.rxs[j].role == f.peer && receiver.rxs[j].lane == f.lane
       && !Redelivers(receiver.rxs[j]) && f.peer !in receiver.demux.stash
  }

  /** The receiver has the frame, all of it, and nothing is left behind. */
  predicate Arrived(s: World, c: CoreId, i: nat, j: nat, f: Frame) {
    && |s.cores| == 2 && WellFormed(s.dev) && s.dev.fifo[c] == []
    && i < |s.cores[c].txs| && s.cores[c].txs[i].pending == None
    && j < |s.cores[1 - c].rxs| && s.cores[1 - c].rxs[j].staged == Some(f) && s.cores[1 - c].rxs[j].delivered
    && s.cores[1 - c].acc == []
  }

  lemma {:induction false} OneRound(s: World, c: CoreId, i: nat, j: nat, f: Frame, index: nat) returns (round: Round, end: World)
    requires Halfway(s, c, i, j, f, index) && index < |Words(f)|
    ensures RunOf(s, round.send + round.recv, end)
    ensures CallOf(round.send, Send(c, i, f.peer, f.frameLabel, f.lane, f.payload), TxStep(c)) && CallOf(round.recv, Recv(1 - c, j), RxStep(1 - c))
    ensures if |Words(f)| - index <= FIFO_DEPTH then Arrived(end, c, i, j, f) && end.cores[c].acked == s.cores[c].acked + [f]
            else Halfway(end, c, i, j, f, index + FIFO_DEPTH) && end.cores[c].acked == s.cores[c].acked
  {
    hide Words, Burst, Drain, AdvanceTx, AdvanceRx, BeginSend, BeginRecv, RunOf, RecvSpec, Accumulating, TotalWords;
    var ws := Words(f);
    var till := if |ws| - index <= FIFO_DEPTH then |ws| else index + FIFO_DEPTH;
    WordCount(f);
    BurstFromEmpty(ws, index, FIFO_DEPTH);
    assert index == 0 ==> ws[..index] == [];
    var xs, mid := SendIsARun(s, c, i, f.peer, f.frameLabel, f.lane, f.payload);
    assert mid.dev.fifo[c] == ws[index..till];
    RecvPart(f, index, till, mid.cores[1 - c].rxs[j], mid.cores[1 - c].demux.stash);
    var ys;
    ys, end := RecvIsARun(mid, 1 - c, j);
    RunConcat(s, xs, mid, ys, end);
    round := Round(xs, ys);
  }

  /** Over the machine: from an empty FIFO and a free slot a frame is delivered by exactly ceil(n / 8) rounds of
      whole calls, every one of which is made of its own accesses; the send is answered Ok in the last. */
  lemma {:induction false} DeliveryRun(s: World, c: CoreId, i: nat, j: nat, f: Frame, index: nat)
    returns (rounds: seq<Round>, end: World)
    requires Legal(f) && Halfway(s, c, i, j, f, index) && index < |Words(f)|
    ensures RunOf(s, StepsOf(rounds), end) && Arrived(end, c, i, j, f) && end.cores[c].acked == s.cores[c].acked + [f]
    ensures RoundsOf(rounds, Send(c, i, f.peer, f.frameLabel, f.lane, f.payload), Recv(1 - c, j))
    ensures |rounds| == CeilDiv(TotalWords(f) - index, FIFO_DEPTH)
    decreases |Words(f)| - index
  {
    hide Words, Halfway, Arrived, RunOf, CallOf, TotalWords, Legal;
    var round, mid := OneRound(s, c, i, j, f, index);
    if |Words(f)| - index <= FIFO_DEPTH {
      end, rounds := mid, [round];
      assert StepsOf([]) == [] && round.send + round.recv + [] == round.send + round.recv;
    } else {
      var more;
      more, end := DeliveryRun(mid, c, i, j, f, index + FIFO_DEPTH);
      rounds := [round] + more;
      RunConcat(s, round.send + round.recv, mid, StepsOf(more), end);
    }
  }
}
