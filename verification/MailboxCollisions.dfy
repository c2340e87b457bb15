/** When a whole poll of the mailbox carrier drops a frame, and runs in which it does. */
module MailboxCollisions {
  import opened Wire
  import opened Demux
  import opened Endpoints
  import opened MailboxSlot
  import opened MailboxCarrier
  import opened MailboxRounds
  import opened MailboxLosses
  import opened MailboxGuarantees
  import MailboxPolls

  // ---------------------------------------------------------------- when a poll fails

  /** A poll answers an error if and only if it gets as far as the mailbox and finds there a malformed frame,
      or one that is for another endpoint and whose slot is missing or taken. The error says which. */
  lemma PollFailsExactlyOnRefusal(rx: Rx, stash: Stash, slot: Slot)
    requires WellFormed(slot) && RightSlots(LAYOUT, stash)
    ensures var answer := MailboxPolls.RecvSpec(rx, stash, slot).3;
            var reaches := !Redelivers(rx) && rx.role !in stash;
            && (answer.RecvFailed? <==>
                  reaches && match TakeSpec(slot) case Vacant => false case Invalid(_) => true
                             case Taken(f) => Refuses(LAYOUT, stash, rx.role, rx.lane, f))
            && (answer.RecvFailed? && TakeSpec(slot).Taken? ==>
                  answer.error == if HasSlot(LAYOUT, TakeSpec(slot).frame.peer) then Capacity else Failed)
  {
    hide TakeSpec, Refuses, Route, PollStash, HasSlot;
    WrongLanePollChangesNothing(LAYOUT, stash, rx.role, rx.lane);
    EmptySlotIsNoHit(stash, rx.role, rx.lane);
    if TakeSpec(slot).Taken? {
      RouteRefuses(LAYOUT, stash, rx.role, rx.lane, TakeSpec(slot).frame);
    }
  }

  lemma EmptySlotIsNoHit(stash: Stash, role: Role, lane: Byte)
    ensures PollStash(LAYOUT, stash, role, lane).1.Nothing? <==> role !in stash
  {}

  // ---------------------------------------------------------------- runs that drop a frame

  function Fresh(txs: seq<Tx>, rxs: seq<Rx>): Core {
    Core(txs, rxs, Demux(map[], [], []), map[], Idle, None, [], [], 0, [], 0, 0)
  }

  function FromOne(session: Word, peer: Role, frameLabel: Byte, lane: Byte): Frame {
    Frame(session, 1, peer, frameLabel, lane, [])
  }

  /** Role 1 on core 1 and role 0 on core 0. */
  function Pair(session: Word, lane: Byte): World {
    World([EmptySlot(), EmptySlot()], [Fresh([], [Rx(0, lane, None, false, false)]), Fresh([Tx(1, lane, session, None)], [])], [{0}, {1}])
  }

  /** A run of the pair in which every poll is complete. */
  ghost predicate Quiet(start: World, steps: seq<Step>, s: World, session: Word, lane: Byte) {
    && Init(start) && RunOf(start, steps, s) && Shape(s) && s.home == [{0}, {1}]
    && s.cores[0].pc == Idle && s.cores[1].pc == Idle && s.cores[0].rxs == [Rx(0, lane, None, false, false)]
    && s.cores[1].txs == [Tx(1, lane, session, None)] && s.cores[1].lanes.Keys <= {1}
  }

  /** Role 1 sends an empty frame for a role above 1 through the free mailbox. */
  lemma {:induction false} SendShort(start: World, before: seq<Step>, s: World, session: Word, lane: Byte, peer: Role, frameLabel: Byte)
    returns (steps: seq<Step>, end: World)
    requires Quiet(start, before, s, session, lane) && peer > 1 && !s.slots[1].occupied
    ensures Quiet(start, before + steps, end, session, lane) && end.cores[0] == s.cores[0]
    ensures var f := FromOne(session, peer, frameLabel, lane);
            end.cores[1].acked == s.cores[1].acked + [f] && end.cores[1].wire == s.cores[1].wire + [f] && TakeSpec(end.slots[1]) == Taken(f) && end.slots[1].occupied
  {
    hide Holds, AdvanceTx, AdvanceRx, BeginSend, TxPcValid, RxPcValid, RunOf, Init;
    var f := FromOne(session, peer, frameLabel, lane);
    steps, end := SendIsARun(s, 1, 0, peer, frameLabel, lane, []);
    RunConcat(start, before, s, steps, end);
    TakePublished(end.slots[1], f);
    assert end.cores[1].txs == [Tx(1, lane, session, None)];
  }

  /** Role 0 polls and gets nothing for itself. */
  lemma {:induction false} PollForOthers(start: World, before: seq<Step>, s: World, session: Word, lane: Byte, f: Frame)
    returns (steps: seq<Step>, end: World)
    requires Quiet(start, before, s, session, lane) && s.slots[1].occupied && TakeSpec(s.slots[1]) == Taken(f)
    requires f.peer != 0 && 0 !in s.cores[0].demux.stash
    ensures Quiet(start, before + steps, end, session, lane) && end.cores[1] == s.cores[1] && !end.slots[1].occupied
    ensures end.cores[0].demux.delivered == s.cores[0].demux.delivered
    ensures end.cores[0].demux.stash == StashFrame(LAYOUT, s.cores[0].demux.stash, f).0
    ensures var routed := StashFrame(LAYOUT, s.cores[0].demux.stash, f).1;
            end.cores[0].refused + end.cores[0].invalid == s.cores[0].refused + s.cores[0].invalid + (if routed.Refused? then 1 else 0)
  {
    hide TakeSpec, AdvanceTx, AdvanceRx, BeginRecv, TxPcValid, RxPcValid, RunOf, Init;
    steps, end := RecvIsARun(s, 0, 0);
    RunConcat(start, before, s, steps, end);
  }

  lemma PairIsQuiet(session: Word, lane: Byte)
    ensures Quiet(Pair(session, lane), [], Pair(session, lane), session, lane)
  {}

  /** A frame for a role without a slot: it is published and acknowledged, and every poll of the other core
      turns it away with `Failed`. */
  lemma {:induction false} UnknownRoleIsDropped(session: Word, lane: Byte, peer: Role, frameLabel: Byte)
    returns (steps: seq<Step>, s: World)
    requires peer > 2
    ensures var start, f := Pair(session, lane), FromOne(session, peer, frameLabel, lane);
            && Init(start) && RunOf(start, steps, s) && Shape(s)
            && s.cores[1].acked == s.cores[1].wire == [f] && Lost(s.cores[0].demux.arrived) == [f] && s.cores[0].refused == 1
            && s.cores[0].demux.delivered == [] && s.cores[0].demux.stash == map[] && !s.slots[1].occupied
            && StashFrame(LAYOUT, map[], f).1 == Refused(Failed)
  {
    hide RunOf, Lost, TakeSpec;
    var start, f := Pair(session, lane), FromOne(session, peer, frameLabel, lane);
    PairIsQuiet(session, lane);
    var xs, s1 := SendShort(start, [], start, session, lane, peer, frameLabel);
    var ys;
    ys, s := PollForOthers(start, [] + xs, s1, session, lane, f);
    steps := [] + xs + ys;
    assert [] + [f] == [f] && [] + [f] == [] + [f];
    LastIsLost(start, steps, s, session, lane, [], f);
  }

  /** A frame whose slot is taken: role 1 sends two frames to role 2, which does not poll; both are answered
      Ok, role 0 polls after each, and the second frame is gone. */
  lemma {:induction false} AcknowledgedFrameIsDropped(session: Word, lane: Byte, first: Byte, second: Byte)
    returns (steps: seq<Step>, s: World)
    requires first != second
    ensures var start, a, b := Pair(session, lane), FromOne(session, 2, first, lane), FromOne(session, 2, second, lane);
            && Init(start) && RunOf(start, steps, s) && Shape(s)
            && s.cores[1].acked == s.cores[1].wire == [a, b] && Lost(s.cores[0].demux.arrived) == [b] && s.cores[0].refused == 1
            && s.cores[0].demux.delivered == [] && s.cores[0].demux.stash == map[2 := a] && !s.slots[1].occupied
  {
    hide RunOf, Lost, TakeSpec;
    var start, a, b := Pair(session, lane), FromOne(session, 2, first, lane), FromOne(session, 2, second, lane);
    PairIsQuiet(session, lane);
    var xs, s1 := SendShort(start, [], start, session, lane, 2, first);
    var ys, s2 := PollForOthers(start, [] + xs, s1, session, lane, a);
    var zs, s3 := SendShort(start, [] + xs + ys, s2, session, lane, 2, second);
    var us;
    us, s := PollForOthers(start, [] + xs + ys + zs, s3, session, lane, b);
    steps := [] + xs + ys + zs + us;
    assert [] + [a] + [b] == [a] + [b] == [a, b];
    LastIsLost(start, steps, s, session, lane, [a], b);
  }

  /** With the mailbox empty again and one error answered, the frame that is nowhere is the one lost. */
  lemma LastIsLost(start: World, steps: seq<Step>, s: World, session: Word, lane: Byte, others: seq<Frame>, f: Frame)
    requires Quiet(start, steps, s, session, lane) && !s.slots[1].occupied
    requires s.cores[1].wire == others + [f] && f !in others && f.sender == 1
    requires s.cores[0].demux.delivered == [] && Held(s.cores[0].demux.stash, f) == 0
    requires s.cores[0].refused + s.cores[0].invalid == 1
    ensures Lost(s.cores[0].demux.arrived) == [f] && s.cores[0].refused == 1
  {
    hide RunOf, Init, Lost, Copies, NeverDrops;
    MailboxLosesNothingSilently(start, steps, s, 0, f);
    NeverTorn(start, steps, s, 0);
    var sent := SentTo(s, 0, FlowOf(f));
    assert sent == others + [f];
    assert sent[s.cores[0].taken..] == [];
    NoCopies([], f);
    NoCopies(others, f);
    CopiesAppend(others, f, f);
    OnlyCopy(Lost(s.cores[0].demux.arrived), f);
  }

  lemma OnlyCopy(fs: seq<Frame>, f: Frame)
    requires |fs| == 1 && Copies(fs, f) == 1
    ensures fs == [f]
  {
    assert fs == [fs[0]];
    assert f in multiset(fs);
  }
}
