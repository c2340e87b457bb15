/** Runs of the mailbox carrier in which a role is first registered on a core after a frame was sent to it
    from there, or on another lane than the frame's. */
module MailboxLateRoles {
  import opened Wire
  import opened Demux
  import opened Endpoints
  import opened MailboxSlot
  import opened MailboxCarrier
  import opened MailboxRounds
  import opened MailboxLosses
  import opened MailboxGuarantees
  import MailboxCollisions
  import MailboxPolls

  function FromZero(session: Word, peer: Role, frameLabel: Byte, lane: Byte): Frame {
    Frame(session, 0, peer, frameLabel, lane, [])
  }

  function Unstaged(role: Role, lane: Byte): Rx {
    Rx(role, lane, None, false, false)
  }

  /** Core 0 has a sender of role 0 and a receiver of role 2, core 1 a receiver of role 1. */
  function Trio(session: Word, lane: Byte): World {
    World([EmptySlot(), EmptySlot()],
          [MailboxCollisions.Fresh([Tx(0, lane, session, None)], [Unstaged(2, lane)]), MailboxCollisions.Fresh([], [Unstaged(1, lane)])],
          [{0, 2}, {1}])
  }

  /** A run of the three roles in which every poll is complete. */
  ghost predicate Quiet(start: World, steps: seq<Step>, s: World, session: Word, lane: Byte) {
    && Init(start) && RunOf(start, steps, s) && Shape(s) && s.home == [{0, 2}, {1}]
    && s.cores[0].pc == Idle && s.cores[1].pc == Idle && !s.slots[1].occupied
    && |s.cores[0].txs| == 1 && s.cores[0].txs[0] == Tx(0, lane, session, s.cores[0].txs[0].pending)
    && s.cores[0].rxs == [Unstaged(2, lane)] && |s.cores[1].rxs| == 1
    && s.cores[1].rxs[0].role == 1 && s.cores[1].rxs[0].lane == lane && !s.cores[1].rxs[0].requeued
  }

  /** Nothing was handed over and no error returned in between. */
  predicate SameErrors(core: Core, core': Core) {
    core'.demux.delivered == core.demux.delivered && core'.refused + core'.invalid == core.refused + core.invalid
  }

  lemma TrioIsQuiet(session: Word, lane: Byte)
    ensures Quiet(Trio(session, lane), [], Trio(session, lane), session, lane)
  {}

  /** Role 0 sends an empty frame through the mailbox: the pending frame goes out if the mailbox is free. */
  lemma {:induction false} SendOut(start: World, before: seq<Step>, s: World, session: Word, lane: Byte, peer: Role, frameLabel: Byte)
    returns (steps: seq<Step>, end: World)
    requires Quiet(start, before, s, session, lane) && peer != 0 && peer !in s.cores[0].lanes
    requires var p := s.cores[0].txs[0].pending; p.Some? ==> Legal(p.value.frame) && !p.value.published
    ensures Quiet(start, before + steps, end, session, lane) && end.cores[1] == s.cores[1]
    ensures var core, core', f := s.cores[0], end.cores[0], FromZero(session, peer, frameLabel, lane);
            var g := if core.txs[0].pending.Some? then core.txs[0].pending.value.frame else f;
            && core'.lanes == core.lanes[0 := lane] && core'.local == core.local && core'.demux == core.demux && SameErrors(core, core')
            && if s.slots[0].occupied then
                 && end.slots == s.slots && core'.txs[0].pending == Some(Pending(g, false))
                 && core'.wire == core.wire && core'.acked == core.acked
               else
                 && end.slots[0].occupied && Holds(end.slots[0], g) && core'.txs[0].pending == None
                 && core'.wire == core.wire + [g] && core'.acked == core.acked + [f]
  {
    hide Holds, AdvanceTx, AdvanceRx, BeginSend, TxPcValid, RxPcValid, RunOf, Init;
    steps, end := SendIsARun(s, 0, 0, peer, frameLabel, lane, []);
    RunConcat(start, before, s, steps, end);
  }

  /** Role 2 polls on core 0 and finds nothing; from now on it is registered there. */
  lemma {:induction false} RegisterTwo(start: World, before: seq<Step>, s: World, session: Word, lane: Byte)
    returns (steps: seq<Step>, end: World)
    requires Quiet(start, before, s, session, lane) && s.cores[0].demux.stash == map[]
    ensures Quiet(start, before + steps, end, session, lane) && end.cores[1] == s.cores[1] && end.slots == s.slots
    ensures var core, core' := s.cores[0], end.cores[0];
            && core'.lanes == core.lanes[2 := lane] && core'.local == core.local && core'.demux.stash == map[] && SameErrors(core, core')
            && core'.txs == core.txs && core'.wire == core.wire && core'.acked == core.acked
  {
    hide AdvanceTx, AdvanceRx, BeginRecv, TxPcValid, RxPcValid, RunOf, Init;
    steps, end := RecvIsARun(s, 0, 0);
    assert s.slots[1 := s.slots[1]] == s.slots;
    RunConcat(start, before, s, steps, end);
  }

  /** Role 0 sends to role 2, registered on the same core: the frame is stashed on the registered lane. */
  lemma {:induction false} SendToTwo(start: World, before: seq<Step>, s: World, session: Word, lane: Byte, frameLabel: Byte, sentOn: Byte)
    returns (steps: seq<Step>, end: World)
    requires Quiet(start, before, s, session, lane) && s.cores[0].demux.stash == map[]
    requires 2 in s.cores[0].lanes && s.cores[0].lanes[2] == lane
    ensures Quiet(start, before + steps, end, session, lane) && end.cores[1] == s.cores[1] && end.slots == s.slots
    ensures var core, core', f := s.cores[0], end.cores[0], FromZero(session, 2, frameLabel, lane);
            && core'.lanes == core.lanes[0 := lane] && core'.local == core.local + [f] && core'.demux.stash == map[2 := f] && SameErrors(core, core')
            && core'.txs == core.txs && core'.wire == core.wire && core'.acked == core.acked
  {
    hide AdvanceTx, AdvanceRx, BeginRecv, TxPcValid, RxPcValid, RunOf, Init;
    var send := Send(0, 0, 2, frameLabel, sentOn, []);
    end := Next(s, send);
    NoSteps(end);
    RunFirst(s, send, [], end);
    steps := [send] + [];
    RunConcat(start, before, s, steps, end);
  }

  /** Role 1 polls on core 1 and takes what is in the mailbox. */
  lemma {:induction false} PollOne(start: World, before: seq<Step>, s: World, session: Word, lane: Byte, f: Frame)
    returns (steps: seq<Step>, end: World)
    requires Quiet(start, before, s, session, lane) && s.slots[0].occupied && Holds(s.slots[0], f)
    requires s.cores[1].demux.stash == map[] && !Redelivers(s.cores[1].rxs[0])
    requires f.lane == lane && (f.peer == 1 || f.peer == 2)
    ensures Quiet(start, before + steps, end, session, lane) && end.cores[0] == s.cores[0] && !end.slots[0].occupied
    ensures end.cores[1].demux.stash == (if f.peer == 1 then map[] else map[2 := f]) && !Redelivers(end.cores[1].rxs[0])
    ensures end.cores[1].refused + end.cores[1].invalid == s.cores[1].refused + s.cores[1].invalid
  {
    hide AdvanceTx, AdvanceRx, BeginRecv, TxPcValid, RxPcValid, RunOf, Init, Holds, TakeSpec;
    TakePublished(s.slots[0], f);
    steps, end := RecvIsARun(s, 1, 0);
    RunConcat(start, before, s, steps, end);
  }

  /** A frame answered Ok that nobody ever gets, without an error: the mailbox is full when role 0 first sends
      `b` to role 2; role 2 is then registered on core 0 and `b` sent again, which goes through the stash but
      leaves the old copy pending; the next send, of `c` to role 1, publishes that copy and answers Ok for `c`. */
  lemma {:induction false} AcknowledgedFrameIsNeverSent(session: Word, lane: Byte, first: Byte, second: Byte, third: Byte)
    returns (steps: seq<Step>, s: World)
    requires first != third
    ensures var start := Trio(session, lane);
            var a, b, c := FromZero(session, 1, first, lane), FromZero(session, 2, second, lane), FromZero(session, 1, third, lane);
            && Init(start) && RunOf(start, steps, s) && Shape(s) && !NeverSwaps(start, steps, 0) && |s.cores[0].txs| == 1
            && s.cores[0].acked == [a, c] && s.cores[0].wire == [a, b] && s.cores[0].local == [b]
            && s.cores[0].txs[0].pending == None && !s.slots[0].occupied && !s.slots[1].occupied
            && s.cores[0].demux.stash == map[2 := b] && s.cores[1].demux.stash == map[2 := b]
            && c !in s.cores[0].demux.delivered && c !in s.cores[1].demux.delivered
            && s.cores[0].refused == s.cores[1].refused == s.cores[1].invalid == 0
  {
    hide RunOf, Init, Holds, NeverSwaps, Enabled, TakeSpec;
    var start := Trio(session, lane);
    var a, b, c := FromZero(session, 1, first, lane), FromZero(session, 2, second, lane), FromZero(session, 1, third, lane);
    TrioIsQuiet(session, lane);
    var more, s1 := SendOut(start, [], start, session, lane, 1, first);
    steps := [] + more;
    var s2, s3, s4, s5, s6;
    more, s2 := SendOut(start, steps, s1, session, lane, 2, second);
    steps := steps + more;
    more, s3 := RegisterTwo(start, steps, s2, session, lane);
    steps := steps + more;
    more, s4 := SendToTwo(start, steps, s3, session, lane, second, lane);
    steps := steps + more;
    more, s5 := PollOne(start, steps, s4, session, lane, a);
    steps := steps + more;
    more, s6 := SendOut(start, steps, s5, session, lane, 1, third);
    steps := steps + more;
    more, s := PollOne(start, steps, s6, session, lane, b);
    steps := steps + more;
    NeverDelivered(start, steps, s, session, lane, a, b, c);
  }

  lemma NeverDelivered(start: World, steps: seq<Step>, s: World, session: Word, lane: Byte, a: Frame, b: Frame, c: Frame)
    requires Quiet(start, steps, s, session, lane) && s.cores[0].wire == [a, b] && s.cores[0].acked == [a, c]
    requires s.cores[0].local == [b] && s.cores[0].demux.delivered == [] && a != c && b != c && c.sender == 0
    ensures !NeverSwaps(start, steps, 0) && c !in s.cores[1].demux.delivered
  {
    hide RunOf, Init, Copies, NeverSwaps, NeverDrops, Lost;
    AcknowledgedIsPublished(start, steps, s, 0);
    assert [a, b][1] == b && [a, c][1] == c;
    MailboxLosesNothingSilently(start, steps, s, 1, c);
    NoCopies([a, b], c);
    SomeCopy(s.cores[1].demux.delivered, c);
  }

  lemma SomeCopy(fs: seq<Frame>, f: Frame)
    requires Copies(fs, f) == 0
    ensures f !in fs
  {
    assert f in fs <==> f in multiset(fs);
  }

  /** A frame that arrives on another lane than it was sent on: role 2 is registered on core 0, role 0 sends to
      it on another lane, and role 2's next poll is handed the frame on its own lane. */
  lemma {:induction false} FrameChangesLane(session: Word, lane: Byte, sentOn: Byte, frameLabel: Byte)
    returns (steps: seq<Step>, before: World, s: World)
    requires sentOn != lane
    ensures var start, f, send := Trio(session, lane), FromZero(session, 2, frameLabel, sentOn), Send(0, 0, 2, frameLabel, sentOn, []);
            && Init(start) && RunOf(start, steps, before) && Enabled(before, send)
            && Next(before, send).cores[0].local == [f.(lane := lane)]
            && RunOf(Next(before, send), [Recv(0, 0)], s) && Shape(s)
            && s.cores[0].rxs == [Rx(2, lane, Some(f.(lane := lane)), false, true)]
  {
    hide RunOf, Init;
    var start, send := Trio(session, lane), Send(0, 0, 2, frameLabel, sentOn, []);
    TrioIsQuiet(session, lane);
    steps, before := RegisterTwo(start, [], start, session, lane);
    steps := [] + steps;
    var mid := Next(before, send);
    s := Next(mid, Recv(0, 0));
    NoSteps(s);
    RunFirst(mid, Recv(0, 0), [], s);
    assert [Recv(0, 0)] + [] == [Recv(0, 0)];
  }
}
