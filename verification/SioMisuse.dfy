/** Runs of the word-stream carrier in which one call breaks what its caller should keep to. Every other step
    of these runs is an ordinary one. */
module SioMisuse {
  import opened Wire
  import opened SioCodec
  import opened SioDevice
  import opened SioCuts
  import opened Demux
  import opened Endpoints
  import opened SioCarrier
  import opened SioPolls
  import opened SioRounds
  import opened SioLosses
  import opened SioGuarantees
  import opened SioCollisions

  function FromTo(session: Word, sender: Role, frameLabel: Byte, lane: Byte, payload: seq<Byte>): Frame {
    Frame(session, sender, 1, frameLabel, lane, payload)
  }

  /** Senders of roles 0 and 2 on core 0, a receiver of role 1 on core 1. */
  function Trio(session: Word, lane: Byte): World {
    World(RESET, [Fresh([Tx(0, session, None), Tx(2, session, None)], []), Fresh([], [Rx(1, lane, None, false, false)])])
  }

  /** A frame of nine words needs a second call: eight words are out and accumulated, the ninth is pending. */
  ghost predicate HalfSent(start: World, steps: seq<Step>, s: World, session: Word, lane: Byte, a: Frame) {
    && Init(start) && RunOf(start, steps, s) && |s.cores| == 2 && WellFormed(s.dev)
    && Legal(a) && |Words(a)| == 9
    && s.cores[0].pc == Idle && s.cores[1].pc == Idle && s.dev.fifo == [[], []]
    && s.cores[0].txs == [Tx(0, session, Some(Pending(a, 8))), Tx(2, session, None)]
    && s.cores[0].wire == [a] && s.cores[0].acked == [] && s.cores[0].active == Some(0) && s.cores[0].local == []
    && s.cores[1].rxs == [Rx(1, lane, None, false, false)] && s.cores[1].demux.stash == map[] && s.cores[1].acc == Words(a)[..8]
  }

  lemma TrioOpens(session: Word, lane: Byte)
    ensures Init(Trio(session, lane))
  {}

  lemma {:induction false} NineWords(session: Word, lane: Byte, frameLabel: Byte, payload: seq<Byte>) returns (steps: seq<Step>, s: World)
    requires |payload| == 20
    ensures HalfSent(Trio(session, lane), steps, s, session, lane, FromTo(session, 0, frameLabel, lane, payload))
  {
    hide Burst, Drain, Words, AdvanceTx, AdvanceRx, Push, TakeWord, RunOf, Init, RecvSpec, BeginSend, BeginRecv;
    var start, a := Trio(session, lane), FromTo(session, 0, frameLabel, lane, payload);
    TrioOpens(session, lane);
    WordCount(a);
    BurstFromEmpty(Words(a), 0, FIFO_DEPTH);
    var xs, mid := SendIsARun(start, 0, 0, 1, frameLabel, lane, payload);
    assert mid.dev.fifo[0] == Words(a)[..8];
    EightWords(a, mid.cores[1].rxs[0]);
    var ys;
    ys, s := RecvIsARun(mid, 1, 0);
    RunConcat(start, xs, mid, ys, s);
    steps := xs + ys;
    MidFrame(start, steps, s);
  }

  lemma MidFrame(start: World, steps: seq<Step>, s: World)
    requires Init(start) && RunOf(start, steps, s) && |s.cores| == 2 && |s.cores[0].txs| > 0
    requires s.cores[0].txs[0].pending.Some? && s.cores[0].txs[0].pending.value.index > 0
    ensures s.cores[0].active == Some(0)
  {
    hide Inv, RunOf, Init;
    Reachable(start, steps, s);
    SenderSide(s, 0);
    assert TxValid(s.cores[0], s.cores[0].txs[0], 0, 0);
  }

  lemma EightWords(a: Frame, rx: Rx)
    requires Legal(a) && |Words(a)| == 9 && rx == Rx(a.peer, a.lane, None, false, false)
    ensures RecvSpec(rx, [], map[], Words(a)[..8]) == (rx, Words(a)[..8], map[], [], RecvPending)
  {
    hide Words, Drain, Push;
    DrainPart(a, 0, 8, map[]);
    assert Words(a)[..0] == [] && Words(a)[0..8] == Words(a)[..8];
  }

  /** The first frame with its last four payload bytes taken from the magic word. */
  function Spoiled(a: Frame): Frame
    requires |a.payload| == 20
  {
    a.(payload := a.payload[..16] + BytesOf([FRAME_MAGIC], 4))
  }

  /** With eight words of `a` accumulated, the first word of any other frame completes it, spoiled. */
  lemma NextFrameCompletes(a: Frame, b: Frame, rx: Rx)
    requires Legal(a) && Legal(b) && |a.payload| == 20 && rx == Rx(a.peer, a.lane, None, false, false)
    ensures |Words(a)| == 9 && Accumulating(Words(a)[..8])
    ensures RecvSpec(rx, Words(a)[..8], map[], Words(b))
         == (rx.(staged := Some(Spoiled(a)), delivered := true), [], map[], Words(b)[1..], Received(Spoiled(a)))
  {
    hide Words, Push, DecodeWords, Expected, GoodMeta, Accumulating;
    var ws := Words(a)[..8] + [FRAME_MAGIC];
    WordCount(a);
    WordsHeader(b);
    CutShape(a, 8, [FRAME_MAGIC]);
    CutPayload(a, 8, [FRAME_MAGIC]);
    PushWhole(ws, 8);
    assert ws[..8] == Words(a)[..8] && ws[8] == FRAME_MAGIC;
  }

  lemma {:induction false} ReceiverIsSpoiled(s: World, a: Frame, b: Frame, lane: Byte) returns (steps: seq<Step>, end: World)
    requires |s.cores| == 2 && WellFormed(s.dev) && s.cores[1].pc == Idle && s.cores[1].rxs == [Rx(1, lane, None, false, false)]
    requires Legal(a) && Legal(b) && |a.payload| == 20 && a.peer == 1 && a.lane == lane
    requires |Words(a)| >= 8 && s.cores[1].acc == Words(a)[..8] && s.cores[1].demux.stash == map[] && s.dev.fifo[0] == Words(b)
    ensures RunOf(s, steps, end) && |end.cores| == 2 && end.cores[0] == s.cores[0]
    ensures end.cores[1].rxs == [Rx(1, lane, Some(Spoiled(a)), false, true)]
  {
    hide Words, RecvSpec, AdvanceTx, AdvanceRx, BeginSend, BeginRecv, RunOf, Accumulating, Spoiled;
    NextFrameCompletes(a, b, s.cores[1].rxs[0]);
    steps, end := RecvIsARun(s, 1, 0);
  }

  /** Role 2 begins while role 0 is in the middle of a frame. */
  lemma SecondBegins(start: World, steps: seq<Step>, s: World, session: Word, lane: Byte, a: Frame, other: Byte)
    requires HalfSent(start, steps, s, session, lane, a)
    ensures var send, b := Send(0, 1, 1, other, lane, []), FromTo(session, 2, other, lane, []);
            && Legal(b) && Possible(s, send) && !KeepsFramesWhole(s.cores[0], send)
            && Next(s, send) == s.(cores := s.cores[0 := s.cores[0].(txs := s.cores[0].txs[1 := Tx(2, session, Some(Pending(b, 0)))],
                                                                    pc := Offering(1), asked := Some(b))])
  {
    hide Words, RunOf, Init;
  }

  /** A second sender of the same core in the middle of a frame: role 0 has eight of nine words out when role 2
      sends an empty frame. Role 2 is answered Ok, and role 1 receives a frame that nobody sent. */
  lemma {:induction false} SecondSenderSpoilsRun(session: Word, lane: Byte, frameLabel: Byte, payload: seq<Byte>, other: Byte)
    returns (before: seq<Step>, s: World, after: seq<Step>, end: World)
    requires |payload| == 20 && payload[16..] != BytesOf([FRAME_MAGIC], 4)
    ensures var start, a, b := Trio(session, lane), FromTo(session, 0, frameLabel, lane, payload), FromTo(session, 2, other, lane, []);
            var send := Send(0, 1, 1, other, lane, []);
            && Init(start) && RunOf(start, before, s) && Possible(s, send) && !KeepsFramesWhole(s.cores[0], send)
            && RunOf(Next(s, send), after, end) && |end.cores| == 2
            && end.cores[0].wire == [a, b] && end.cores[0].acked == [b]
            && end.cores[1].rxs == [Rx(1, lane, Some(Spoiled(a)), false, true)] && Spoiled(a) != a && Spoiled(a) != b
  {
    hide Words, Burst, RunOf, Init, AdvanceTx, AdvanceRx, BeginSend, BeginRecv, Next, KeepsFramesWhole;
    var a, b := FromTo(session, 0, frameLabel, lane, payload), FromTo(session, 2, other, lane, []);
    before, s := NineWords(session, lane, frameLabel, payload);
    SecondBegins(Trio(session, lane), before, s, session, lane, a, other);
    WordCount(b);
    BurstFromEmpty(Words(b), 0, FIFO_DEPTH);
    var xs, mid := BurstIsARun(Next(s, Send(0, 1, 1, other, lane, [])), 0);
    assert mid.dev.fifo[0] == Words(b)[0..4] == Words(b);
    var ys;
    ys, end := ReceiverIsSpoiled(mid, a, b, lane);
    RunConcat(Next(s, Send(0, 1, 1, other, lane, [])), xs, mid, ys, end);
    after := xs + ys;
    assert Spoiled(a).payload[16..] == BytesOf([FRAME_MAGIC], 4);
  }

  /** A cancel in the middle of a frame: role 0 has eight of nine words out, cancels and sends an empty frame.
      It is answered Ok, and role 1 receives a frame that nobody sent. */
  lemma {:induction false} CancelSpoilsRun(session: Word, lane: Byte, frameLabel: Byte, payload: seq<Byte>, other: Byte)
    returns (before: seq<Step>, s: World, after: seq<Step>, end: World)
    requires |payload| == 20 && payload[16..] != BytesOf([FRAME_MAGIC], 4)
    ensures var start, a, b := Trio(session, lane), FromTo(session, 0, frameLabel, lane, payload), FromTo(session, 0, other, lane, []);
            var cancel := Cancel(0, 0);
            && Init(start) && RunOf(start, before, s) && Possible(s, cancel) && !KeepsFramesWhole(s.cores[0], cancel)
            && RunOf(Next(s, cancel), after, end) && |end.cores| == 2
            && end.cores[0].wire == [a, b] && end.cores[0].acked == [b]
            && end.cores[1].rxs == [Rx(1, lane, Some(Spoiled(a)), false, true)] && Spoiled(a) != a && Spoiled(a) != b
  {
    hide Words, Burst, RunOf, Init, AdvanceTx, AdvanceRx;
    var a, b := FromTo(session, 0, frameLabel, lane, payload), FromTo(session, 0, other, lane, []);
    before, s := NineWords(session, lane, frameLabel, payload);
    WordCount(b);
    BurstFromEmpty(Words(b), 0, FIFO_DEPTH);
    var xs, mid := SendIsARun(Next(s, Cancel(0, 0)), 0, 0, 1, other, lane, []);
    assert mid.dev.fifo[0] == Words(b)[0..4] == Words(b);
    var ys;
    ys, end := ReceiverIsSpoiled(mid, a, b, lane);
    RunConcat(Next(s, Cancel(0, 0)), xs, mid, ys, end);
    after := xs + ys;
    assert Spoiled(a).payload[16..] == BytesOf([FRAME_MAGIC], 4);
  }

  /** A frame answered Ok that is never sent: role 0 has eight of nine words of `a` out and calls `poll_send`
      with another frame `b`. The call finishes `a` and answers Ok for `b`. */
  lemma {:induction false} AcknowledgedFrameIsNeverSent(session: Word, lane: Byte, frameLabel: Byte, payload: seq<Byte>, other: Byte)
    returns (steps: seq<Step>, s: World)
    requires |payload| == 20
    ensures var start, a, b := Trio(session, lane), FromTo(session, 0, frameLabel, lane, payload), FromTo(session, 0, other, lane, []);
            && Init(start) && RunOf(start, steps, s) && |s.cores| == 2 && !NeverSwaps(start, steps, 0)
            && s.cores[0].wire == [a] && s.cores[0].acked == [b] && a != b
            && s.cores[0].txs == [Tx(0, session, None), Tx(2, session, None)] && s.cores[0].local == []
  {
    hide Words, Burst, RunOf, Init, AdvanceTx, AdvanceRx, NeverSwaps, InProgress;
    var start, a, b := Trio(session, lane), FromTo(session, 0, frameLabel, lane, payload), FromTo(session, 0, other, lane, []);
    var xs, mid := NineWords(session, lane, frameLabel, payload);
    BurstOne(Words(a), 8);
    var ys;
    ys, s := SendIsARun(mid, 0, 0, 1, other, lane, []);
    RunConcat(start, xs, mid, ys, s);
    steps := xs + ys;
    AcknowledgedIsSent(start, steps, s, 0);
    assert InProgress(s.cores[0]) == [] && [b] + [] == [b] && [a][0] == a && [b][0] == b;
  }

  lemma BurstOne(ws: seq<Word>, index: nat)
    requires |ws| == index + 1
    ensures Burst([], ws, index, FIFO_DEPTH).1 == |ws|
  {}
}
