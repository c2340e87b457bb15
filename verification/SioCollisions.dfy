/** When a whole poll of the word-stream carrier drops a frame, and a run in which it does. */
module SioCollisions {
  import opened Wire
  import opened SioCodec
  import opened SioDevice
  import opened Demux
  import opened Drains
  import opened SioCarrier
  import opened SioPolls
  import opened SioRounds
  import opened SioLosses
  import opened SioGuarantees

  // ---------------------------------------------------------------- draining, frame by frame

  lemma {:induction false} DrainPrefix(f: Frame, from: nat, till: nat, stash: Stash, role: Role, lane: Byte)
    requires Legal(f) && from <= till < |Words(f)|
    ensures Accumulating(Words(f)[..from])
    ensures Drain(Words(f)[..from], stash, Words(f)[from..till], role, lane) == (Words(f)[..till], stash, [], Empty)
    decreases till - from
  {
    hide Words, Push, Accumulating, Legal, Route;
    PushNextWord(f, from);
    var part := Words(f)[from..till];
    if from < till {
      assert part[0] == Words(f)[from] && part[1..] == Words(f)[from + 1..till];
      DrainPrefix(f, from + 1, till, stash, role, lane);
    }
  }

  lemma {:induction false} DrainFrame(f: Frame, from: nat, rest: seq<Word>, stash: Stash, role: Role, lane: Byte)
    requires Legal(f) && from < |Words(f)|
    ensures Accumulating(Words(f)[..from])
    ensures Drain(Words(f)[..from], stash, Words(f)[from..] + rest, role, lane)
         == var (stash', routed) := Route(LAYOUT, stash, role, lane, f);
            match routed
            case Staged => ([], stash', rest, Got(f))
            case Refused(e) => ([], stash', rest, Failure(e))
            case Stashed => Drain([], stash', rest, role, lane)
    decreases |Words(f)| - from
  {
    hide Words, Push, Accumulating, Legal, Route;
    PushNextWord(f, from);
    var fifo := Words(f)[from..] + rest;
    assert fifo[0] == Words(f)[from];
    if from + 1 < |Words(f)| {
      assert fifo[1..] == Words(f)[from + 1..] + rest;
      DrainFrame(f, from + 1, rest, stash, role, lane);
    } else {
      assert fifo[1..] == rest;
    }
  }

  /** The pop loop takes the frames whose words are there one after the other, whatever part of the first
      was accumulated before and whatever part of a further frame `g` follows. */
  lemma {:induction false} DrainIsFrames(fs: seq<Frame>, n: nat, g: Frame, m: nat, stash: Stash, role: Role, lane: Byte)
    requires AllLegal(fs) && Legal(g) && m < |Words(g)|
    requires if fs == [] then n <= m else n < |Words(fs[0])|
    ensures var words := Flatten(fs) + Words(g)[..m];
            && n <= |words| && Accumulating(words[..n])
            && var (stash', taken, end) := DrainFrames(LAYOUT, stash, fs, role, lane);
               Drain(words[..n], stash, words[n..], role, lane)
               == if end.Empty? then (Words(g)[..m], stash', [], Empty) else ([], stash', Flatten(fs[taken..]) + Words(g)[..m], end)
    decreases |fs|
  {
    hide Words, Legal, Accumulating, Route, Drain;
    var part := Words(g)[..m];
    var words := Flatten(fs) + part;
    if fs == [] {
      assert words == part && part[..n] == Words(g)[..n] && part[n..] == Words(g)[n..m];
      DrainPrefix(g, n, m, stash, role, lane);
    } else {
      var f, rest := fs[0], Flatten(fs[1..]) + part;
      assert words == Words(f) + rest;
      assert words[..n] == Words(f)[..n] && words[n..] == Words(f)[n..] + rest;
      DrainFrame(f, n, rest, stash, role, lane);
      var (stash', routed) := Route(LAYOUT, stash, role, lane, f);
      if routed.Stashed? {
        DrainFirstWord(fs[1..]);
        DrainIsFrames(fs[1..], 0, g, m, stash', role, lane);
        assert rest[..0] == [] && rest[0..] == rest;
        var taken := DrainFrames(LAYOUT, stash', fs[1..], role, lane).1;
        assert fs[1..][taken..] == fs[taken + 1..];
      }
    }
  }

  lemma DrainFirstWord(fs: seq<Frame>)
    requires AllLegal(fs)
    ensures fs != [] ==> |Words(fs[0])| > 0
  {}

  // ---------------------------------------------------------------- when a poll fails

  /** Sixteen roles have a slot; a frame for any other is turned away with the same error as one whose slot is
      taken. */
  lemma SlotsOfTheCarrier(stash: Stash, f: Frame)
    ensures var (after, routed) := StashFrame(LAYOUT, stash, f);
            if f.peer < 16 && f.peer !in stash then routed == Stashed && after == stash[f.peer := f]
            else routed == Refused(Capacity) && after == stash
  {}

  lemma {:induction false} DrainError(fs: seq<Frame>, stash: Stash, role: Role, lane: Byte)
    ensures var end := DrainFrames(LAYOUT, stash, fs, role, lane).2; end.Failure? ==> end.error == Capacity
    decreases |fs|
  {
    if fs != [] {
      DrainError(fs[1..], stash[fs[0].peer := fs[0]], role, lane);
    }
  }

  /** The specification of a whole poll with a quiet peer answers an error if and only if, before the first
      frame for its own role and lane, there is a frame whose slot is missing, occupied, or claimed by an
      earlier frame. */
  lemma PollFailsExactlyOnCollision(fs: seq<Frame>, n: nat, g: Frame, m: nat, rx: Rx, stash: Stash)
    requires AllLegal(fs) && Legal(g) && m < |Words(g)|
    requires if fs == [] then n <= m else n < |Words(fs[0])|
    requires !Redelivers(rx) && rx.role !in stash
    ensures var words := Flatten(fs) + Words(g)[..m];
            && n <= |words| && Accumulating(words[..n])
            && var answer := RecvSpec(rx, words[..n], stash, words[n..]).4;
               && (answer.RecvFailed? <==> Collides(LAYOUT, stash, fs, rx.role, rx.lane))
               && (answer.RecvFailed? ==> answer.error == Capacity)
  {
    hide Words, Legal, Accumulating, Drain, DrainFrames, Collides, Flatten;
    DrainError(fs, stash, rx.role, rx.lane);
    DrainIsFrames(fs, n, g, m, stash, rx.role, rx.lane);
    DrainFails(LAYOUT, stash, fs, rx.role, rx.lane);
  }

  // ---------------------------------------------------------------- a run that drops a frame

  function Fresh(txs: seq<Tx>, rxs: seq<Rx>): Core {
    Core(txs, rxs, [], Demux(map[], [], []), Idle, None, None, [], [], 0, [], 0, 0)
  }

  function FromOneToTwo(session: Word, frameLabel: Byte, lane: Byte): Frame {
    Frame(session, 1, 2, frameLabel, lane, [])
  }

  /** Role 1 on core 1 and role 0 on core 0. */
  function Pair(session: Word, lane: Byte): World {
    World(RESET, [Fresh([], [Rx(0, lane, None, false, false)]), Fresh([Tx(1, session, None)], [])])
  }

  lemma {:induction false} SendShort(s: World, start: World, before: seq<Step>, frameLabel: Byte, lane: Byte, session: Word)
    returns (steps: seq<Step>, end: World)
    requires Init(start) && RunOf(start, before, s)
    requires |s.cores| == 2 && s.cores[1].txs == [Tx(1, session, None)] && s.cores[1].pc == Idle
    requires WellFormed(s.dev) && |s.dev.fifo[1]| <= 4
    ensures RunOf(start, before + steps, end) && |end.cores| == 2
    ensures var f := FromOneToTwo(session, frameLabel, lane);
            && Legal(f) && |Words(f)| == 4
            && end.cores[1].acked == s.cores[1].acked + [f] && end.cores[1].wire == s.cores[1].wire + [f] && end.cores[1].txs == s.cores[1].txs && end.cores[1].pc == Idle
            && end.dev == s.dev.(fifo := s.dev.fifo[1 := s.dev.fifo[1] + Words(f)]) && end.cores[0] == s.cores[0]
  {
    hide Burst, AdvanceTx, AdvanceRx, Next, TxPcValid, RxPcValid, RxSide, Streaming;
    var f := FromOneToTwo(session, frameLabel, lane);
    WordCount(f);
    Reachable(start, before, s);
    assert TxSide(s.cores[1], 1);
    var fifo, index := Burst(s.dev.fifo[1], Words(f), 0, FIFO_DEPTH).0, Burst(s.dev.fifo[1], Words(f), 0, FIFO_DEPTH).1;
    assert index == 4 && Words(f)[0..4] == Words(f) && fifo == s.dev.fifo[1] + Words(f);
    steps, end := SendIsARun(s, 1, 0, 2, frameLabel, lane, []);
    RunConcat(start, before, s, steps, end);
  }

  /** A frame that is acknowledged and then dropped: role 1 sends two frames to role 2, both are answered Ok,
      then role 0, which shares a core with role 2, polls. The first frame takes role 2's only slot and the
      second is gone, with one error answered to role 0. */
  lemma {:induction false} AcknowledgedFrameIsDropped(session: Word, lane: Byte, first: Byte, second: Byte)
    returns (steps: seq<Step>, s: World)
    requires first != second
    ensures var start, a, b := Pair(session, lane), FromOneToTwo(session, first, lane), FromOneToTwo(session, second, lane);
            && Init(start) && RunOf(start, steps, s) && |s.cores| == 2
            && s.cores[1].acked == s.cores[1].wire == [a, b]
            && Lost(s.cores[0].demux.arrived) == [b] && s.cores[0].refused == 1
            && s.cores[0].demux.delivered == [] && s.cores[0].demux.stash == map[2 := a]
            && s.dev.fifo == [[], []] && s.cores[0].acc == []
  {
    hide Drain, DrainFrames, Inv, Next, Lost, Copies, Streaming, Words, Possible;
    var start, a, b := Pair(session, lane), FromOneToTwo(session, first, lane), FromOneToTwo(session, second, lane);
    assert RunOf(start, [], start);
    var xs, s1 := SendShort(start, start, [], first, lane, session);
    var ys, s2 := SendShort(s1, start, [] + xs, second, lane, session);
    PairCollides(a, b, lane);
    assert s2.dev.fifo[1] == Words(a) + Words(b);
    var zs;
    zs, s := RecvIsARun(s2, 0, 0);
    steps := [] + xs + ys + zs;
    RunConcat(start, [] + xs + ys, s2, zs, s);
    SecondIsLost(start, steps, s, a, b);
  }

  lemma SecondIsLost(start: World, steps: seq<Step>, s: World, a: Frame, b: Frame)
    requires Init(start) && RunOf(start, steps, s) && |s.cores| == 2
    requires Legal(a) && Legal(b) && a != b && a.peer == b.peer == 2 && b.sender == 1
    requires s.cores[1].wire == [a, b] && |s.cores[1].txs| == 1 && s.cores[1].txs[0].pending.None?
    requires s.dev.fifo == [[], []] && s.cores[0].acc == [] && s.cores[0].demux.delivered == [] && s.cores[0].demux.stash == map[2 := a]
    requires s.cores[0].refused + s.cores[0].broken == 1
    ensures Lost(s.cores[0].demux.arrived) == [b] && s.cores[0].refused == 1
  {
    hide Lost, Copies, Words, Inv, RxSide, TxSide, RunOf, NeverDrops, Rest, InProgress;
    var sender, receiver := s.cores[1], s.cores[0];
    NoSilentLoss(start, steps, s, 0, b);
    IdleSender(sender, 1);
    var sent := [a, b];
    assert Flatten(sent[receiver.received..]) == [] + [] + [];
    FlattenEmpty(sent[receiver.received..]);
    OneLost(receiver.demux, a, b);
  }

  lemma IdleSender(core: Core, c: CoreId)
    requires TxSide(core, c) && |core.txs| == 1 && core.txs[0].pending.None?
    ensures InProgress(core) == [] && Rest(core, c) == []
  {}

  lemma FlattenEmpty(fs: seq<Frame>)
    requires AllLegal(fs) && Flatten(fs) == []
    ensures fs == []
  {}

  lemma OneLost(d: Demux, a: Frame, b: Frame)
    requires a != b && a.peer == 2 && b.peer == 2 && d.stash == map[2 := a] && |Lost(d.arrived)| == 1
    requires Copies([a, b], b) == Copies([], b) + Held(d.stash, b) + Copies(Lost(d.arrived), b) + Copies([], b)
    ensures Lost(d.arrived) == [b]
  {
    hide Lost;
    assert [a, b] == [a] + [b];
    assert multiset([a, b])[b] == 1;
    assert b in Lost(d.arrived);
  }

  lemma PairCollides(a: Frame, b: Frame, lane: Byte)
    requires Legal(a) && Legal(b) && a.peer == b.peer == 2
    ensures Accumulating([])
    ensures Drain([], map[], Words(a) + Words(b), 0, lane) == ([], map[2 := a], [], Failure(Capacity))
  {
    hide Words, Drain, Accumulating, Legal;
    WordCount(a);
    WordCount(b);
    var fs := [a, b];
    assert fs[1..] == [b] && [b][1..] == [];
    assert Flatten([]) == [] && Flatten([b]) == Words(b) + [] && Flatten(fs) == Words(a) + (Words(b) + []);
    DrainIsFrames(fs, 0, a, 0, map[], 0, lane);
    var words := Flatten(fs) + Words(a)[..0];
    assert words == Words(a) + Words(b) && words[..0] == [] && words[0..] == words;
    assert DrainFrames(LAYOUT, map[2 := a], [b], 0, lane) == (map[2 := a], 1, Failure(Capacity));
    assert fs[2..] == [] && Flatten(fs[2..]) + Words(a)[..0] == [];
  }
}
