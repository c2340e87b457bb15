/** The carrier over lane-scoped queues: one queue per role, endpoints that receive by lane and can give
    their last frame back. */
module QueueCarrier {
  import opened Wire
  import opened LaneQueue

  const ROLES := 5

  datatype SendResult = Sent | SendFailed
  datatype RecvResult = Received(session: Word, frame: ProofFrame) | RecvPending | RecvFailed

  class ProofRx {
    const role: Role
    const session: Word
    const lane: Byte
    var held: Option<ProofFrame>   // the frame `requeue` would give back

    constructor (role: Role, session: Word, lane: Byte)
      ensures this.role == role && this.session == session && this.lane == lane && held == None
    {
      this.role, this.session, this.lane := role, session, lane;
      held := None;
    }

    ghost predicate Valid()
      reads this
    {
      held.Some? ==> held.value.occupied && held.value.lane == lane
    }
  }

  lemma NothingPopped(q: Queue, lane: Byte)
    ensures Popped(q, lane).1 == None ==> Popped(q, lane).0 == q
  {}

  class ProofCarrier {
    const byRole: seq<ProofQueue>

    ghost predicate Valid()
      reads this, byRole, set q | q in byRole :: q.frames
    {
      && |byRole| == ROLES
      && (forall i :: 0 <= i < ROLES ==> byRole[i].Valid())
      && (forall i, j :: 0 <= i < j < ROLES ==> byRole[i] != byRole[j] && byRole[i].frames != byRole[j].frames)
    }

    /** The queue of every role. */
    ghost function Queues(): (qs: seq<Queue>)
      reads this, byRole, set q | q in byRole :: q.frames
      requires Valid()
      ensures |qs| == ROLES
    {
      seq(ROLES, i requires 0 <= i < ROLES && Valid() reads this, byRole, set q | q in byRole :: q.frames => byRole[i].Contents())
    }

    /** The view shows the queue of the endpoint's role, and the frame the endpoint could give back. */
    ghost predicate Shows(rx: ProofRx, v: LaneView)
      reads this, rx, byRole, set q | q in byRole :: q.frames
      requires Valid()
    {
      rx.role < ROLES && v.queue == Queues()[rx.role] && v.held == rx.held
    }

    /** The view shows the queue of the role. */
    ghost predicate ShowsQueue(role: Role, v: LaneView)
      reads this, byRole, set q | q in byRole :: q.frames
      requires Valid()
    {
      role < ROLES && v.queue == Queues()[role]
    }

    /** `poll_send`: a frame for another role on the endpoint's lane joins that role's queue. Seen from any lane
        of that role, an accepted call is an `OpSend`. */
    method PollSend(role: Role, session: Word, txLane: Byte, target: Role, lane: Byte, frameLabel: Byte, payload: seq<Byte>)
      returns (r: SendResult)
      requires Valid()
      modifies byRole, set q | q in byRole :: q.frames
      ensures Valid()
      ensures r == Sent <==> && session != 0 && target != role && lane == txLane && target < ROLES
                             && Fits(old(Queues())[target], payload)
      ensures Queues() == if r == Sent then old(Queues())[target := old(Queues())[target] + [ProofFrame(true, lane, role, frameLabel, payload)]]
                          else old(Queues())
      ensures r == Sent ==> forall v: LaneView, l: Byte :: old(ShowsQueue(target, v)) ==>
                ShowsQueue(target, Apply(v, l, OpSend(session, ProofFrame(true, lane, role, frameLabel, payload))))
    {
      hide Tidy, Fits, ProofQueue.Valid, ProofQueue.Contents, ProofQueue.Ring;
      ghost var before := Queues();
      if session == 0 || target == role || lane != txLane {
        return SendFailed;
      }
      if target >= ROLES {
        return SendFailed;
      }
      var ok := byRole[target].PushBack(lane, role, frameLabel, payload);
      assert forall i :: 0 <= i < ROLES && i != target ==> byRole[i].Contents() == before[i];
      r := if ok then Sent else SendFailed;
    }

    /** `poll_recv`: takes the first frame of the endpoint's lane. Seen from that lane the call is an `OpRecv`,
        seen from another lane of the role an `OpOtherRecv`. */
    method PollRecv(rx: ProofRx) returns (r: RecvResult)
      requires Valid() && rx.Valid()
      modifies byRole, set q | q in byRole :: q.frames, rx
      ensures Valid() && rx.Valid()
      ensures rx.session == 0 || rx.role >= ROLES ==> r == RecvFailed && Queues() == old(Queues()) && rx.held == old(rx.held)
      ensures rx.session != 0 && rx.role < ROLES ==>
                var (rest, popped) := Popped(old(Queues())[rx.role], rx.lane);
                && Queues() == old(Queues())[rx.role := rest]
                && (popped == None ==> r == RecvPending && rx.held == old(rx.held))
                && (popped.Some? ==> r == Received(rx.session, popped.value) && rx.held == popped)
      ensures rx.session != 0 ==> forall v: LaneView :: old(Shows(rx, v)) ==>
                && Shows(rx, Apply(v, rx.lane, OpRecv))
                && Apply(v, rx.lane, OpRecv).got == (if r.Received? then v.got + [r.frame] else v.got)
      ensures rx.session != 0 ==> forall v: LaneView, l: Byte :: l != rx.lane && old(ShowsQueue(rx.role, v)) ==>
                ShowsQueue(rx.role, Apply(v, l, OpOtherRecv(rx.lane)))
    {
      hide Popped, Tidy, ProofQueue.Valid, ProofQueue.Contents, ProofQueue.Ring;
      if rx.session == 0 || rx.role >= ROLES {
        return RecvFailed;
      }
      ghost var before := Queues();
      assert byRole[rx.role].Contents() == before[rx.role];
      var popped := byRole[rx.role].PopFront(rx.lane);
      assert forall i :: 0 <= i < ROLES && i != rx.role ==> byRole[i].Contents() == before[i];
      NothingPopped(before[rx.role], rx.lane);
      if popped.None? {
        return RecvPending;
      }
      rx.held := popped;
      r := Received(rx.session, popped.value);
    }

    /** `requeue`: puts the held frame back in front and forgets it, so a second call does nothing. Seen from the
        endpoint's lane the call is an `OpRequeue`, seen from another lane of the role an `OpOtherRequeue`. */
    method Requeue(rx: ProofRx)
      requires Valid() && rx.Valid()
      modifies byRole, set q | q in byRole :: q.frames, rx
      ensures Valid() && rx.Valid() && rx.held == None
      ensures Queues() == if old(rx.held).Some? && rx.role < ROLES
                          then old(Queues())[rx.role := Prepended(old(Queues())[rx.role], old(rx.held).value)] else old(Queues())
      ensures forall v: LaneView :: old(Shows(rx, v)) ==> Shows(rx, Apply(v, rx.lane, OpRequeue))
      ensures old(rx.held).Some? ==> forall v: LaneView, l: Byte :: l != rx.lane && old(ShowsQueue(rx.role, v)) ==>
                ShowsQueue(rx.role, Apply(v, l, OpOtherRequeue(old(rx.held).value)))
    {
      hide Tidy, Prepended, ProofQueue.Valid, ProofQueue.Contents, ProofQueue.Ring;
      ghost var before := Queues();
      if rx.held.Some? {
        var f := rx.held.value;
        rx.held := None;
        if rx.role < ROLES {
          byRole[rx.role].PushFront(rx.lane, f.source, f.frameLabel, f.payload);
          assert forall i :: 0 <= i < ROLES && i != rx.role ==> byRole[i].Contents() == before[i];
        }
      }
    }
  }

  // ---------------------------------------------------------------- one role's queue over whole runs

  /** One role's queue seen from one lane: the frames accepted (on all lanes), the sessions of those sent on
      this lane, what the lane's one endpoint has received and not given back, and the frame it could give
      back. */
  datatype LaneView = LaneView(queue: Queue, sent: Queue, sessions: seq<Word>, got: Queue, held: Option<ProofFrame>)

  datatype Op =
    | OpSend(session: Word, frame: ProofFrame)   // any sender, any lane
    | OpRecv                                     // this lane's endpoint polls
    | OpRequeue                                  // this lane's endpoint gives its frame back
    | OpOtherRecv(lane: Byte)                    // another lane's endpoint polls
    | OpOtherRequeue(frame: ProofFrame)          // another lane's endpoint gives a frame back

  const START: LaneView := LaneView([], [], [], [], None)

  function Apply(v: LaneView, lane: Byte, op: Op): LaneView {
    match op
    case OpSend(session, f) =>
      if !Fits(v.queue, f.payload) then v
      else if f.lane == lane then v.(queue := v.queue + [f], sent := v.sent + [f], sessions := v.sessions + [session])
      else v.(queue := v.queue + [f], sent := v.sent + [f])
    case OpRecv =>
      var (rest, popped) := Popped(v.queue, lane);
      if popped.None? then v else v.(queue := rest, got := v.got + [popped.value], held := popped)
    case OpRequeue =>
      if v.held.None? then v
      else v.(queue := Prepended(v.queue, v.held.value), got := if |v.got| > 0 then v.got[..|v.got| - 1] else [], held := None)
    case OpOtherRecv(l) => if l == lane then v else v.(queue := Popped(v.queue, l).0)
    case OpOtherRequeue(f) => if f.lane == lane then v else v.(queue := Prepended(v.queue, f))
  }

  function ApplyAll(v: LaneView, lane: Byte, ops: seq<Op>): LaneView
    decreases |ops|
  {
    if ops == [] then v else ApplyAll(Apply(v, lane, ops[0]), lane, ops[1..])
  }

  /** The guard under which giving a frame back drops it: the queue is full. */
  predicate GivesBackToFull(v: LaneView, op: Op) {
    op == OpRequeue && v.held.Some? && |v.queue| == DEPTH
  }

  ghost predicate NeverSpills(v: LaneView, lane: Byte, ops: seq<Op>) {
    forall k :: 0 <= k < |ops| ==> !GivesBackToFull(ApplyAll(v, lane, ops[..k]), ops[k])
  }

  lemma NeverSpillsSplit(v: LaneView, lane: Byte, ops: seq<Op>)
    requires ops != []
    ensures NeverSpills(v, lane, ops) <==> !GivesBackToFull(v, ops[0]) && NeverSpills(Apply(v, lane, ops[0]), lane, ops[1..])
  {
    hide Apply, GivesBackToFull;
    var next, rest := Apply(v, lane, ops[0]), ops[1..];
    assert ops[..0] == [];
    forall k | 0 <= k < |rest| ensures ApplyAll(v, lane, ops[..k + 1]) == ApplyAll(next, lane, rest[..k]) && ops[k + 1] == rest[k] {
      assert ops[..k + 1][1..] == rest[..k];
    }
    if NeverSpills(v, lane, ops) {
      forall k | 0 <= k < |rest| ensures !GivesBackToFull(ApplyAll(next, lane, rest[..k]), rest[k]) {
        assert !GivesBackToFull(ApplyAll(v, lane, ops[..k + 1]), ops[k + 1]);
      }
      assert !GivesBackToFull(ApplyAll(v, lane, ops[..0]), ops[0]);
    }
    if !GivesBackToFull(v, ops[0]) && NeverSpills(next, lane, rest) {
      forall k | 0 <= k < |ops| ensures !GivesBackToFull(ApplyAll(v, lane, ops[..k]), ops[k]) {
        if k > 0 {
          assert ApplyAll(v, lane, ops[..k - 1 + 1]) == ApplyAll(next, lane, rest[..k - 1]) && ops[k] == rest[k - 1];
        }
      }
    }
  }

  /** What holds whether or not a frame was dropped. */
  ghost predicate Bounded(v: LaneView, lane: Byte) {
    && |v.queue| <= DEPTH && (forall k :: 0 <= k < |v.queue| ==> |v.queue[k].payload| <= FRAME_BYTES)
    && (v.held.Some? ==> v.got != [] && v.got[|v.got| - 1] == v.held.value && v.held.value.lane == lane && |v.held.value.payload| <= FRAME_BYTES)
    && |v.sessions| == |OnLane(v.sent, lane)|
  }

  /** What was received and not given back, followed by what is queued on the lane, is what was sent on it. */
  ghost predicate InLaneOrder(v: LaneView, lane: Byte) {
    v.got + OnLane(v.queue, lane) == OnLane(v.sent, lane)
  }

  /** How many frames of the lane are nowhere. */
  ghost function Missing(v: LaneView, lane: Byte): int {
    |OnLane(v.sent, lane)| - |v.got| - |OnLane(v.queue, lane)|
  }

  /** A step keeps the lane in order unless it gives a frame back to a full queue; then a frame is missing
      for good. */
  lemma ApplyMisses(v: LaneView, lane: Byte, op: Op)
    requires Bounded(v, lane)
    ensures Bounded(Apply(v, lane, op), lane)
    ensures Missing(Apply(v, lane, op), lane) == Missing(v, lane) + if GivesBackToFull(v, op) then 1 else 0
    ensures InLaneOrder(v, lane) && !GivesBackToFull(v, op) ==> InLaneOrder(Apply(v, lane, op), lane)
  {
    hide OnLane, FirstOn, Popped, Bounded, InLaneOrder, Missing;
    match op
    case OpSend(session, f) => SendMisses(v, lane, session, f);
    case OpRecv => RecvMisses(v, lane);
    case OpRequeue => RequeueMisses(v, lane);
    case OpOtherRecv(l) => OtherRecvMisses(v, lane, l);
    case OpOtherRequeue(f) => OtherRequeueMisses(v, lane, f);
  }

  lemma SendMisses(v: LaneView, lane: Byte, session: Word, f: ProofFrame)
    requires Bounded(v, lane)
    ensures var v' := Apply(v, lane, OpSend(session, f));
            Bounded(v', lane) && Missing(v', lane) == Missing(v, lane) && (InLaneOrder(v, lane) ==> InLaneOrder(v', lane))
  {
    hide OnLane, FirstOn, Popped;
    OnLaneConcat(v.queue, [f], lane);
    OnLaneConcat(v.sent, [f], lane);
    OnLaneOne(f, lane);
    Regroup(v.got, OnLane(v.queue, lane), OnLane([f], lane));
  }

  lemma RecvMisses(v: LaneView, lane: Byte)
    requires Bounded(v, lane)
    ensures var v' := Apply(v, lane, OpRecv);
            Bounded(v', lane) && Missing(v', lane) == Missing(v, lane) && (InLaneOrder(v, lane) ==> InLaneOrder(v', lane))
  {
    hide OnLane, FirstOn, Popped;
    var v' := Apply(v, lane, OpRecv);
    PopTakesHeadOfLane(v.queue, lane);
    PopKeepsBounds(v.queue, lane);
    if v' != v {
      Regroup(v.got, [v'.held.value], OnLane(v'.queue, lane));
    }
  }

  lemma RequeueMisses(v: LaneView, lane: Byte)
    requires Bounded(v, lane)
    ensures var v', spilt := Apply(v, lane, OpRequeue), GivesBackToFull(v, OpRequeue);
            && Bounded(v', lane) && Missing(v', lane) == Missing(v, lane) + (if spilt then 1 else 0)
            && (InLaneOrder(v, lane) && !spilt ==> InLaneOrder(v', lane))
  {
    hide OnLane, FirstOn, Popped;
    var v' := Apply(v, lane, OpRequeue);
    if v.held.Some? {
      OnLaneConcat([v.held.value], v.queue, lane);
      OnLaneOne(v.held.value, lane);
      assert v'.got + [v.held.value] == v.got;
      Regroup(v'.got, [v.held.value], OnLane(v.queue, lane));
    }
  }

  lemma OtherRecvMisses(v: LaneView, lane: Byte, l: Byte)
    requires Bounded(v, lane)
    ensures var v' := Apply(v, lane, OpOtherRecv(l));
            Bounded(v', lane) && Missing(v', lane) == Missing(v, lane) && (InLaneOrder(v, lane) ==> InLaneOrder(v', lane))
  {
    hide OnLane, FirstOn, Popped;
    PopTakesHeadOfLane(v.queue, l);
    PopKeepsBounds(v.queue, l);
  }

  lemma OtherRequeueMisses(v: LaneView, lane: Byte, f: ProofFrame)
    requires Bounded(v, lane)
    ensures var v' := Apply(v, lane, OpOtherRequeue(f));
            Bounded(v', lane) && Missing(v', lane) == Missing(v, lane) && (InLaneOrder(v, lane) ==> InLaneOrder(v', lane))
  {
    hide OnLane, FirstOn, Popped;
    OnLaneConcat([f], v.queue, lane);
    OnLaneOne(f, lane);
    assert [] + OnLane(v.queue, lane) == OnLane(v.queue, lane);
  }

  lemma PopKeepsBounds(q: Queue, lane: Byte)
    requires |q| <= DEPTH && forall k :: 0 <= k < |q| ==> |q[k].payload| <= FRAME_BYTES
    ensures var (rest, popped) := Popped(q, lane);
            && |rest| <= DEPTH && (forall k :: 0 <= k < |rest| ==> |rest[k].payload| <= FRAME_BYTES)
            && (popped.Some? ==> |popped.value.payload| <= FRAME_BYTES)
  {
    var i := FirstOn(q, lane);
    if i < |q| {
      var rest := q[..i] + q[i + 1..];
      forall k | 0 <= k < |rest| ensures |rest[k].payload| <= FRAME_BYTES {
        assert rest[k] == q[if k < i then k else k + 1];
      }
    }
  }

  lemma {:induction false} RunMisses(v: LaneView, lane: Byte, ops: seq<Op>)
    requires Bounded(v, lane)
    ensures var end := ApplyAll(v, lane, ops);
            && Bounded(end, lane) && Missing(end, lane) >= Missing(v, lane)
            && (Missing(end, lane) == Missing(v, lane) <==> NeverSpills(v, lane, ops))
            && (InLaneOrder(v, lane) && NeverSpills(v, lane, ops) ==> InLaneOrder(end, lane))
    decreases |ops|
  {
    hide Bounded, InLaneOrder, Missing, Apply, GivesBackToFull;
    if ops != [] {
      ApplyMisses(v, lane, ops[0]);
      RunMisses(Apply(v, lane, ops[0]), lane, ops[1..]);
      NeverSpillsSplit(v, lane, ops);
    }
  }

  /** Over every run of sends, receives and give-backs on all lanes: a lane is in order at the end if and
      only if at no point its endpoint gave a frame back while the queue was full. */
  lemma LanesStayInOrder(v: LaneView, lane: Byte, ops: seq<Op>)
    requires Bounded(v, lane) && InLaneOrder(v, lane)
    ensures InLaneOrder(ApplyAll(v, lane, ops), lane) <==> NeverSpills(v, lane, ops)
  {
    hide OnLane, ApplyAll, NeverSpills;
    RunMisses(v, lane, ops);
    var end := ApplyAll(v, lane, ops);
    assert |v.got + OnLane(v.queue, lane)| == |v.got| + |OnLane(v.queue, lane)|;
    assert |end.got + OnLane(end.queue, lane)| == |end.got| + |OnLane(end.queue, lane)|;
  }

  function Stamped(session: Word, got: Queue): seq<(Word, ProofFrame)> {
    seq(|got|, i requires 0 <= i < |got| => (session, got[i]))
  }

  function SentWith(sessions: seq<Word>, sent: Queue): seq<(Word, ProofFrame)>
    requires |sessions| == |sent|
  {
    seq(|sent|, i requires 0 <= i < |sent| => (sessions[i], sent[i]))
  }

  /** From the empty queue: what a lane received is a prefix of what was sent on it. The receiver reports
      every frame under its own session, which is the sender's if and only if the first sends of the lane
      were of that session: the queue does not carry it. */
  lemma LanesDeliverInOrder(lane: Byte, ops: seq<Op>, session: Word)
    ensures var v := ApplyAll(START, lane, ops);
            && (InLaneOrder(v, lane) <==> NeverSpills(START, lane, ops))
            && |v.sessions| == |OnLane(v.sent, lane)|
            && (NeverSpills(START, lane, ops) ==>
                  && v.got <= OnLane(v.sent, lane)
                  && (Stamped(session, v.got) <= SentWith(v.sessions, OnLane(v.sent, lane)) <==>
                        forall i :: 0 <= i < |v.got| ==> v.sessions[i] == session))
  {
    hide ApplyAll, NeverSpills;
    LanesStayInOrder(START, lane, ops);
    RunMisses(START, lane, ops);
    var v := ApplyAll(START, lane, ops);
    if NeverSpills(START, lane, ops) {
      SessionsAgree(session, v.got, v.sessions, OnLane(v.sent, lane));
    }
  }

  lemma SessionsAgree(session: Word, got: Queue, sessions: seq<Word>, sent: Queue)
    requires |sessions| == |sent| && got <= sent
    ensures Stamped(session, got) <= SentWith(sessions, sent) <==> forall i :: 0 <= i < |got| ==> sessions[i] == session
  {
    var a, b := Stamped(session, got), SentWith(sessions, sent);
    if a <= b {
      forall i | 0 <= i < |got| ensures sessions[i] == session {
        assert a[i] == b[i];
      }
    }
  }

  /** Giving a frame back keeps the lane's order if and only if there is room for it; on a full queue
      the frame is dropped without any error. */
  lemma RequeueNeedsRoom(v: LaneView, lane: Byte)
    requires Bounded(v, lane) && InLaneOrder(v, lane) && v.held.Some?
    ensures InLaneOrder(Apply(v, lane, OpRequeue), lane) <==> |v.queue| < DEPTH
  {
    hide OnLane, Apply;
    ApplyMisses(v, lane, OpRequeue);
    var v' := Apply(v, lane, OpRequeue);
    assert |v'.got + OnLane(v'.queue, lane)| == |v'.got| + |OnLane(v'.queue, lane)|;
    assert |v.got + OnLane(v.queue, lane)| == |v.got| + |OnLane(v.queue, lane)|;
  }

  // ---------------------------------------------------------------- a run that drops a frame

  function Times(op: Op, n: nat): seq<Op> {
    seq(n, _ => op)
  }

  lemma {:induction false} ApplyAllConcat(v: LaneView, lane: Byte, xs: seq<Op>, ys: seq<Op>)
    ensures ApplyAll(v, lane, xs + ys) == ApplyAll(ApplyAll(v, lane, xs), lane, ys)
    decreases |xs|
  {
    hide Apply;
    if xs == [] {
      assert xs + ys == ys;
    } else {
      assert (xs + ys)[1..] == xs[1..] + ys;
      ApplyAllConcat(Apply(v, lane, xs[0]), lane, xs[1..], ys);
    }
  }

  lemma {:induction false} SendMany(v: LaneView, lane: Byte, session: Word, f: ProofFrame, n: nat)
    requires |f.payload| <= FRAME_BYTES && |v.queue| + n <= DEPTH
    ensures var end := ApplyAll(v, lane, Times(OpSend(session, f), n));
            && end.queue == v.queue + seq(n, _ => f) && end.sent == v.sent + seq(n, _ => f)
            && end.got == v.got && end.held == v.held
    decreases n
  {
    if n > 0 {
      var op := OpSend(session, f);
      assert Times(op, n)[1..] == Times(op, n - 1);
      SendMany(Apply(v, lane, op), lane, session, f, n - 1);
      assert [f] + seq(n - 1, _ => f) == seq(n, _ => f);
      Regroup(v.queue, [f], seq(n - 1, _ => f));
      Regroup(v.sent, [f], seq(n - 1, _ => f));
    }
  }

  /** The failing run, from the empty queue: a frame is received, 24 frames (of any lane) fill the queue, the
      frame is given back. It was accepted, it is no longer received, and it is not in the queue. */
  lemma RequeueDropsFrame(session: Word, f: ProofFrame, g: ProofFrame)
    requires |f.payload| <= FRAME_BYTES && |g.payload| <= FRAME_BYTES
    ensures var ops := [OpSend(session, f), OpRecv] + Times(OpSend(session, g), DEPTH) + [OpRequeue];
            var v := ApplyAll(START, f.lane, ops);
            && v.sent == [f] + seq(DEPTH, _ => g) && v.got == [] && v.held == None && v.queue == seq(DEPTH, _ => g)
            && Missing(v, f.lane) == 1
  {
    hide OnLane, Missing;
    var send, fill, back := OpSend(session, f), Times(OpSend(session, g), DEPTH), [OpRequeue];
    var v1 := ApplyAll(START, f.lane, [send, OpRecv]);
    assert [send, OpRecv][1..] == [OpRecv] && [OpRecv][1..] == [];
    var v0 := Apply(START, f.lane, send);
    assert v0 == LaneView([f], [f], [session], [], None);
    PopOnly(f);
    assert Apply(v0, f.lane, OpRecv) == LaneView([], [f], [session], [f], Some(f));
    assert ApplyAll(v0, f.lane, [OpRecv]) == v1;
    assert v1 == LaneView([], [f], [session], [f], Some(f));
    SendMany(v1, f.lane, session, g, DEPTH);
    var v2 := ApplyAll(v1, f.lane, fill);
    assert [] + seq(DEPTH, _ => g) == seq(DEPTH, _ => g);
    ApplyAllConcat(START, f.lane, [send, OpRecv], fill);
    ApplyAllConcat(START, f.lane, [send, OpRecv] + fill, back);
    assert back[1..] == [] && [f][..0] == [];
    var v := Apply(v2, f.lane, OpRequeue);
    assert v.queue == seq(DEPTH, _ => g) && v.sent == [f] + seq(DEPTH, _ => g) && v.got == [];
    OneMissing(v, f);
  }

  lemma PopOnly(f: ProofFrame)
    ensures Popped([f], f.lane) == ([], Some(f))
  {
    var q: Queue := [f];
    assert FirstOn(q, f.lane) == 0;
    assert q[..0] + q[1..] == [];
  }

  lemma OneMissing(v: LaneView, f: ProofFrame)
    requires v.sent == [f] + v.queue && v.got == []
    ensures Missing(v, f.lane) == 1
  {
    hide OnLane;
    OnLaneConcat([f], v.queue, f.lane);
    OnLaneOne(f, f.lane);
  }
}
