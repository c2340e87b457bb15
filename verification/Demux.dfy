/** Demultiplexing on the receiving core: frames that are not for the polling endpoint wait in a
    one-slot-per-role stash. Both SIO carriers use this scheme. */
module Demux {
  import opened Wire

  /** The occupied slots. A carrier has a slot for each role below its slot count. */
  type Stash = map<Role, Frame>

  /** The slot count and the error for a role without a slot: the two points where the carriers differ. */
  datatype Layout = Layout(slots: nat, noSlot: TransportError)

  /** A frame as it reached the receiving core, and whether the stash turned it away. */
  datatype Arrival = Arrival(frame: Frame, lost: bool)

  /** The stash, with the history of what arrived and of what endpoints were handed. */
  datatype Demux = Demux(stash: Stash, arrived: seq<Arrival>, delivered: seq<Frame>)

  datatype Routed = Staged | Stashed | Refused(error: TransportError)

  // ---------------------------------------------------------------- the stash

  predicate HasSlot(layout: Layout, role: Role) {
    role < layout.slots
  }

  /** `stash_frame`: the frame goes to its peer's slot unless there is none or it is taken. */
  function StashFrame(layout: Layout, stash: Stash, f: Frame): (Stash, Routed) {
    if !HasSlot(layout, f.peer) then (stash, Refused(layout.noSlot))
    else if f.peer in stash then (stash, Refused(Capacity))
    else (stash[f.peer := f], Stashed)
  }

  /** `take_stashed_frame`: empties the role's slot. */
  function TakeStashed(stash: Stash, role: Role): (Stash, Option<Frame>) {
    if role in stash then (stash - {role}, Some(stash[role])) else (stash, None)
  }

  /** What a poll of (role, lane) does with a frame it has just received: keep it if both match,
      stash it otherwise. */
  function Route(layout: Layout, stash: Stash, role: Role, lane: Byte, f: Frame): (Stash, Routed) {
    if f.peer == role && f.lane == lane then (stash, Staged) else StashFrame(layout, stash, f)
  }

  /** The guard under which a frame is turned away: it is not for the endpoint that polls, and its peer's
      slot is missing or taken. */
  predicate Refuses(layout: Layout, stash: Stash, role: Role, lane: Byte, f: Frame) {
    !(f.peer == role && f.lane == lane) && (!HasSlot(layout, f.peer) || f.peer in stash)
  }

  lemma RouteRefuses(layout: Layout, stash: Stash, role: Role, lane: Byte, f: Frame)
    ensures var routed := Route(layout, stash, role, lane, f).1;
            && (routed.Refused? <==> Refuses(layout, stash, role, lane, f))
            && (routed.Refused? ==> routed.error == if HasSlot(layout, f.peer) then Capacity else layout.noSlot)
  {}

  datatype StashPoll = Nothing | OtherLane | Hit(frame: Frame) | Refusal(error: TransportError)

  /** The stash part of a poll: a frame of the polled lane is handed over, one of another lane is
      put back. */
  function PollStash(layout: Layout, stash: Stash, role: Role, lane: Byte): (Stash, StashPoll) {
    var (taken, f) := TakeStashed(stash, role);
    if f.None? then (taken, Nothing)
    else if f.value.lane == lane then (taken, Hit(f.value))
    else
      var (back, routed) := StashFrame(layout, taken, f.value);
      (back, if routed.Refused? then Refusal(routed.error) else OtherLane)
  }

  /** Every occupied slot exists and holds a frame for its own role. */
  ghost predicate RightSlots(layout: Layout, stash: Stash) {
    forall r :: r in stash ==> HasSlot(layout, r) && stash[r].peer == r
  }

  /** A frame of this endpoint waits in the stash. */
  predicate IsWaiting(stash: Stash, role: Role, lane: Byte) {
    role in stash && stash[role].lane == lane
  }

  /** The re-stash of a poll on another lane never fails and leaves the stash as it was. */
  lemma WrongLanePollChangesNothing(layout: Layout, stash: Stash, role: Role, lane: Byte)
    requires RightSlots(layout, stash)
    ensures var (after, polled) := PollStash(layout, stash, role, lane);
            && !polled.Refusal?
            && (polled.Hit? <==> IsWaiting(stash, role, lane))
            && (polled.Hit? ==> polled.frame == stash[role] && polled.frame.peer == role && after == stash - {role})
            && (!polled.Hit? ==> after == stash)
  {
    if role in stash {
      assert (stash - {role})[role := stash[role]] == stash;
    }
  }

  // ---------------------------------------------------------------- histories

  function Arrived(log: seq<Arrival>): seq<Frame> {
    if log == [] then [] else Arrived(log[..|log| - 1]) + [log[|log| - 1].frame]
  }

  function Kept(log: seq<Arrival>): seq<Frame> {
    if log == [] then []
    else
      var front, last := Kept(log[..|log| - 1]), log[|log| - 1];
      if last.lost then front else front + [last.frame]
  }

  function Lost(log: seq<Arrival>): seq<Frame> {
    if log == [] then []
    else
      var front, last := Lost(log[..|log| - 1]), log[|log| - 1];
      if last.lost then front + [last.frame] else front
  }

  lemma LogAppend(log: seq<Arrival>, a: Arrival)
    ensures Arrived(log + [a]) == Arrived(log) + [a.frame]
    ensures Kept(log + [a]) == if a.lost then Kept(log) else Kept(log) + [a.frame]
    ensures Lost(log + [a]) == if a.lost then Lost(log) + [a.frame] else Lost(log)
  {
    assert (log + [a])[..|log|] == log;
  }

  /** The part of a flow that waits in the stash: at most one frame. */
  function Waiting(stash: Stash, t: Flow): seq<Frame> {
    if t.peer in stash && OnFlow(stash[t.peer], t) then [stash[t.peer]] else []
  }

  function Copies(fs: seq<Frame>, f: Frame): nat {
    multiset(fs)[f]
  }

  // ---------------------------------------------------------------- the operations with history

  /** A frame received from the other core during a poll of (role, lane). */
  function Arrive(layout: Layout, d: Demux, role: Role, lane: Byte, f: Frame): (Demux, Routed) {
    var (stash, routed) := Route(layout, d.stash, role, lane, f);
    (Demux(stash, d.arrived + [Arrival(f, routed.Refused?)], if routed.Staged? then d.delivered + [f] else d.delivered), routed)
  }

  /** The stash part of a poll. The frame handed over carries the endpoint's own role. */
  function Collect(layout: Layout, d: Demux, role: Role, lane: Byte): (Demux, StashPoll) {
    var (stash, polled) := PollStash(layout, d.stash, role, lane);
    (d.(stash := stash, delivered := if polled.Hit? then d.delivered + [polled.frame.(peer := role)] else d.delivered), polled)
  }

  /** A frame sent by an endpoint on this same core; a refusal goes back to the sender. */
  function LocalSend(layout: Layout, d: Demux, f: Frame): (Demux, Routed) {
    var (stash, routed) := StashFrame(layout, d.stash, f);
    (if routed.Stashed? then d.(stash := stash, arrived := d.arrived + [Arrival(f, false)]) else d, routed)
  }

  // ---------------------------------------------------------------- receiving endpoints

  /** A receiving endpoint; `staged` is the frame it was handed last (`frame_label` and the rest). */
  datatype Rx = Rx(role: Role, lane: Byte, staged: Option<Frame>, requeued: bool, delivered: bool)

  predicate Redelivers(rx: Rx) {
    rx.staged.Some? && (rx.requeued || !rx.delivered)
  }

  /** The endpoint once a poll has found that no redelivery is due. */
  function Cleared(rx: Rx): Rx {
    if rx.staged.Some? then rx.(staged := None, delivered := false) else rx
  }

  /** `requeue`: the frame handed over last will be handed over again. */
  function RequeueRx(rx: Rx): Rx {
    rx.(requeued := rx.staged.Some?, delivered := rx.delivered && rx.staged.None?)
  }

  datatype RecvStart = Redelivered | FromStash | NotNow | Denied | FromWire

  /** The head of `poll_recv`: redeliver a requeued frame, else look in the stash, else go to the wire. */
  function StartRecv(layout: Layout, d: Demux, rx: Rx): (Demux, Rx, RecvStart) {
    if Redelivers(rx) then (d, rx.(requeued := false, delivered := true), Redelivered)
    else
      var (d', polled) := Collect(layout, d, rx.role, rx.lane);
      match polled
      case Hit(f) => (d', Cleared(rx).(staged := Some(f), delivered := true), FromStash)
      case OtherLane => (d', Cleared(rx), NotNow)
      case Refusal(_) => (d', Cleared(rx), Denied)
      case Nothing => (d', Cleared(rx), FromWire)
  }

  /** An endpoint's staged frame is one it was handed, addressed to its own role and lane, and it will be handed
      over again only if it was requeued. */
  ghost predicate RxValid(d: Demux, rx: Rx) {
    && (rx.staged.Some? ==> rx.staged.value in d.delivered && rx.staged.value.peer == rx.role && rx.staged.value.lane == rx.lane)
    && (rx.requeued ==> rx.staged.Some?)
    && (rx.staged.Some? ==> rx.delivered != rx.requeued)
  }

  // ---------------------------------------------------------------- the invariant

  /** Per flow, what was delivered followed by what waits is exactly what was kept, in order. */
  ghost predicate InOrder(d: Demux) {
    forall t :: Project(d.delivered, t) + Waiting(d.stash, t) == Project(Kept(d.arrived), t)
  }

  function Held(stash: Stash, f: Frame): nat {
    if f.peer in stash && stash[f.peer] == f then 1 else 0
  }

  /** Every copy of a frame that arrived was delivered, waits in its peer's slot, or was refused. */
  ghost predicate Accounted(d: Demux) {
    forall f :: Copies(Arrived(d.arrived), f) == Copies(d.delivered, f) + Held(d.stash, f) + Copies(Lost(d.arrived), f)
  }

  ghost predicate Ordered(layout: Layout, d: Demux) {
    RightSlots(layout, d.stash) && InOrder(d) && Accounted(d)
  }

  function FlowOf(f: Frame): Flow {
    Flow(f.sender, f.peer, f.lane)
  }

  lemma CopiesAppend(fs: seq<Frame>, f: Frame, g: Frame)
    ensures Copies(fs + [f], g) == Copies(fs, g) + if f == g then 1 else 0
  {}

  lemma CopiesSplit(fs: seq<Frame>, n: nat, f: Frame)
    requires n <= |fs|
    ensures Copies(fs, f) == Copies(fs[..n], f) + Copies(fs[n..], f)
  {
    assert fs == fs[..n] + fs[n..];
  }

  lemma NoCopies(fs: seq<Frame>, f: Frame)
    requires f !in fs
    ensures Copies(fs, f) == 0
  {}

  lemma StagedStep(layout: Layout, d: Demux, f: Frame)
    requires Ordered(layout, d) && !IsWaiting(d.stash, f.peer, f.lane)
    ensures Ordered(layout, Demux(d.stash, d.arrived + [Arrival(f, false)], d.delivered + [f]))
  {
    hide HasSlot, Project, Kept, Lost, Arrived, Copies;
    var d' := Demux(d.stash, d.arrived + [Arrival(f, false)], d.delivered + [f]);
    LogAppend(d.arrived, Arrival(f, false));
    forall t ensures Project(d'.delivered, t) + Waiting(d'.stash, t) == Project(Kept(d'.arrived), t) {
      assert Project(d.delivered, t) + Waiting(d.stash, t) == Project(Kept(d.arrived), t);
      ProjectAppend(Kept(d.arrived), f, t);
      ProjectAppend(d.delivered, f, t);
    }
    forall g ensures Copies(Arrived(d'.arrived), g) == Copies(d'.delivered, g) + Held(d'.stash, g) + Copies(Lost(d'.arrived), g) {
      CopiesAppend(Arrived(d.arrived), f, g);
      CopiesAppend(d.delivered, f, g);
    }
  }

  lemma StashedStep(layout: Layout, d: Demux, f: Frame)
    requires Ordered(layout, d) && HasSlot(layout, f.peer) && f.peer !in d.stash
    ensures Ordered(layout, Demux(d.stash[f.peer := f], d.arrived + [Arrival(f, false)], d.delivered))
  {
    hide HasSlot, Project, Kept, Lost, Arrived, Copies;
    var d' := Demux(d.stash[f.peer := f], d.arrived + [Arrival(f, false)], d.delivered);
    LogAppend(d.arrived, Arrival(f, false));
    forall t ensures Project(d'.delivered, t) + Waiting(d'.stash, t) == Project(Kept(d'.arrived), t) {
      assert Project(d.delivered, t) + Waiting(d.stash, t) == Project(Kept(d.arrived), t);
      ProjectAppend(Kept(d.arrived), f, t);
    }
    forall g ensures Copies(Arrived(d'.arrived), g) == Copies(d'.delivered, g) + Held(d'.stash, g) + Copies(Lost(d'.arrived), g) {
      CopiesAppend(Arrived(d.arrived), f, g);
    }
  }

  lemma LostStep(layout: Layout, d: Demux, f: Frame)
    requires Ordered(layout, d)
    ensures Ordered(layout, Demux(d.stash, d.arrived + [Arrival(f, true)], d.delivered))
  {
    hide HasSlot, Project, Kept, Lost, Arrived, Copies;
    LogAppend(d.arrived, Arrival(f, true));
    forall g ensures Copies(Arrived(d.arrived) + [f], g) == Copies(d.delivered, g) + Held(d.stash, g) + Copies(Lost(d.arrived) + [f], g) {
      CopiesAppend(Arrived(d.arrived), f, g);
      CopiesAppend(Lost(d.arrived), f, g);
    }
  }

  lemma HitStep(layout: Layout, d: Demux, role: Role)
    requires Ordered(layout, d) && role in d.stash
    ensures Ordered(layout, Demux(d.stash - {role}, d.arrived, d.delivered + [d.stash[role]]))
  {
    hide HasSlot, Project, Kept, Lost, Arrived, Copies;
    var f := d.stash[role];
    var d' := Demux(d.stash - {role}, d.arrived, d.delivered + [f]);
    forall t ensures Project(d'.delivered, t) + Waiting(d'.stash, t) == Project(Kept(d'.arrived), t) {
      assert Project(d.delivered, t) + Waiting(d.stash, t) == Project(Kept(d.arrived), t);
      ProjectAppend(d.delivered, f, t);
    }
    forall g ensures Copies(Arrived(d'.arrived), g) == Copies(d'.delivered, g) + Held(d'.stash, g) + Copies(Lost(d'.arrived), g) {
      CopiesAppend(d.delivered, f, g);
    }
  }

  lemma ArriveKeepsOrder(layout: Layout, d: Demux, role: Role, lane: Byte, f: Frame)
    requires Ordered(layout, d) && !IsWaiting(d.stash, role, lane)
    ensures Ordered(layout, Arrive(layout, d, role, lane, f).0)
    ensures !IsWaiting(Arrive(layout, d, role, lane, f).0.stash, role, lane)
  {
    hide Ordered, HasSlot;
    var routed := Arrive(layout, d, role, lane, f).1;
    match routed
    case Staged => StagedStep(layout, d, f);
    case Stashed => StashedStep(layout, d, f);
    case Refused(_) => LostStep(layout, d, f);
  }

  lemma CollectKeepsOrder(layout: Layout, d: Demux, role: Role, lane: Byte)
    requires Ordered(layout, d)
    ensures var (d', polled) := Collect(layout, d, role, lane);
            && Ordered(layout, d')
            && !polled.Refusal?
            && (polled.Hit? <==> IsWaiting(d.stash, role, lane))
            && (polled.Hit? ==> d'.delivered == d.delivered + [polled.frame] && polled.frame.peer == role && polled.frame.lane == lane)
            && (!polled.Hit? ==> d' == d)
  {
    WrongLanePollChangesNothing(layout, d.stash, role, lane);
    if IsWaiting(d.stash, role, lane) {
      HitStep(layout, d, role);
    }
  }

  lemma LocalSendKeepsOrder(layout: Layout, d: Demux, f: Frame)
    requires Ordered(layout, d)
    ensures Ordered(layout, LocalSend(layout, d, f).0)
  {
    hide Ordered;
    if LocalSend(layout, d, f).1.Stashed? {
      StashedStep(layout, d, f);
    }
  }

  // ---------------------------------------------------------------- what follows

  lemma {:induction false} NothingLostKeepsAll(log: seq<Arrival>, t: Flow)
    requires Project(Lost(log), t) == []
    ensures Project(Kept(log), t) == Project(Arrived(log), t)
  {
    hide OnFlow;
    if log != [] {
      var front, a := log[..|log| - 1], log[|log| - 1];
      assert log == front + [a];
      LogAppend(front, a);
      ProjectAppend(Arrived(front), a.frame, t);
      ProjectAppend(Kept(front), a.frame, t);
      ProjectAppend(Lost(front), a.frame, t);
      NothingLostKeepsAll(front, t);
    }
  }

  /** On a flow the stash never refused, delivery is a prefix of arrival. */
  lemma DeliveredIsPrefix(layout: Layout, d: Demux, t: Flow)
    requires Ordered(layout, d)
    ensures Project(d.delivered, t) <= Project(Kept(d.arrived), t)
    ensures Project(Lost(d.arrived), t) == [] ==> Project(d.delivered, t) <= Project(Arrived(d.arrived), t)
  {
    assert Project(d.delivered, t) + Waiting(d.stash, t) == Project(Kept(d.arrived), t);
    if Project(Lost(d.arrived), t) == [] {
      NothingLostKeepsAll(d.arrived, t);
    }
  }

  /** A flow's arrivals are those kept and those turned away. */
  lemma {:induction false} FlowSplit(log: seq<Arrival>, t: Flow)
    ensures |Project(Arrived(log), t)| == |Project(Kept(log), t)| + |Project(Lost(log), t)|
  {
    hide OnFlow;
    if log != [] {
      var front, a := log[..|log| - 1], log[|log| - 1];
      assert log == front + [a];
      LogAppend(front, a);
      ProjectAppend(Arrived(front), a.frame, t);
      ProjectAppend(Kept(front), a.frame, t);
      ProjectAppend(Lost(front), a.frame, t);
      FlowSplit(front, t);
    }
  }

  // ---------------------------------------------------------------- a core's inbox

  /** The demultiplexer of a core whose resident roles are `here`: on every flow, what arrived is what
      the resident senders stashed, or what was received from the peer core, in that order. */
  ghost predicate Inbox(layout: Layout, d: Demux, fromPeer: seq<Frame>, local: seq<Frame>, here: set<Role>) {
    && Ordered(layout, d)
    && (forall t :: Project(Arrived(d.arrived), t) == Project(Origin(fromPeer, local, here, t), t))
    && (forall f :: f in local ==> f.sender in here)
    && (forall f :: f in fromPeer ==> f.sender !in here)
    && (forall f :: f in Lost(d.arrived) ==> f.sender !in here)
  }

  function Origin(fromPeer: seq<Frame>, local: seq<Frame>, here: set<Role>, t: Flow): seq<Frame> {
    if t.sender in here then local else fromPeer
  }

  lemma InboxArrive(layout: Layout, d: Demux, fromPeer: seq<Frame>, local: seq<Frame>, here: set<Role>, role: Role, lane: Byte, f: Frame)
    requires Inbox(layout, d, fromPeer, local, here) && !IsWaiting(d.stash, role, lane) && f.sender !in here
    ensures var (d', routed) := Arrive(layout, d, role, lane, f);
            && Inbox(layout, d', fromPeer + [f], local, here)
            && !IsWaiting(d'.stash, role, lane)
            && |Lost(d'.arrived)| == |Lost(d.arrived)| + (if routed.Refused? then 1 else 0)
            && (routed.Staged? ==> f.peer == role && f.lane == lane)
            && d'.delivered == if routed.Staged? then d.delivered + [f] else d.delivered
  {
    hide Ordered, Project, Arrived, Lost;
    var (d', routed) := Arrive(layout, d, role, lane, f);
    ArriveKeepsOrder(layout, d, role, lane, f);
    LogAppend(d.arrived, Arrival(f, routed.Refused?));
    forall t ensures Project(Arrived(d'.arrived), t) == Project(Origin(fromPeer + [f], local, here, t), t) {
      ProjectAppend(Arrived(d.arrived), f, t);
      ProjectAppend(fromPeer, f, t);
    }
  }

  lemma InboxLocalSend(layout: Layout, d: Demux, fromPeer: seq<Frame>, local: seq<Frame>, here: set<Role>, f: Frame)
    requires Inbox(layout, d, fromPeer, local, here) && f.sender in here
    ensures var (d', routed) := LocalSend(layout, d, f);
            && Inbox(layout, d', fromPeer, if routed.Stashed? then local + [f] else local, here)
            && |Lost(d'.arrived)| == |Lost(d.arrived)| && d'.delivered == d.delivered
            && !routed.Staged?
  {
    hide Ordered, Project, Arrived, Lost;
    var (d', routed) := LocalSend(layout, d, f);
    LocalSendKeepsOrder(layout, d, f);
    if routed.Stashed? {
      LogAppend(d.arrived, Arrival(f, false));
      forall t ensures Project(Arrived(d'.arrived), t) == Project(Origin(fromPeer, local + [f], here, t), t) {
        ProjectAppend(Arrived(d.arrived), f, t);
        ProjectAppend(local, f, t);
      }
    }
  }

  lemma InboxCollect(layout: Layout, d: Demux, fromPeer: seq<Frame>, local: seq<Frame>, here: set<Role>, role: Role, lane: Byte)
    requires Inbox(layout, d, fromPeer, local, here)
    ensures var (d', polled) := Collect(layout, d, role, lane);
            && Inbox(layout, d', fromPeer, local, here) && d'.arrived == d.arrived
            && !polled.Refusal?
            && (polled.Hit? <==> IsWaiting(d.stash, role, lane))
            && (polled.Hit? ==> d'.delivered == d.delivered + [polled.frame] && polled.frame.peer == role && polled.frame.lane == lane)
            && (!polled.Hit? ==> d' == d)
  {
    hide Ordered, Project, Arrived, Lost;
    CollectKeepsOrder(layout, d, role, lane);
  }

  lemma InboxStartRecv(layout: Layout, d: Demux, fromPeer: seq<Frame>, local: seq<Frame>, here: set<Role>, rx: Rx)
    requires Inbox(layout, d, fromPeer, local, here) && RxValid(d, rx)
    ensures var (d', rx', start) := StartRecv(layout, d, rx);
            && Inbox(layout, d', fromPeer, local, here) && d'.arrived == d.arrived
            && d.delivered <= d'.delivered && RxValid(d', rx') && rx'.role == rx.role && rx'.lane == rx.lane
            && !start.Denied? && (start.FromWire? ==> d' == d && !IsWaiting(d.stash, rx.role, rx.lane) && rx'.staged.None?)
  {
    hide Inbox, PollStash;
    InboxCollect(layout, d, fromPeer, local, here, rx.role, rx.lane);
  }

  lemma {:induction false} CopiesOnFlow(fs: seq<Frame>, f: Frame)
    ensures Copies(fs, f) == Copies(Project(fs, FlowOf(f)), f)
  {
    if fs != [] {
      var front, last := fs[..|fs| - 1], fs[|fs| - 1];
      assert fs == front + [last];
      CopiesOnFlow(front, f);
      CopiesAppend(front, last, f);
      CopiesAppend(Project(front, FlowOf(f)), last, f);
    }
  }

  /** What an inbox guarantees about one flow and one frame. */
  lemma InboxGuarantee(layout: Layout, d: Demux, fromPeer: seq<Frame>, local: seq<Frame>, here: set<Role>, t: Flow, f: Frame)
    requires Inbox(layout, d, fromPeer, local, here)
    ensures Project(d.delivered, t) <= Project(Kept(d.arrived), t)
    ensures Project(Lost(d.arrived), t) == [] ==> Project(d.delivered, t) <= Project(Origin(fromPeer, local, here, t), t)
    ensures Copies(Origin(fromPeer, local, here, FlowOf(f)), f)
            == Copies(d.delivered, f) + Held(d.stash, f) + Copies(Lost(d.arrived), f)
    ensures f.sender in here ==> Copies(Lost(d.arrived), f) == 0
  {
    hide Project, Arrived, Lost, Kept, Copies;
    DeliveredIsPrefix(layout, d, t);
    if f.sender in here {
      NoCopies(Lost(d.arrived), f);
    }
    assert Accounted(d);
    CopiesOnFlow(Arrived(d.arrived), f);
    CopiesOnFlow(Origin(fromPeer, local, here, FlowOf(f)), f);
    assert Project(Arrived(d.arrived), FlowOf(f)) == Project(Origin(fromPeer, local, here, FlowOf(f)), FlowOf(f));
  }

  /** A flow is complete, in order and without a gap, if and only if nothing of it was turned away. */
  lemma FlowComplete(layout: Layout, d: Demux, fromPeer: seq<Frame>, local: seq<Frame>, here: set<Role>, t: Flow)
    requires Inbox(layout, d, fromPeer, local, here)
    ensures Project(Lost(d.arrived), t) == [] <==>
            Project(d.delivered, t) + Waiting(d.stash, t) == Project(Origin(fromPeer, local, here, t), t)
  {
    hide Project, Arrived, Lost, Kept;
    assert Project(d.delivered, t) + Waiting(d.stash, t) == Project(Kept(d.arrived), t);
    FlowSplit(d.arrived, t);
    if Project(Lost(d.arrived), t) == [] {
      NothingLostKeepsAll(d.arrived, t);
    }
  }

  /** Routing a frame adds to a flow's losses exactly when the guard turns away a frame of that flow. */
  lemma ArriveLoses(layout: Layout, d: Demux, role: Role, lane: Byte, f: Frame, t: Flow)
    ensures Project(Lost(Arrive(layout, d, role, lane, f).0.arrived), t)
         == if Refuses(layout, d.stash, role, lane, f) && OnFlow(f, t) then Project(Lost(d.arrived), t) + [f]
            else Project(Lost(d.arrived), t)
  {
    hide Project, Lost;
    RouteRefuses(layout, d.stash, role, lane, f);
    LogAppend(d.arrived, Arrival(f, Refuses(layout, d.stash, role, lane, f)));
    ProjectAppend(Lost(d.arrived), f, t);
  }

  lemma LocalSendLoses(layout: Layout, d: Demux, f: Frame)
    ensures Lost(LocalSend(layout, d, f).0.arrived) == Lost(d.arrived)
  {
    hide Lost;
    LogAppend(d.arrived, Arrival(f, false));
  }
}
