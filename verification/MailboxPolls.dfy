/** One whole poll of the mailbox carrier: the transport of a core as a class. */
module MailboxPolls {
  import opened Wire
  import opened Demux
  import opened Endpoints
  import opened MailboxSlot
  import MailboxCarrier

  class MailboxTx {
    const role: Role
    const lane: Byte
    const session: Word
    var sentFrames: nat
    var pending: Option<MailboxCarrier.Pending>

    constructor (role: Role, lane: Byte, session: Word)
      ensures this.role == role && this.lane == lane && this.session == session && Valid() && pending == None
    {
      this.role, this.lane, this.session := role, lane, session;
      sentFrames, pending := 0, None;
    }

    /** Between polls a pending frame is legal and has not been published. */
    ghost predicate Valid()
      reads this
    {
      && sentFrames <= 0xffff
      && (pending.Some? ==> Legal(pending.value.frame) && !pending.value.published)
    }

    method CountSent()
      modifies this`sentFrames
      ensures sentFrames == if old(sentFrames) < 0xffff then old(sentFrames) + 1 else old(sentFrames)
    {
      if sentFrames < 0xffff { sentFrames := sentFrames + 1; }
    }
  }

  /** What `poll_recv` does when no peer interferes: (endpoint, stash, inbound slot, answer). */
  function RecvSpec(rx: Rx, stash: Stash, slot: Slot): (Rx, Stash, Slot, RecvResult)
    requires WellFormed(slot)
  {
    if Redelivers(rx) then
      (rx.(requeued := false, delivered := true), stash, slot, Received(rx.staged.value.(peer := rx.role)))
    else
      var (stash', polled) := PollStash(MailboxCarrier.LAYOUT, stash, rx.role, rx.lane);
      var idle := Cleared(rx);
      match polled
      case Hit(f) => (idle.(staged := Some(f), delivered := true), stash', slot, Received(f.(peer := rx.role)))
      case OtherLane => (idle, stash', slot, RecvPending)
      case Refusal(e) => (idle, stash', slot, RecvFailed(e))
      case Nothing =>
        match TakeSpec(slot)
        case Vacant => (idle, stash', slot, RecvPending)
        case Invalid(e) => (idle, stash', slot.(occupied := false), RecvFailed(e))
        case Taken(f) =>
          var (stash'', routed) := Route(MailboxCarrier.LAYOUT, stash', rx.role, rx.lane, f);
          match routed
          case Staged => (idle.(staged := Some(f), delivered := true), stash'', slot.(occupied := false), Received(f.(peer := rx.role)))
          case Stashed => (idle, stash'', slot.(occupied := false), RecvPending)
          case Refused(e) => (idle, stash'', slot.(occupied := false), RecvFailed(e))
  }

  class MailboxTransport {
    const outbound: SioMailboxSlot
    const inbound: SioMailboxSlot
    const stash: RoleStash
    var lanes: map<Role, Byte>

    ghost const Repr: set<object> := {this, outbound, outbound.bytes, inbound, inbound.bytes, stash.slots}

    ghost predicate Valid() {
      && outbound.Valid() && inbound.Valid()
      && outbound != inbound && outbound.bytes != inbound.bytes
      && stash.Valid() && stash.Shape() == MailboxCarrier.LAYOUT
    }

    constructor (outbound: SioMailboxSlot, inbound: SioMailboxSlot)
      requires outbound.Valid() && inbound.Valid() && outbound != inbound && outbound.bytes != inbound.bytes
      ensures Valid() && this.outbound == outbound && this.inbound == inbound
      ensures stash.Contents() == map[] && lanes == map[] && fresh(stash) && fresh(stash.slots)
    {
      this.outbound, this.inbound := outbound, inbound;
      stash := new RoleStash(MailboxCarrier.LAYOUT);
      lanes := map[];
    }

    /** One `poll_send`. The sender's own role must be one of the board's three (the source panics otherwise). */
    method PollSend(tx: MailboxTx, target: Role, frameLabel: Byte, lane: Byte, payload: seq<Byte>) returns (r: SendResult)
      requires Valid() && tx.Valid() && tx.role <= 2
      modifies `lanes, outbound, outbound.bytes, stash.slots, tx
      ensures tx.Valid() && lanes == old(lanes)[tx.role := tx.lane]
      // every call answered Ok is counted, up to 65535
      ensures tx.sentFrames == if r == Sent && old(tx.sentFrames) < 0xffff then old(tx.sentFrames) + 1 else old(tx.sentFrames)
      // self-sends and oversized frames are refused
      ensures target == tx.role || |payload| > FRAME_BYTES ==>
                && r == SendFailed(if target == tx.role then Failed else Capacity)
                && unchanged(tx) && stash.Contents() == old(stash.Contents()) && outbound.Abs() == old(outbound.Abs())
      // a role attached to this core is served through the stash, on its registered lane
      ensures target != tx.role && |payload| <= FRAME_BYTES && target in lanes ==>
                && unchanged(tx`pending) && outbound.Abs() == old(outbound.Abs())
                && var (stash', routed) := StashFrame(MailboxCarrier.LAYOUT, old(stash.Contents()),
                                                      Frame(tx.session, tx.role, target, frameLabel, lanes[target], payload));
                   stash.Contents() == stash' && r == if routed.Refused? then SendFailed(routed.error) else Sent
      // otherwise the pending frame, or a new one, is published if the mailbox is free
      ensures target != tx.role && |payload| <= FRAME_BYTES && target !in lanes ==>
                && stash.Contents() == old(stash.Contents())
                && var p := if old(tx.pending).Some? then old(tx.pending).value
                            else MailboxCarrier.Pending(Frame(tx.session, tx.role, target, frameLabel, lane, payload), false);
                   if old(outbound.Abs()).occupied then r == SendPending && tx.pending == Some(p) && outbound.Abs() == old(outbound.Abs())
                   else r == Sent && tx.pending == None && outbound.Abs().occupied && Holds(outbound.Abs(), p.frame)
    {
      hide Holds, StashFrame;
      lanes := lanes[tx.role := tx.lane];
      if target == tx.role {
        return SendFailed(Failed);
      }
      if |payload| > FRAME_BYTES {
        return SendFailed(Capacity);
      }
      if target in lanes {
        var routed := stash.Put(Frame(tx.session, tx.role, target, frameLabel, lanes[target], payload));
        if routed.Refused? {
          return SendFailed(routed.error);
        }
        tx.CountSent();
        return Sent;
      }
      if tx.pending.None? {
        tx.pending := Some(MailboxCarrier.Pending(Frame(tx.session, tx.role, target, frameLabel, lane, payload), false));
      }
      var ok := outbound.Publish(tx.pending.value.frame);
      if !ok {
        return SendPending;
      }
      tx.pending := None;
      tx.CountSent();
      r := Sent;
    }

    /** `cancel_send`: on a valid endpoint the mailbox stays as it is. */
    method CancelSend(tx: MailboxTx)
      requires Valid() && tx.Valid()
      modifies outbound`occupied, tx
      ensures tx.Valid() && tx.pending == None && tx.sentFrames == 0 && outbound.Abs() == old(outbound.Abs())
    {
      if tx.pending.Some? && tx.pending.value.published {
        assert false;   // no pending frame is published between polls
      }
      tx.sentFrames := 0;
      tx.pending := None;
    }

    /** One `poll_recv` without an operational deadline. */
    method PollRecv(rx: SioRx) returns (r: RecvResult)
      requires Valid() && rx.role <= 2
      modifies `lanes, inbound, inbound.bytes, stash.slots, rx
      ensures lanes == old(lanes)[rx.role := rx.lane]
      ensures (rx.Abs(), stash.Contents(), inbound.Abs(), r)
              == RecvSpec(old(rx.Abs()), old(stash.Contents()), old(inbound.Abs()))
    {
      hide PollStash, TakeSpec;
      lanes := lanes[rx.role := rx.lane];
      var again := rx.Restart();
      if again {
        return Received(rx.Handed());
      }
      var polled := stash.Poll(rx.role, rx.lane);
      match polled {
        case Hit(f) =>
          rx.Stage(f);
          return Received(rx.Handed());
        case OtherLane => return RecvPending;
        case Refusal(e) => return RecvFailed(e);
        case Nothing =>
      }
      r := TakeAndDispose(rx);
    }

    /** The mailbox loop of `poll_recv`: a frame for another endpoint is stashed and the mailbox looked at again. */
    method TakeAndDispose(rx: SioRx) returns (r: RecvResult)
      requires Valid()
      modifies inbound, stash.slots, rx
      ensures var slot := old(inbound.Abs());
              match TakeSpec(slot)
              case Vacant => r == RecvPending && rx.Abs() == old(rx.Abs()) && stash.Contents() == old(stash.Contents()) && inbound.Abs() == slot
              case Invalid(e) => r == RecvFailed(e) && rx.Abs() == old(rx.Abs()) && stash.Contents() == old(stash.Contents()) && inbound.Abs() == slot.(occupied := false)
              case Taken(f) =>
                var (stash', routed) := Route(MailboxCarrier.LAYOUT, old(stash.Contents()), rx.role, rx.lane, f);
                && stash.Contents() == stash' && inbound.Abs() == slot.(occupied := false)
                && (routed.Staged? ==> r == Received(f.(peer := rx.role)) && rx.Abs() == old(rx.Abs()).(staged := Some(f), delivered := true))
                && (routed.Stashed? ==> r == RecvPending && rx.Abs() == old(rx.Abs()))
                && (routed.Refused? ==> r == RecvFailed(routed.error) && rx.Abs() == old(rx.Abs()))
    {
      var taken := inbound.Take();
      match taken {
        case Vacant => return RecvPending;
        case Invalid(e) => return RecvFailed(e);
        case Taken(f) =>
          if f.peer == rx.role && f.lane == rx.lane {
            rx.Stage(f);
            return Received(rx.Handed());
          }
          var routed := stash.Put(f);
          if routed.Refused? {
            return RecvFailed(routed.error);
          }
          var again := inbound.Take();
          assert again == Vacant;
          return RecvPending;
      }
    }
  }
}
