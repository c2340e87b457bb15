/** The parts both SIO transports keep per core and per receiving endpoint, updated in place. */
module Endpoints {
  import opened Wire
  import opened Demux

  /** The one-slot-per-role stash. */
  class RoleStash {
    const slots: array<Option<Frame>>
    const noSlot: TransportError

    ghost function Shape(): Layout {
      Layout(slots.Length, noSlot)
    }

    ghost predicate Valid() {
      slots.Length <= 256
    }

    ghost function Contents(): Stash
      reads slots
      requires Valid()
    {
      map r: Role | r < slots.Length && slots[r].Some? :: slots[r].value
    }

    constructor (layout: Layout)
      requires layout.slots <= 256
      ensures Valid() && Shape() == layout && Contents() == map[] && fresh(slots)
    {
      slots := new Option<Frame>[layout.slots](_ => None);
      noSlot := layout.noSlot;
    }

    /** `take_stashed_frame` */
    method Take(role: Role) returns (f: Option<Frame>)
      requires Valid()
      modifies slots
      ensures (Contents(), f) == TakeStashed(old(Contents()), role)
    {
      ghost var before := Contents();
      if role >= slots.Length || slots[role].None? {
        return None;
      }
      f := slots[role];
      slots[role] := None;
      assert Contents() == before - {role};
    }

    /** `stash_frame` */
    method Put(f: Frame) returns (r: Routed)
      requires Valid()
      modifies slots
      ensures (Contents(), r) == StashFrame(Shape(), old(Contents()), f)
    {
      ghost var before := Contents();
      if f.peer >= slots.Length {
        return Refused(noSlot);
      }
      if slots[f.peer].Some? {
        return Refused(Capacity);
      }
      slots[f.peer] := Some(f);
      assert Contents() == before[f.peer := f];
      r := Stashed;
    }

    /** The stash part of `poll_recv`. */
    method Poll(role: Role, lane: Byte) returns (polled: StashPoll)
      requires Valid()
      modifies slots
      ensures (Contents(), polled) == PollStash(Shape(), old(Contents()), role, lane)
    {
      var waiting := Take(role);
      if waiting.None? {
        return Nothing;
      }
      if waiting.value.lane != lane {
        var routed := Put(waiting.value);
        return if routed.Refused? then Refusal(routed.error) else OtherLane;
      }
      return Hit(waiting.value);
    }
  }

  datatype SendResult = Sent | SendPending | SendFailed(error: TransportError)
  datatype RecvResult = Received(frame: Frame) | RecvPending | RecvFailed(error: TransportError)

  class SioRx {
    const role: Role
    const lane: Byte
    var staged: Option<Frame>
    var requeued: bool
    var delivered: bool

    constructor (role: Role, lane: Byte)
      ensures this.role == role && this.lane == lane && Abs() == Rx(role, lane, None, false, false)
    {
      this.role, this.lane := role, lane;
      staged, requeued, delivered := None, false, false;
    }

    ghost function Abs(): Rx
      reads this
    {
      Rx(role, lane, staged, requeued, delivered)
    }

    /** The frame with the header a poll returns: the receiver's own role in the peer field. */
    function Handed(): Frame
      reads this
      requires staged.Some?
    {
      staged.value.(peer := role)
    }

    /** `stage_frame` */
    method Stage(f: Frame)
      modifies this
      ensures Abs() == old(Abs()).(staged := Some(f), delivered := true)
    {
      staged, delivered := Some(f), true;
    }

    /** The start of `poll_recv`: hands a requeued frame over again, or forgets the last one. */
    method Restart() returns (again: bool)
      modifies this
      ensures again == Redelivers(old(Abs()))
      ensures Abs() == if again then old(Abs()).(requeued := false, delivered := true) else Cleared(old(Abs()))
      ensures again <==> old(staged).Some? && (old(requeued) || !old(delivered))
      ensures staged == (if again then old(staged) else None) && (again ==> !requeued && delivered)
    {
      again := staged.Some? && (requeued || !delivered);
      if again {
        requeued, delivered := false, true;
      } else if staged.Some? {
        staged, delivered := None, false;
      }
    }

    /** `requeue`: marks the staged frame, if any, to be handed over again. */
    method Requeue()
      modifies this
      ensures Abs() == RequeueRx(old(Abs()))
      ensures staged == old(staged) && requeued == staged.Some? && delivered == (old(delivered) && staged.None?)
    {
      requeued := staged.Some?;
      if requeued {
        delivered := false;
      }
    }
  }
}
