/** The RP2040 mailbox slot: one frame in shared memory, written and read field by field. */
module MailboxSlot {
  import opened Wire

  /** The slot's memory. `occupied` is the flag the two cores hand over with. */
  datatype Slot = Slot(occupied: bool, session: Word, sender: Role, peer: Role, frameLabel: Byte, lane: Byte, len: nat, bytes: seq<Byte>)

  function EmptySlot(): Slot {
    Slot(false, 0, 0, 0, 0, 0, 0, seq(FRAME_BYTES, _ => 0))
  }

  ghost predicate WellFormed(slot: Slot) {
    |slot.bytes| == FRAME_BYTES
  }

  /** The slot shows exactly this frame. */
  ghost predicate Holds(slot: Slot, f: Frame) {
    WellFormed(slot) && Legal(f) && Filled(slot, f, 6 + |f.payload|)
  }

  // ---------------------------------------------------------------- writing, one field at a time

  /** Write number `k` of `publish_mailbox_frame`: six header fields, then the payload bytes. */
  function WriteField(slot: Slot, f: Frame, k: nat): Slot
    requires WellFormed(slot) && Legal(f) && k < 6 + |f.payload|
  {
    match k
    case 0 => slot.(session := f.session)
    case 1 => slot.(sender := f.sender)
    case 2 => slot.(peer := f.peer)
    case 3 => slot.(frameLabel := f.frameLabel)
    case 4 => slot.(lane := f.lane)
    case 5 => slot.(len := |f.payload|)
    case _ => slot.(bytes := slot.bytes[k - 6 := f.payload[k - 6]])
  }

  /** The first `k` writes have been made. */
  ghost predicate Filled(slot: Slot, f: Frame, k: nat)
    requires WellFormed(slot) && Legal(f)
  {
    && (k > 0 ==> slot.session == f.session)
    && (k > 1 ==> slot.sender == f.sender)
    && (k > 2 ==> slot.peer == f.peer)
    && (k > 3 ==> slot.frameLabel == f.frameLabel)
    && (k > 4 ==> slot.lane == f.lane)
    && (k > 5 ==> slot.len == |f.payload|)
    && (forall i :: 0 <= i < |f.payload| && i + 6 < k ==> slot.bytes[i] == f.payload[i])
  }

  lemma FillStep(slot: Slot, f: Frame, k: nat)
    requires WellFormed(slot) && Legal(f) && k < 6 + |f.payload| && Filled(slot, f, k)
    ensures WellFormed(WriteField(slot, f, k)) && Filled(WriteField(slot, f, k), f, k + 1)
    ensures WriteField(slot, f, k).occupied == slot.occupied
  {}

  // ---------------------------------------------------------------- reading, one field at a time

  /** What the reader has copied so far. */
  datatype Copy = Copy(len: nat, sender: Role, peer: Role, bytes: seq<Byte>, session: Word, frameLabel: Byte, lane: Byte)

  const BLANK: Copy := Copy(0, 0, 0, [], 0, 0, 0)

  /** Read number `k` of `take_mailbox_frame`: length, sender, peer, the bytes, session, label, lane. */
  function ReadField(slot: Slot, copy: Copy, k: nat): Copy
    requires WellFormed(slot) && (k > 0 ==> copy.len <= FRAME_BYTES)
  {
    if k == 0 then copy.(len := slot.len)
    else if k == 1 then copy.(sender := slot.sender)
    else if k == 2 then copy.(peer := slot.peer)
    else if k < 3 + copy.len then copy.(bytes := copy.bytes + [slot.bytes[k - 3]])
    else if k == 3 + copy.len then copy.(session := slot.session)
    else if k == 4 + copy.len then copy.(frameLabel := slot.frameLabel)
    else copy.(lane := slot.lane)
  }

  function FrameOf(copy: Copy): Frame {
    Frame(copy.session, copy.sender, copy.peer, copy.frameLabel, copy.lane, copy.bytes)
  }

  /** The first `k` reads returned this frame's fields. */
  ghost predicate Copied(copy: Copy, f: Frame, k: nat) {
    && (k > 0 ==> copy.len == |f.payload|)
    && (k > 1 ==> copy.sender == f.sender)
    && (k > 2 ==> copy.peer == f.peer)
    && copy.bytes == (if k <= 3 then [] else if k - 3 <= |f.payload| then f.payload[..k - 3] else f.payload)
    && (k > 3 + |f.payload| ==> copy.session == f.session)
    && (k > 4 + |f.payload| ==> copy.frameLabel == f.frameLabel)
    && (k > 5 + |f.payload| ==> copy.lane == f.lane)
  }

  lemma CopyStep(slot: Slot, f: Frame, copy: Copy, k: nat)
    requires Holds(slot, f) && Copied(copy, f, k) && k < 6 + |f.payload|
    ensures Copied(ReadField(slot, copy, k), f, k + 1)
  {
    if 3 <= k < 3 + |f.payload| {
      assert f.payload[..k - 3] + [f.payload[k - 3]] == f.payload[..k + 1 - 3];
    }
  }

  lemma CopyDone(copy: Copy, f: Frame)
    requires Copied(copy, f, 6 + |f.payload|)
    ensures FrameOf(copy) == f
  {}

  // ---------------------------------------------------------------- whole reads and writes

  datatype TakeResult = Vacant | Taken(frame: Frame) | Invalid(error: TransportError)

  /** `take_mailbox_frame` on a slot nobody else is touching. */
  function TakeSpec(slot: Slot): TakeResult
    requires WellFormed(slot)
  {
    if !slot.occupied then Vacant
    else if slot.len > FRAME_BYTES then Invalid(Capacity)
    else if slot.sender == slot.peer then Invalid(Failed)
    else Taken(Frame(slot.session, slot.sender, slot.peer, slot.frameLabel, slot.lane, slot.bytes[..slot.len]))
  }

  lemma TakePublished(slot: Slot, f: Frame)
    requires Holds(slot, f) && slot.occupied
    ensures TakeSpec(slot) == Taken(f)
  {
    assert slot.bytes[..slot.len] == f.payload;
  }

  /** The slot in memory. */
  class SioMailboxSlot {
    var occupied: bool
    var session: Word
    var sender: Role
    var peer: Role
    var frameLabel: Byte
    var lane: Byte
    var len: nat
    const bytes: array<Byte>

    ghost predicate Valid() {
      bytes.Length == FRAME_BYTES
    }

    ghost function Abs(): (slot: Slot)
      reads this, bytes
      requires Valid()
      ensures WellFormed(slot)
    {
      Slot(occupied, session, sender, peer, frameLabel, lane, len, bytes[..])
    }

    constructor ()
      ensures Valid() && fresh(bytes) && !Abs().occupied
    {
      occupied, session, sender, peer, frameLabel, lane, len := false, 0, 0, 0, 0, 0, 0;
      bytes := new Byte[FRAME_BYTES](_ => 0);
    }

    /** `publish_mailbox_frame`, alone on the slot: nothing while it is occupied. */
    method Publish(f: Frame) returns (ok: bool)
      requires Valid() && Legal(f)
      modifies this, bytes
      ensures ok == !old(Abs()).occupied
      ensures if ok then Abs().occupied && Holds(Abs(), f) else Abs() == old(Abs())
    {
      if occupied {
        return false;
      }
      session := f.session;
      sender := f.sender;
      peer := f.peer;
      frameLabel := f.frameLabel;
      lane := f.lane;
      len := |f.payload|;
      var idx := 0;
      while idx < |f.payload|
        invariant 0 <= idx <= |f.payload|
        invariant !occupied && Filled(Abs(), f, 6 + idx)
      {
        bytes[idx] := f.payload[idx];
        idx := idx + 1;
      }
      occupied := true;
      ok := true;
    }

    method Clear()
      requires Valid()
      modifies this`occupied
      ensures Abs() == old(Abs()).(occupied := false)
    {
      occupied := false;
    }

    /** `take_mailbox_frame`, alone on the slot. */
    method Take() returns (r: TakeResult)
      requires Valid()
      modifies this`occupied
      ensures r == TakeSpec(old(Abs())) && Abs() == old(Abs()).(occupied := false)
      // nothing in an empty slot; an oversized length is one error, equal roles the other; else the fields as they are
      ensures r == Vacant <==> !old(occupied)
      ensures r == Invalid(Capacity) <==> old(occupied) && len > 128
      ensures r == Invalid(Failed) <==> old(occupied) && len <= 128 && sender == peer
      ensures r.Taken? ==> r.frame == Frame(session, sender, peer, frameLabel, lane, bytes[..len])
    {
      if !occupied {
        return Vacant;
      }
      if len > FRAME_BYTES {
        Clear();
        return Invalid(Capacity);
      }
      if sender == peer {
        Clear();
        return Invalid(Failed);
      }
      var copied: seq<Byte> := [];
      var idx := 0;
      while idx < len
        invariant 0 <= idx <= len && copied == bytes[..idx]
      {
        copied := copied + [bytes[idx]];
        idx := idx + 1;
      }
      r := Taken(Frame(session, sender, peer, frameLabel, lane, copied));
      assert copied == bytes[..][..len];
      Clear();
    }
  }
}
