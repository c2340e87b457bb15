/** The lane-scoped ring queue of the UNO Q carriers: frames leave from the middle of a 24-slot ring and
    can be put back in front. */
module LaneQueue {
  import opened Wire

  const DEPTH := 24

  /** A slot of the ring; `payload` are the first `len` bytes of its buffer. */
  datatype ProofFrame = ProofFrame(occupied: bool, lane: Byte, source: Role, frameLabel: Byte, payload: seq<Byte>)

  const NO_FRAME := ProofFrame(false, 0, 0, 0, [])

  // ---------------------------------------------------------------- the queue as a sequence

  type Queue = seq<ProofFrame>

  predicate Fits(q: Queue, payload: seq<Byte>) {
    |payload| <= FRAME_BYTES && |q| < DEPTH
  }

  /** Index of the first frame on a lane, or the length of the queue. */
  function FirstOn(q: Queue, lane: Byte): (i: nat)
    ensures i <= |q| && (i < |q| ==> q[i].lane == lane)
    ensures forall k :: 0 <= k < i ==> q[k].lane != lane
  {
    if q == [] then 0 else if q[0].lane == lane then 0 else 1 + FirstOn(q[1..], lane)
  }

  /** `pop_front(lane)`: the first frame of the lane leaves, the others keep their order. */
  function Popped(q: Queue, lane: Byte): (Queue, Option<ProofFrame>) {
    var i := FirstOn(q, lane);
    if i == |q| then (q, None) else (q[..i] + q[i + 1..], Some(q[i]))
  }

  function Appended(q: Queue, f: ProofFrame): Queue {
    if Fits(q, f.payload) then q + [f] else q
  }

  /** `push_front` says nothing when it does not fit. */
  function Prepended(q: Queue, f: ProofFrame): Queue {
    if Fits(q, f.payload) then [f] + q else q
  }

  /** The frames of one lane, in order. */
  function OnLane(q: Queue, lane: Byte): Queue {
    if q == [] then [] else if q[0].lane == lane then [q[0]] + OnLane(q[1..], lane) else OnLane(q[1..], lane)
  }

  lemma {:induction false} OnLaneConcat(p: Queue, q: Queue, lane: Byte)
    ensures OnLane(p + q, lane) == OnLane(p, lane) + OnLane(q, lane)
  {
    hide OnLane;
    if p == [] {
      assert p + q == q;
      OnLaneNone(p, lane);
      assert [] + OnLane(q, lane) == OnLane(q, lane);
    } else {
      OnLaneConcat(p[1..], q, lane);
      assert (p + q)[0] == p[0] && (p + q)[1..] == p[1..] + q;
      OnLaneFirst(p, lane);
      OnLaneFirst(p + q, lane);
      Regroup([p[0]], OnLane(p[1..], lane), OnLane(q, lane));
    }
  }

  lemma OnLaneFirst(q: Queue, lane: Byte)
    requires q != []
    ensures OnLane(q, lane) == if q[0].lane == lane then [q[0]] + OnLane(q[1..], lane) else OnLane(q[1..], lane)
  {}

  lemma Regroup(a: Queue, b: Queue, c: Queue)
    ensures a + b + c == a + (b + c)
  {}

  lemma {:induction false} OnLaneNone(q: Queue, lane: Byte)
    requires forall k :: 0 <= k < |q| ==> q[k].lane != lane
    ensures OnLane(q, lane) == []
  {
    if q != [] {
      OnLaneNone(q[1..], lane);
    }
  }

  lemma OnLaneOne(f: ProofFrame, lane: Byte)
    ensures OnLane([f], lane) == if f.lane == lane then [f] else []
  {
    assert [f][1..] == [];
  }

  /** A pop takes the head of its lane and leaves every other lane alone; it finds nothing exactly when
      the lane is empty. */
  lemma PopTakesHeadOfLane(q: Queue, lane: Byte)
    ensures var (rest, popped) := Popped(q, lane);
            && (popped == None <==> OnLane(q, lane) == [])
            && (popped == None ==> rest == q)
            && (popped.Some? ==> popped.value.lane == lane && popped.value in q && |rest| == |q| - 1)
            && (popped.Some? ==> OnLane(q, lane) == [popped.value] + OnLane(rest, lane))
            && forall l :: l != lane ==> OnLane(rest, l) == OnLane(q, l)
  {
    hide OnLane, FirstOn;
    var i := FirstOn(q, lane);
    if i == |q| {
      OnLaneNone(q, lane);
    } else {
      HeadOfLane(q, i, lane);
      forall l | l != lane ensures OnLane(q[..i] + q[i + 1..], l) == OnLane(q, l) {
        SplitLane(q, i, l);
      }
    }
  }

  lemma HeadOfLane(q: Queue, i: nat, lane: Byte)
    requires i < |q| && q[i].lane == lane && forall k :: 0 <= k < i ==> q[k].lane != lane
    ensures OnLane(q, lane) == [q[i]] + OnLane(q[..i] + q[i + 1..], lane)
  {
    hide OnLane;
    OnLaneNone(q[..i], lane);
    SplitLane(q, i, lane);
    NothingBefore(q[i], OnLane(q[i + 1..], lane));
  }

  lemma NothingBefore(f: ProofFrame, after: Queue)
    ensures [] + [f] + after == [f] + after && [] + after == after
  {}

  lemma SplitLane(q: Queue, i: nat, lane: Byte)
    requires i < |q|
    ensures OnLane(q, lane) == if q[i].lane == lane then OnLane(q[..i], lane) + [q[i]] + OnLane(q[i + 1..], lane)
                               else OnLane(q[..i], lane) + OnLane(q[i + 1..], lane)
    ensures OnLane(q[..i] + q[i + 1..], lane) == OnLane(q[..i], lane) + OnLane(q[i + 1..], lane)
  {
    hide OnLane;
    var one, after := [q[i]], q[i + 1..];
    assert q == q[..i] + one + after;
    OnLaneConcat(q[..i] + one, after, lane);
    OnLaneConcat(q[..i], one, lane);
    OnLaneConcat(q[..i], after, lane);
    OnLaneOne(q[i], lane);
    assert OnLane(q[..i], lane) + [] == OnLane(q[..i], lane);
  }

  /** Putting a popped frame straight back always fits and restores every lane; it restores the queue
      itself if and only if the frame had been at its head. */
  lemma RequeueRestoresLanes(q: Queue, lane: Byte)
    requires Popped(q, lane).1.Some? && |q| <= DEPTH && forall k :: 0 <= k < |q| ==> |q[k].payload| <= FRAME_BYTES
    ensures var (rest, popped) := Popped(q, lane);
            && Fits(rest, popped.value.payload)
            && (forall l :: OnLane(Prepended(rest, popped.value), l) == OnLane(q, l))
            && (Prepended(rest, popped.value) == q <==> q[0].lane == lane)
  {
    var (rest, popped) := Popped(q, lane);
    PopTakesHeadOfLane(q, lane);
    var i := FirstOn(q, lane);
    forall l ensures OnLane([popped.value] + rest, l) == OnLane(q, l) {
      OnLaneConcat([popped.value], rest, l);
      OnLaneOne(popped.value, l);
    }
    assert ([popped.value] + rest)[0] == q[i];
    if i == 0 {
      assert [q[0]] + (q[..0] + q[1..]) == q;
    }
  }

  // ---------------------------------------------------------------- the ring

  /** Position `i` of a ring that starts at `head`. */
  function Wrap(head: nat, i: nat): (slot: nat)
    requires head < DEPTH && i <= DEPTH
    ensures slot < DEPTH && slot == (if head + i < DEPTH then head + i else head + i - DEPTH)
  {
    (head + i) % DEPTH
  }

  lemma WrapBack(head: nat, back: nat, i: nat)
    requires head < DEPTH && i < DEPTH && back == if head == 0 then DEPTH - 1 else head - 1
    ensures Wrap(back, i) == Wrap(head, if i == 0 then DEPTH - 1 else i - 1)
  {}

  lemma Rotated(r: seq<ProofFrame>, after: seq<ProofFrame>)
    requires |r| == |after| == DEPTH && forall i :: 0 <= i < DEPTH ==> after[i] == r[if i == 0 then DEPTH - 1 else i - 1]
    ensures after == [r[DEPTH - 1]] + r[..DEPTH - 1]
  {}

  lemma FrontPushed(r: seq<ProofFrame>, len: nat, f: ProofFrame)
    requires Tidy(r, len) && len < DEPTH && f.occupied && |f.payload| <= FRAME_BYTES
    ensures var after := ([r[DEPTH - 1]] + r[..DEPTH - 1])[0 := f];
            Tidy(after, len + 1) && after[..len + 1] == [f] + r[..len]
  {
    var after := ([r[DEPTH - 1]] + r[..DEPTH - 1])[0 := f];
    assert after == [f] + r[..DEPTH - 1];
  }

  lemma TidyFits(r: seq<ProofFrame>, len: nat)
    requires Tidy(r, len)
    ensures len <= DEPTH
  {}

  /** A ring read from its head: the first `len` slots hold frames that fit, all others are empty. */
  ghost predicate Tidy(r: seq<ProofFrame>, len: nat) {
    && |r| == DEPTH && len <= DEPTH
    && (forall i :: 0 <= i < len ==> r[i].occupied && |r[i].payload| <= FRAME_BYTES)
    && (forall i :: len <= i < DEPTH ==> r[i] == NO_FRAME)
  }

  class ProofQueue {
    const frames: array<ProofFrame>
    var head: nat
    var len: nat

    /** All slots in ring order, used or not. */
    ghost function Ring(): (r: seq<ProofFrame>)
      reads `head, frames
      requires frames.Length == DEPTH && head < DEPTH
      ensures |r| == DEPTH && forall i :: 0 <= i < DEPTH ==> r[i] == frames[Wrap(head, i)]
    {
      frames[head..] + frames[..head]
    }

    /** The slots in use hold frames that fit, all others are empty. */
    ghost predicate Valid()
      reads this, frames
    {
      frames.Length == DEPTH && head < DEPTH && Tidy(Ring(), len)
    }

    ghost function Contents(): (q: Queue)
      reads this, frames
      requires Valid()
      ensures |q| == len
    {
      Ring()[..len]
    }

    constructor ()
      ensures Valid() && Contents() == [] && fresh(frames)
    {
      frames := new ProofFrame[DEPTH](_ => NO_FRAME);
      head, len := 0, 0;
    }

    /** One write to a ring position. */
    method SetSlot(slot: nat, ghost n: nat, f: ProofFrame)
      requires frames.Length == DEPTH && head < DEPTH && n < DEPTH && slot == Wrap(head, n)
      modifies frames
      ensures Ring() == old(Ring())[n := f]
    {
      frames[slot] := f;
    }

    method PushBack(lane: Byte, source: Role, frameLabel: Byte, payload: seq<Byte>) returns (ok: bool)
      requires Valid()
      modifies this, frames
      ensures Valid()
      ensures ok == Fits(old(Contents()), payload)
      ensures Contents() == Appended(old(Contents()), ProofFrame(true, lane, source, frameLabel, payload))
    {
      hide Wrap;
      if |payload| > FRAME_BYTES || len == DEPTH {
        return false;
      }
      var idx := Wrap(head, len);
      SetSlot(idx, len, ProofFrame(true, lane, source, frameLabel, payload));
      len := len + 1;
      ok := true;
    }

    method PushFront(lane: Byte, source: Role, frameLabel: Byte, payload: seq<Byte>)
      requires Valid()
      modifies this, frames
      ensures Valid()
      ensures Contents() == Prepended(old(Contents()), ProofFrame(true, lane, source, frameLabel, payload))
    {
      hide Wrap, Tidy, ProofQueue.Ring;
      if |payload| > FRAME_BYTES || len == DEPTH {
        return;
      }
      TidyFits(Ring(), len);
      var f := ProofFrame(true, lane, source, frameLabel, payload);
      FrontPushed(Ring(), len, f);
      StepBack();
      SetSlot(head, 0, f);
      len := len + 1;
    }

    /** Moving the head back one slot puts the last slot of the ring in front. */
    method StepBack()
      requires frames.Length == DEPTH && head < DEPTH
      modifies this`head
      ensures head < DEPTH && Wrap(head, 0) == head
      ensures Ring() == [old(Ring())[DEPTH - 1]] + old(Ring())[..DEPTH - 1]
    {
      hide Wrap;
      ghost var oldHead := head;
      head := if head == 0 then DEPTH - 1 else head - 1;
      ghost var before := old(Ring());
      forall i | 0 <= i < DEPTH ensures Ring()[i] == before[if i == 0 then DEPTH - 1 else i - 1] {
        WrapBack(oldHead, head, i);
      }
      Rotated(before, Ring());
    }

    /** The search loop of `pop_front`. */
    method Find(lane: Byte) returns (offset: nat)
      requires Valid()
      ensures offset == FirstOn(Contents(), lane)
    {
      offset := 0;
      while offset < len
        invariant offset <= len
        invariant forall k :: 0 <= k < offset ==> Contents()[k].lane != lane
      {
        var idx := Wrap(head, offset);
        if frames[idx].occupied && frames[idx].lane == lane {
          FirstOnUnique(Contents(), lane, offset);
          return;
        }
        offset := offset + 1;
      }
      FirstOnUnique(Contents(), lane, offset);
    }

    /** The shift loop of `pop_front`: moves every frame after `offset` one slot towards the head, across
        the wrap point if need be. */
    method Shift(offset: nat)
      requires frames.Length == DEPTH && head < DEPTH && offset < len <= DEPTH
      modifies frames
      ensures Ring() == Moved(old(Ring()), offset, len - 1)
    {
      hide Wrap, Moved, ProofQueue.Ring;
      ghost var r := Ring();
      MovedSteps(r, offset, offset);
      var tail := Wrap(head, len - 1);
      var cursor := Wrap(head, offset);
      ghost var n := offset;
      while cursor != tail
        invariant offset <= n < len && cursor == Wrap(head, n)
        invariant Ring() == Moved(r, offset, n)
        decreases len - n
      {
        var next := if cursor + 1 == DEPTH then 0 else cursor + 1;
        assert next == Wrap(head, n + 1);
        MovedSteps(r, offset, n);
        assert frames[next] == Ring()[n + 1];
        SetSlot(cursor, n, frames[next]);
        cursor := next;
        n := n + 1;
      }
    }

    /** Closes the gap at `offset`; an emptied ring starts again at slot 0. */
    method CloseGap(offset: nat)
      requires Valid() && offset < len
      modifies this, frames
      ensures Valid()
      ensures Contents() == old(Contents())[..offset] + old(Contents())[offset + 1..]
    {
      hide Moved, Wrap, Tidy;
      GapClosed(Ring(), len, offset);
      Shift(offset);
      SetSlot(Wrap(head, len - 1), len - 1, NO_FRAME);
      len := len - 1;
      assert Contents() == old(Contents())[..offset] + old(Contents())[offset + 1..];
      if len == 0 {
        StartOver();
      }
    }

    /** An empty ring may start anywhere. */
    method StartOver()
      requires Valid() && len == 0
      modifies this`head
      ensures Valid() && Contents() == []
    {
      ghost var oldHead := head;
      head := 0;
      forall s | 0 <= s < DEPTH ensures frames[s] == NO_FRAME {
        assert s == Wrap(oldHead, if s >= oldHead then s - oldHead else s + DEPTH - oldHead);
      }
    }

    method PopFront(lane: Byte) returns (f: Option<ProofFrame>)
      requires Valid()
      modifies this, frames
      ensures Valid()
      ensures (Contents(), f) == Popped(old(Contents()), lane)
      ensures f.Some? ==> f.value.occupied && f.value.lane == lane
    {
      if len == 0 {
        return None;
      }
      var offset := Find(lane);
      if offset == len {
        return None;
      }
      var frame := frames[Wrap(head, offset)];
      CloseGap(offset);
      f := if frame.occupied then Some(frame) else None;
    }
  }

  lemma {:induction false} FirstOnUnique(q: Queue, lane: Byte, i: nat)
    requires i <= |q| && (i < |q| ==> q[i].lane == lane) && forall k :: 0 <= k < i ==> q[k].lane != lane
    ensures FirstOn(q, lane) == i
  {
    var j := FirstOn(q, lane);
    assert !(j < i) && !(i < j);
  }

  /** A ring whose positions `offset` to `n` have taken over their successors' frames. */
  ghost function Moved(r: seq<ProofFrame>, offset: nat, n: nat): seq<ProofFrame>
    requires offset <= n < |r|
  {
    r[..offset] + r[offset + 1..n + 1] + r[n..]
  }

  lemma MovedSteps(r: seq<ProofFrame>, offset: nat, n: nat)
    requires offset <= n < |r|
    ensures n == offset ==> Moved(r, offset, n) == r
    ensures n + 1 < |r| ==> |Moved(r, offset, n)| == |r| && Moved(r, offset, n)[n := Moved(r, offset, n)[n + 1]] == Moved(r, offset, n + 1)
  {}

  /** Shifting over one frame and clearing the last slot in use removes that frame from the queue. */
  lemma GapClosed(r: seq<ProofFrame>, len: nat, offset: nat)
    requires offset < len && Tidy(r, len)
    ensures |Moved(r, offset, len - 1)| == DEPTH && len <= DEPTH
    ensures var after := Moved(r, offset, len - 1)[len - 1 := NO_FRAME];
            Tidy(after, len - 1) && after[..len - 1] == r[..len][..offset] + r[..len][offset + 1..]
  {}
}
