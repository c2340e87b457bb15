/** Polling in a loop: frames for other endpoints are stashed until one is for the endpoint that polls, or
    one has no free slot. */
module Drains {
  import opened Wire
  import opened Demux

  datatype DrainEnd = Empty | Got(frame: Frame) | Failure(error: TransportError)

  /** The pop loop on whole frames: the stash, how many frames it takes, and how it ends. */
  function DrainFrames(layout: Layout, stash: Stash, fs: seq<Frame>, role: Role, lane: Byte): (r: (Stash, nat, DrainEnd))
    ensures r.1 <= |fs|
    decreases |fs|
  {
    if fs == [] then (stash, 0, Empty)
    else
      var (stash', routed) := Route(layout, stash, role, lane, fs[0]);
      match routed
      case Staged => (stash', 1, Got(fs[0]))
      case Refused(e) => (stash', 1, Failure(e))
      case Stashed =>
        var (last, n, end) := DrainFrames(layout, stash', fs[1..], role, lane);
        (last, n + 1, end)
  }

  // ---------------------------------------------------------------- when it fails

  predicate Polled(f: Frame, role: Role, lane: Byte) {
    f.peer == role && f.lane == lane
  }

  /** Frame `k` has no slot, or its slot is taken at the start or by an earlier frame. */
  predicate Blocked(layout: Layout, stash: Stash, fs: seq<Frame>, k: nat)
    requires k < |fs|
  {
    !HasSlot(layout, fs[k].peer) || fs[k].peer in stash || exists j :: 0 <= j < k && fs[j].peer == fs[k].peer
  }

  /** Some frame that comes before every frame for the polled endpoint is blocked. */
  predicate Collides(layout: Layout, stash: Stash, fs: seq<Frame>, role: Role, lane: Byte) {
    exists k :: 0 <= k < |fs| && Blocked(layout, stash, fs, k) && forall j :: 0 <= j <= k ==> !Polled(fs[j], role, lane)
  }

  lemma {:induction false} DrainFails(layout: Layout, stash: Stash, fs: seq<Frame>, role: Role, lane: Byte)
    ensures DrainFrames(layout, stash, fs, role, lane).2.Failure? <==> Collides(layout, stash, fs, role, lane)
    decreases |fs|
  {
    hide HasSlot;
    if fs != [] && !Polled(fs[0], role, lane) {
      if Blocked(layout, stash, fs, 0) {
        assert forall j :: 0 <= j <= 0 ==> !Polled(fs[j], role, lane);
      } else {
        DrainFails(layout, stash[fs[0].peer := fs[0]], fs[1..], role, lane);
        CollidesLater(layout, stash, fs, role, lane);
      }
    }
  }

  /** What the loop takes and leaves: with `n` frames each stashed in its own free slot, it goes on to the next;
      that one it hands over if it is for the polled endpoint, or else turns away with the error that says
      why; if there is none, the loop finds nothing. */
  lemma {:induction false} DrainTakes(layout: Layout, stash: Stash, fs: seq<Frame>, role: Role, lane: Byte, n: nat)
    requires n <= |fs| && forall k :: 0 <= k < n ==> !Polled(fs[k], role, lane) && !Blocked(layout, stash, fs, k)
    requires n < |fs| ==> Polled(fs[n], role, lane) || Blocked(layout, stash, fs, n)
    ensures var (after, taken, end) := DrainFrames(layout, stash, fs, role, lane);
            && taken == (if n < |fs| then n + 1 else n)
            && after.Keys == stash.Keys + (set k | 0 <= k < n :: fs[k].peer)
            && (forall k :: 0 <= k < n ==> after[fs[k].peer] == fs[k]) && (forall r :: r in stash ==> after[r] == stash[r])
            && end == if n == |fs| then Empty else if Polled(fs[n], role, lane) then Got(fs[n])
                      else Failure(if HasSlot(layout, fs[n].peer) then Capacity else layout.noSlot)
    decreases n
  {
    hide HasSlot, Blocked, Route, DrainFrames;
    DrainFirst(layout, stash, fs, role, lane);
    if n > 0 {
      var first, rest := fs[0], fs[1..];
      var stash' := stash[first.peer := first];
      forall k | 0 <= k < |rest| ensures Blocked(layout, stash', rest, k) <==> Blocked(layout, stash, fs, k + 1) {
        BlockedLater(layout, stash, fs, k);
      }
      forall k | 0 <= k < n - 1 ensures !Polled(rest[k], role, lane) && !Blocked(layout, stash', rest, k) {
        assert !Polled(fs[k + 1], role, lane) && !Blocked(layout, stash, fs, k + 1);
      }
      assert !Polled(fs[0], role, lane) && !Blocked(layout, stash, fs, 0);
      DrainTakes(layout, stash', rest, role, lane, n - 1);
      KeysOnceMore(fs, n);
      forall k | 0 <= k < n ensures fs[k].peer in DrainFrames(layout, stash, fs, role, lane).0 && DrainFrames(layout, stash, fs, role, lane).0[fs[k].peer] == fs[k] {
        assert k > 0 ==> fs[k] == rest[k - 1];
      }
    }
  }

  /** The first frame of the loop, by case. */
  lemma DrainFirst(layout: Layout, stash: Stash, fs: seq<Frame>, role: Role, lane: Byte)
    ensures fs == [] ==> DrainFrames(layout, stash, fs, role, lane) == (stash, 0, Empty)
    ensures fs != [] && Polled(fs[0], role, lane) ==> DrainFrames(layout, stash, fs, role, lane) == (stash, 1, Got(fs[0]))
    ensures fs != [] && !Polled(fs[0], role, lane) && Blocked(layout, stash, fs, 0) ==>
              DrainFrames(layout, stash, fs, role, lane) == (stash, 1, Failure(if HasSlot(layout, fs[0].peer) then Capacity else layout.noSlot))
    ensures fs != [] && !Polled(fs[0], role, lane) && !Blocked(layout, stash, fs, 0) ==>
              && fs[0].peer !in stash
              && var (after, taken, end) := DrainFrames(layout, stash[fs[0].peer := fs[0]], fs[1..], role, lane);
                 DrainFrames(layout, stash, fs, role, lane) == (after, taken + 1, end)
  {
    hide HasSlot;
  }

  lemma KeysOnceMore(fs: seq<Frame>, n: nat)
    requires 0 < n <= |fs|
    ensures (set k | 0 <= k < n :: fs[k].peer) == {fs[0].peer} + (set k | 0 <= k < n - 1 :: fs[1..][k].peer)
  {
    forall k | 0 < k < n ensures fs[k].peer in (set k | 0 <= k < n - 1 :: fs[1..][k].peer) {
      assert fs[1..][k - 1] == fs[k];
    }
  }

  lemma CollidesLater(layout: Layout, stash: Stash, fs: seq<Frame>, role: Role, lane: Byte)
    requires fs != [] && !Polled(fs[0], role, lane) && !Blocked(layout, stash, fs, 0)
    ensures Collides(layout, stash, fs, role, lane) <==> Collides(layout, stash[fs[0].peer := fs[0]], fs[1..], role, lane)
  {
    hide HasSlot;
    var rest, stash' := fs[1..], stash[fs[0].peer := fs[0]];
    forall k | 0 <= k < |rest| ensures Blocked(layout, stash', rest, k) <==> Blocked(layout, stash, fs, k + 1) {
      BlockedLater(layout, stash, fs, k);
    }
    if Collides(layout, stash, fs, role, lane) {
      var k :| 0 <= k < |fs| && Blocked(layout, stash, fs, k) && forall j :: 0 <= j <= k ==> !Polled(fs[j], role, lane);
      assert Blocked(layout, stash', rest, k - 1);
      forall j | 0 <= j <= k - 1 ensures !Polled(rest[j], role, lane) {
        assert rest[j] == fs[j + 1];
      }
    }
    if Collides(layout, stash', rest, role, lane) {
      var k :| 0 <= k < |rest| && Blocked(layout, stash', rest, k) && forall j :: 0 <= j <= k ==> !Polled(rest[j], role, lane);
      assert Blocked(layout, stash, fs, k + 1);
      forall j | 0 <= j <= k + 1 ensures !Polled(fs[j], role, lane) {
        assert j > 0 ==> fs[j] == rest[j - 1];
      }
    }
  }

  lemma BlockedLater(layout: Layout, stash: Stash, fs: seq<Frame>, k: nat)
    requires k + 1 < |fs|
    ensures Blocked(layout, stash[fs[0].peer := fs[0]], fs[1..], k) <==> Blocked(layout, stash, fs, k + 1)
  {
    hide HasSlot;
    var rest := fs[1..];
    if j :| 0 <= j < k && rest[j].peer == rest[k].peer {
      assert fs[j + 1].peer == fs[k + 1].peer;
    }
    if j :| 0 <= j < k + 1 && fs[j].peer == fs[k + 1].peer {
      assert j > 0 ==> rest[j - 1].peer == rest[k].peer;
    }
  }

  // ---------------------------------------------------------------- a loop that takes its frames one by one

  /** What a polling core has done so far: how many frames it took, its stash, what it handed over, and the
      errors it answered. */
  datatype Tally = Tally(taken: nat, stash: Stash, delivered: seq<Frame>, errors: nat)

  /** Taking frame `f`; `more` says whether the loop goes on. */
  predicate TakesFrame(layout: Layout, a: Tally, b: Tally, role: Role, lane: Byte, f: Frame, more: bool) {
    var (stash, routed) := Route(layout, a.stash, role, lane, f);
    && b == Tally(a.taken + 1, stash, if routed.Staged? then a.delivered + [f] else a.delivered,
                  if routed.Refused? then a.errors + 1 else a.errors)
    && more == routed.Stashed?
  }

  /** One step of the loop: it takes nothing, or the next frame of the wire. */
  predicate LoopStep(layout: Layout, a: Tally, b: Tally, role: Role, lane: Byte, wire: seq<Frame>, more: bool) {
    b == a || (a.taken < |wire| && TakesFrame(layout, a, b, role, lane, wire[a.taken], more))
  }

  /** The loop took the frames from one state to the other, as `DrainFrames` does. */
  predicate LoopEnds(layout: Layout, a: Tally, b: Tally, role: Role, lane: Byte, wire: seq<Frame>) {
    && a.taken <= b.taken <= |wire|
    && var (stash, taken, end) := DrainFrames(layout, a.stash, wire[a.taken..b.taken], role, lane);
       && taken == b.taken - a.taken && b.stash == stash
       && b.delivered == (if end.Got? then a.delivered + [end.frame] else a.delivered)
       && b.errors == if end.Failure? then a.errors + 1 else a.errors
  }

  lemma EndsAtOnce(layout: Layout, a: Tally, b: Tally, role: Role, lane: Byte, wire: seq<Frame>)
    requires LoopStep(layout, a, b, role, lane, wire, false) && a.taken <= |wire|
    ensures LoopEnds(layout, a, b, role, lane, wire)
  {
    hide Route;
    var fs := wire[a.taken..b.taken];
    if b.taken > a.taken {
      assert fs == [wire[a.taken]] && !Route(layout, a.stash, role, lane, fs[0]).1.Stashed?;
    } else {
      assert fs == [];
    }
  }

  lemma EndsLater(layout: Layout, a: Tally, b: Tally, end: Tally, role: Role, lane: Byte, wire: seq<Frame>)
    requires LoopStep(layout, a, b, role, lane, wire, true) && LoopEnds(layout, b, end, role, lane, wire)
    ensures LoopEnds(layout, a, end, role, lane, wire)
  {
    hide Route;
    var fs := wire[a.taken..end.taken];
    if b.taken > a.taken {
      assert fs == [wire[a.taken]] + wire[b.taken..end.taken];
    }
  }

  /** Such a loop answers an error if and only if a frame it took collides. */
  lemma LoopFails(layout: Layout, a: Tally, b: Tally, role: Role, lane: Byte, wire: seq<Frame>)
    requires LoopEnds(layout, a, b, role, lane, wire)
    ensures a.errors <= b.errors <= a.errors + 1
    ensures b.errors > a.errors <==> Collides(layout, a.stash, wire[a.taken..b.taken], role, lane)
  {
    hide Collides, DrainFrames;
    DrainFails(layout, a.stash, wire[a.taken..b.taken], role, lane);
  }
}
