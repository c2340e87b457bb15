/** Guards over whole runs of a machine, given by its step function, and the steps of whole calls. */
module Runs {
  /** The state before step `k`. */
  ghost function StateAt<S, T>(next: (S, T) -> S, s: S, steps: seq<T>, k: nat): S
    requires k <= |steps|
    decreases k
  {
    if k == 0 then s else StateAt(next, next(s, steps[0]), steps[1..], k - 1)
  }

  /** No step of the run meets the guard in the state it is taken in. */
  ghost predicate Never<S, T>(next: (S, T) -> S, guard: (S, T) -> bool, s: S, steps: seq<T>) {
    forall k :: 0 <= k < |steps| ==> !guard(StateAt(next, s, steps, k), steps[k])
  }

  lemma NeverSplit<S, T>(next: (S, T) -> S, guard: (S, T) -> bool, s: S, steps: seq<T>)
    requires steps != []
    ensures Never(next, guard, s, steps) <==> !guard(s, steps[0]) && Never(next, guard, next(s, steps[0]), steps[1..])
  {
    var s', rest := next(s, steps[0]), steps[1..];
    assert StateAt(next, s, steps, 0) == s;
    forall k | 0 <= k < |rest| ensures StateAt(next, s, steps, k + 1) == StateAt(next, s', rest, k) && steps[k + 1] == rest[k] {}
    if Never(next, guard, s, steps) {
      forall k | 0 <= k < |rest| ensures !guard(StateAt(next, s', rest, k), rest[k]) {
        assert !guard(StateAt(next, s, steps, k + 1), steps[k + 1]);
      }
    }
    if !guard(s, steps[0]) && Never(next, guard, s', rest) {
      forall k | 0 <= k < |steps| ensures !guard(StateAt(next, s, steps, k), steps[k]) {
        if k > 0 {
          assert StateAt(next, s, steps, k) == StateAt(next, s', rest, k - 1) && steps[k] == rest[k - 1];
        }
      }
    }
  }

  predicate AllAre<T(==)>(steps: seq<T>, step: T) {
    forall k :: 0 <= k < |steps| ==> steps[k] == step
  }

  /** The steps of one whole call: its beginning, then its own accesses and nothing else. */
  predicate CallOf<T(==)>(steps: seq<T>, first: T, access: T) {
    steps != [] && steps[0] == first && AllAre(steps[1..], access)
  }
}
