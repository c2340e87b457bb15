/** The handshake that starts core 1 of the RP2350: six words are pushed through the FIFO, each one must
    come back, and the first word that does not sends the handshake back to its start. */
module CoreLaunch {
  import opened Wire

  const CORE1_LAUNCH_RETRIES := 16

  /** The most words a launch can push: seventeen attempts of six. */
  const MAX_PUSHES := 6 * (CORE1_LAUNCH_RETRIES + 1)

  /** The first `n` words of an attempt that begins with push `start` all come back. */
  ghost predicate Echoed(words: seq<Word>, echo: nat -> Word, start: nat, n: nat) {
    n <= |words| && forall k: nat :: k < n ==> words[k] == echo(start + k)
  }

  /** How many words of the attempt that begins with push `start` come back, `index` of them known. */
  function Answered(words: seq<Word>, echo: nat -> Word, start: nat, index: nat): (n: nat)
    requires index <= |words|
    ensures Echoed(words, echo, start, index) ==> Echoed(words, echo, start, n)
    ensures index <= n <= |words|
    ensures n < |words| ==> echo(start + n) != words[n]
    decreases |words| - index
  {
    if index == |words| || echo(start + index) != words[index] then index
    else Answered(words, echo, start, index + 1)
  }

  /** The number of the push that begins attempt `a`, if every earlier attempt fails. */
  function AttemptStart(words: seq<Word>, echo: nat -> Word, a: nat): nat {
    if a == 0 then 0
    else
      var before := AttemptStart(words, echo, a - 1);
      before + Answered(words, echo, before, 0) + 1
  }

  predicate Succeeds(words: seq<Word>, echo: nat -> Word, a: nat) {
    Answered(words, echo, AttemptStart(words, echo, a), 0) == |words|
  }

  lemma Stops(words: seq<Word>, echo: nat -> Word, start: nat, n: nat)
    requires Echoed(words, echo, start, n) && (n < |words| ==> echo(start + n) != words[n])
    ensures Answered(words, echo, start, 0) == n
  {
    var m := Answered(words, echo, start, 0);
    if m < n {
      assert false;
    }
  }

  lemma OneMoreEchoed(words: seq<Word>, echo: nat -> Word, start: nat, n: nat)
    requires n < |words| && Echoed(words, echo, start, n) && echo(start + n) == words[n]
    ensures Echoed(words, echo, start, n + 1)
  {}

  /** The first word of attempt `a` that does not come back ends it, and begins the next one. */
  lemma AttemptFails(words: seq<Word>, echo: nat -> Word, a: nat, n: nat)
    requires n < |words| && Echoed(words, echo, AttemptStart(words, echo, a), n)
    requires echo(AttemptStart(words, echo, a) + n) != words[n]
    ensures !Succeeds(words, echo, a)
    ensures AttemptStart(words, echo, a + 1) == AttemptStart(words, echo, a) + n + 1
  {
    hide Answered, Echoed;
    Stops(words, echo, AttemptStart(words, echo, a), n);
  }

  lemma AttemptSucceeds(words: seq<Word>, echo: nat -> Word, a: nat)
    requires Echoed(words, echo, AttemptStart(words, echo, a), |words|)
    ensures Succeeds(words, echo, a)
  {
    hide Answered, Echoed;
    Stops(words, echo, AttemptStart(words, echo, a), |words|);
  }

  /** Where push `p` stands in its attempt: one further than the push before it if that one came back, else at
      the start. */
  function Position(echo: nat -> Word, pushed: seq<Word>, p: nat): nat
    requires p <= |pushed|
  {
    if p == 0 then 0
    else if echo(p - 1) == pushed[p - 1] then Position(echo, pushed, p - 1) + 1
    else 0
  }

  /** Every push is of the word that stands at its position. */
  ghost predicate InSequence(words: seq<Word>, echo: nat -> Word, pushed: seq<Word>) {
    forall p :: 0 <= p < |pushed| ==> Position(echo, pushed, p) < |words| && pushed[p] == words[Position(echo, pushed, p)]
  }

  lemma {:induction false} SamePosition(echo: nat -> Word, pushed: seq<Word>, word: Word, p: nat)
    requires p <= |pushed|
    ensures Position(echo, pushed + [word], p) == Position(echo, pushed, p)
  {
    if p > 0 {
      SamePosition(echo, pushed, word, p - 1);
    }
  }

  lemma NextInSequence(words: seq<Word>, echo: nat -> Word, pushed: seq<Word>, word: Word)
    requires InSequence(words, echo, pushed) && Position(echo, pushed, |pushed|) < |words| && word == words[Position(echo, pushed, |pushed|)]
    ensures InSequence(words, echo, pushed + [word])
    ensures Position(echo, pushed + [word], |pushed| + 1) == if echo(|pushed|) == word then Position(echo, pushed, |pushed|) + 1 else 0
  {
    hide Position;
    var more := pushed + [word];
    forall p | 0 <= p < |more| ensures Position(echo, more, p) < |words| && more[p] == words[Position(echo, more, p)] {
      SamePosition(echo, pushed, word, p);
      assert p < |pushed| ==> more[p] == pushed[p];
    }
    SamePosition(echo, pushed, word, |pushed|);
    LastPosition(echo, more);
  }

  lemma LastPosition(echo: nat -> Word, pushed: seq<Word>)
    requires pushed != []
    ensures var n := |pushed| - 1;
            Position(echo, pushed, n + 1) == if echo(n) == pushed[n] then Position(echo, pushed, n) + 1 else 0
  {}

  /** Every attempt before `a` has failed, and `index` words of attempt `a` have been pushed and come back. */
  ghost predicate Attempting(words: seq<Word>, echo: nat -> Word, a: nat, index: nat, pushed: seq<Word>, drained: set<nat>) {
    var start := AttemptStart(words, echo, a);
    && index <= |words| == 6 && start <= 6 * a
    && |pushed| == start + index && pushed[start..] == words[..index] && Echoed(words, echo, start, index)
    && InSequence(words, echo, pushed) && Position(echo, pushed, |pushed|) == index
    && (forall p: nat :: p in drained <==> p < |pushed| && pushed[p] == 0)
    && (forall b :: 0 <= b < a ==> !Succeeds(words, echo, b))
  }

  lemma FirstAttempt(words: seq<Word>, echo: nat -> Word)
    requires |words| == 6
    ensures Attempting(words, echo, 0, 0, [], {})
  {}

  /** One push: the attempt goes on if the word comes back, otherwise the next one begins. */
  lemma OnePush(words: seq<Word>, echo: nat -> Word, a: nat, index: nat, pushed: seq<Word>, drained: set<nat>)
    requires Attempting(words, echo, a, index, pushed, drained) && index < |words|
    ensures var word := words[index];
            var drained' := if word == 0 then drained + {|pushed|} else drained;
            if echo(|pushed|) == word then Attempting(words, echo, a, index + 1, pushed + [word], drained')
            else Attempting(words, echo, a + 1, 0, pushed + [word], drained')
  {
    hide Answered, AttemptStart, Succeeds, Echoed, InSequence, Position;
    var start, word := AttemptStart(words, echo, a), words[index];
    assert (pushed + [word])[start..] == pushed[start..] + [word] == words[..index + 1];
    NextInSequence(words, echo, pushed, word);
    if echo(|pushed|) == word {
      OneMoreEchoed(words, echo, start, index);
    } else {
      AttemptFails(words, echo, a, index);
      NothingEchoed(words, echo, start + index + 1);
    }
  }

  lemma NothingEchoed(words: seq<Word>, echo: nat -> Word, start: nat)
    ensures Echoed(words, echo, start, 0)
  {}

  lemma LastPush(words: seq<Word>, echo: nat -> Word, a: nat, pushed: seq<Word>, drained: set<nat>)
    requires Attempting(words, echo, a, |words|, pushed, drained) && a <= CORE1_LAUNCH_RETRIES
    ensures Succeeds(words, echo, a) && 6 <= |pushed| <= MAX_PUSHES
    ensures pushed[|pushed| - 6..] == words && forall k :: |pushed| - 6 <= k < |pushed| ==> pushed[k] == echo(k)
    ensures forall p: nat :: p in drained <==> p < |pushed| && pushed[p] == 0
    ensures InSequence(words, echo, pushed)
  {
    hide Answered, AttemptStart, Succeeds, InSequence;
    AttemptSucceeds(words, echo, a);
    assert words[..6] == words;
    var start := |pushed| - 6;
    forall k | start <= k < |pushed| ensures pushed[k] == echo(k) {
      assert pushed[k] == pushed[start..][k - start] && words[k - start] == echo(start + (k - start));
    }
  }

  lemma GivenUp(words: seq<Word>, echo: nat -> Word, pushed: seq<Word>, drained: set<nat>)
    requires Attempting(words, echo, CORE1_LAUNCH_RETRIES + 1, 0, pushed, drained)
    ensures |pushed| == AttemptStart(words, echo, CORE1_LAUNCH_RETRIES + 1) <= MAX_PUSHES
    ensures !exists a :: 0 <= a <= CORE1_LAUNCH_RETRIES && Succeeds(words, echo, a)
    ensures forall p: nat :: p in drained <==> p < |pushed| && pushed[p] == 0
    ensures InSequence(words, echo, pushed)
  {
    hide Answered, AttemptStart, Succeeds, Echoed;
  }

  /** `launch_core1`, where `echo(p)` is the word that the boot ROM answers to push `p`. It gives up
      exactly when none of the first seventeen attempts is answered in full, and the last six words it
      pushed before it succeeds are the sequence, answered in order. Every word it ever pushes is the one that
      stands at its position in its attempt. The FIFO is drained, and its errors
      cleared, before exactly those pushes whose word is zero, the first of every attempt among them. */
  method LaunchCore1(vectorTable: Word, stackTop: Word, entry: Word, echo: nat -> Word)
    returns (ok: bool, pushed: seq<Word>, drained: set<nat>)
    ensures ok <==> exists a :: 0 <= a <= CORE1_LAUNCH_RETRIES && Succeeds([0, 0, 1, vectorTable, stackTop, entry], echo, a)
    ensures |pushed| <= MAX_PUSHES
    ensures forall p: nat :: p in drained <==> p < |pushed| && pushed[p] == 0
    ensures ok ==>
      var p := |pushed| - 6;
      && p >= 0 && pushed[p..] == [0, 0, 1, vectorTable, stackTop, entry]
      && forall k :: p <= k < p + 6 ==> pushed[k] == echo(k)
    ensures forall p :: 0 <= p < |pushed| ==>
              && Position(echo, pushed, p) < 6
              && pushed[p] == [0, 0, 1, vectorTable, stackTop, entry][Position(echo, pushed, p)]
    ensures !ok ==> |pushed| == AttemptStart([0, 0, 1, vectorTable, stackTop, entry], echo, CORE1_LAUNCH_RETRIES + 1)
  {
    hide AttemptStart, Succeeds, Echoed, Attempting, Position;
    var words := [0, 0, 1, vectorTable, stackTop, entry];
    var index := 0;
    var failures := 0;
    pushed, drained := [], {};
    FirstAttempt(words, echo);
    while index < |words|
      invariant 0 <= index <= |words| && 0 <= failures <= CORE1_LAUNCH_RETRIES
      invariant Attempting(words, echo, failures, index, pushed, drained)
      decreases CORE1_LAUNCH_RETRIES - failures, |words| - index
    {
      OnePush(words, echo, failures, index, pushed, drained);
      var word := words[index];
      if word == 0 {
        drained := drained + {|pushed|};
      }
      pushed := pushed + [word];
      if echo(|pushed| - 1) == word {
        index := index + 1;
      } else {
        index := 0;
        failures := if failures < 0xFF then failures + 1 else 0xFF;
        if failures > CORE1_LAUNCH_RETRIES {
          GivenUp(words, echo, pushed, drained);
          return false, pushed, drained;
        }
      }
    }
    LastPush(words, echo, failures, pushed, drained);
    ok := true;
  }

  /** An echo that gets every word of an attempt right but the last. */
  function LateFault(words: seq<Word>): nat -> Word
    requires |words| == 6
  {
    p => if p % 6 == 5 then words[5] ^ 1 else words[p % 6]
  }

  /** The bound of 102 pushes is reached, by a boot ROM that answers the last word wrong every time. */
  lemma {:induction false} LaunchBoundIsTight(words: seq<Word>, a: nat)
    requires |words| == 6
    ensures AttemptStart(words, LateFault(words), a) == 6 * a && !Succeeds(words, LateFault(words), a)
  {
    hide Answered, LateFault;
    FailsLate(words, a);
    if a > 0 {
      LaunchBoundIsTight(words, a - 1);
      FailsLate(words, a - 1);
    }
  }

  lemma FailsLate(words: seq<Word>, a: nat)
    requires |words| == 6
    ensures Answered(words, LateFault(words), 6 * a, 0) == 5
  {
    hide Answered, LateFault;
    var echo := LateFault(words);
    forall k: nat | k < 5 ensures words[k] == echo(6 * a + k) {
      LateEcho(words, a, k);
    }
    LateEcho(words, a, 5);
    Stops(words, echo, 6 * a, 5);
  }

  lemma LateEcho(words: seq<Word>, a: nat, k: nat)
    requires |words| == 6 && k < 6
    ensures LateFault(words)(6 * a + k) == words[k] <==> k < 5
  {
    Remainder(a, k);
    Flipped(words[5]);
  }

  lemma Remainder(a: nat, k: nat)
    requires k < 6
    ensures (6 * a + k) % 6 == k
  {}

  lemma Flipped(w: Word)
    ensures w ^ 1 != w
  {}
}
