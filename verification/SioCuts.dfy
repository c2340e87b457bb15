/** What a send cancelled in the middle of a frame does to the stream of words. */
module SioCuts {
  import opened Wire
  import opened SioCodec

  // ---------------------------------------------------------------- cut after the header

  /** The first `n` bytes of a word list, four to a word. */
  function BytesOf(ws: seq<Word>, n: nat): seq<Byte>
    requires n <= 4 * |ws|
  {
    seq(n, i requires 0 <= i < n => ByteOf(ws[i / 4], i % 4))
  }

  /** Once the header is out the receiver completes the frame from whatever words come next: it hands over
      the cut frame's header with those words for the missing payload. */
  lemma CutFrameIsCorrupted(a: Frame, k: nat, more: seq<Word>)
    requires Legal(a) && HEADER_WORDS <= k < |Words(a)| == k + |more|
    ensures var cut := 4 * (k - HEADER_WORDS);
            && cut < |a.payload| <= cut + 4 * |more|
            && Feed([], Words(a)[..k] + more)
               == ([], Silence(|Words(a)| - 1) + [Complete(a.(payload := a.payload[..cut] + BytesOf(more, |a.payload| - cut)))])
  {
    hide ByteOf, DecodeMeta, WordAt, Push, Join, DecodeWords, BytesOf, Words, Expected, GoodMeta, Legal;
    var ws := Words(a)[..k] + more;
    CutShape(a, k, more);
    CutPayload(a, k, more);
    FeedWhole(ws, 0);
    assert ws[..0] == [] && ws[0..] == ws;
  }

  lemma CutShape(a: Frame, k: nat, more: seq<Word>)
    requires Legal(a) && HEADER_WORDS <= k < |Words(a)| == k + |more|
    ensures var ws := Words(a)[..k] + more;
            && |ws| == Expected(ws) == |Words(a)| && ws[0] == FRAME_MAGIC && GoodMeta(ws[2])
            && ws[1] == a.session && ByteOf(ws[3], 0) == a.lane
            && DecodeMeta(ws[2]) == Meta(a.sender, a.peer, a.frameLabel, |a.payload|)
    ensures 4 * (k - HEADER_WORDS) < |a.payload| <= 4 * (k - HEADER_WORDS) + 4 * |more|
  {
    hide ByteOf, DecodeMeta, WordAt, Join;
    WordsHeader(a);
    var ws := Words(a)[..k] + more;
    assert ws[0] == Words(a)[0] && ws[1] == Words(a)[1] && ws[2] == Words(a)[2] && ws[3] == Words(a)[3];
  }

  lemma CutPayload(a: Frame, k: nat, more: seq<Word>)
    requires Legal(a) && HEADER_WORDS <= k < |Words(a)| == k + |more|
    requires var ws := Words(a)[..k] + more; |ws| == Expected(ws) && GoodMeta(ws[2])
    requires 4 * (k - HEADER_WORDS) < |a.payload| <= 4 * (k - HEADER_WORDS) + 4 * |more|
    ensures DecodeWords(Words(a)[..k] + more)
         == a.(payload := a.payload[..4 * (k - HEADER_WORDS)] + BytesOf(more, |a.payload| - 4 * (k - HEADER_WORDS)))
  {
    hide ByteOf, DecodeMeta, Words, Expected, GoodMeta, Legal;
    CutShape(a, k, more);
    var cut := 4 * (k - HEADER_WORDS);
    var g := DecodeWords(Words(a)[..k] + more);
    var payload := a.payload[..cut] + BytesOf(more, |a.payload| - cut);
    forall i: nat | i < |a.payload| ensures g.payload[i] == payload[i] {
      CutByte(a, k, more, i);
    }
    assert g.payload == payload;
  }

  lemma CutByte(a: Frame, k: nat, more: seq<Word>, i: nat)
    requires Legal(a) && HEADER_WORDS <= k < |Words(a)| == k + |more| && i < |a.payload|
    ensures var cut := 4 * (k - HEADER_WORDS);
            ByteOf((Words(a)[..k] + more)[HEADER_WORDS + i / 4], i % 4)
            == if i < cut then a.payload[i] else ByteOf(more[(i - cut) / 4], (i - cut) % 4)
  {
    hide ByteOf, WordAt;
    var cut := 4 * (k - HEADER_WORDS);
    if i < cut {
      PayloadRoundTrip(a, i);
    }
  }

  /** Words that begin like a frame and have its length complete it, after silence. */
  lemma {:induction false} FeedWhole(ws: seq<Word>, n: nat)
    requires |ws| >= HEADER_WORDS && |ws| == Expected(ws) && ws[0] == FRAME_MAGIC && GoodMeta(ws[2]) && n < |ws|
    ensures Accumulating(ws[..n])
    ensures Feed(ws[..n], ws[n..]) == ([], Silence(|ws| - n - 1) + [Complete(DecodeWords(ws))])
    decreases |ws| - n
  {
    hide DecodeMeta, DecodeWords, Push, Silence, Expected;
    PushWhole(ws, n);
    assert ws[n..][1..] == ws[n + 1..];
    if n + 1 < |ws| {
      FeedWhole(ws, n + 1);
      SilenceStep(|ws| - n - 2, [Complete(DecodeWords(ws))]);
    } else {
      assert ws[n + 1..] == [] && Feed([], []) == ([], []);
      SilenceStep(0, [Complete(DecodeWords(ws))]);
      assert [Complete(DecodeWords(ws))] + [] == [Complete(DecodeWords(ws))];
    }
  }

  lemma PushWhole(ws: seq<Word>, n: nat)
    requires |ws| >= HEADER_WORDS && |ws| == Expected(ws) && ws[0] == FRAME_MAGIC && GoodMeta(ws[2]) && n < |ws|
    ensures Accumulating(ws[..n])
    ensures Push(ws[..n], ws[n]) == if n + 1 < |ws| then (ws[..n + 1], Incomplete) else ([], Complete(DecodeWords(ws)))
  {
    hide DecodeMeta, DecodeWords;
    assert ws[..n] + [ws[n]] == ws[..n + 1];
    if n + 1 == |ws| {
      assert ws[..n + 1] == ws;
    }
  }

  // ---------------------------------------------------------------- cut inside the header

  /** With one to three words out, the next frame's words complete the header. The header is rejected if and only if
      a single word was out and the next frame's session, then read as the meta word, is no good one. */
  lemma CutHeader(a: Frame, b: Frame, k: nat)
    requires Legal(a) && Legal(b) && 0 < k < HEADER_WORDS
    ensures var answers := Feed([], Words(a)[..k] + Words(b)[..HEADER_WORDS - k]).1;
            && |answers| == HEADER_WORDS && answers[..3] == Silence(3)
            && (answers[3].Rejected? <==> k == 1 && !GoodMeta(b.session))
  {
    hide ByteOf, DecodeMeta, DecodeWords;
    WordsHeader(a);
    WordsHeader(b);
    MagicIsGoodMeta();
    var ws := Words(a)[..k] + Words(b)[..HEADER_WORDS - k];
    assert ws[0] == FRAME_MAGIC;
    assert ws[2] == if k == 1 then b.session else if k == 2 then FRAME_MAGIC else Words(a)[2];
    FeedHeader(ws);
  }

  lemma FeedHeader(ws: seq<Word>)
    requires |ws| == HEADER_WORDS && ws[0] == FRAME_MAGIC
    ensures var answers := Feed([], ws).1;
            |answers| == HEADER_WORDS && answers[..3] == Silence(3) && (answers[3].Rejected? <==> !GoodMeta(ws[2]))
  {
    hide GoodMeta, DecodeMeta, DecodeWords;
    assert ws[1..][1..] == ws[2..] && ws[2..][1..] == ws[3..] && ws[3..][1..] == [];
    assert [] + [ws[0]] == ws[..1] && ws[..1] + [ws[1]] == ws[..2] && ws[..2] + [ws[2]] == ws[..3] && ws[..3] + [ws[3]] == ws;
    FourthWord(ws);
    var (n4, a4) := Push(ws[..3], ws[3]);
    assert Feed(n4, []) == (n4, []);
    assert Feed(ws[..3], ws[3..]).1 == [a4] + [];
    assert Push(ws[..2], ws[2]) == (ws[..3], Incomplete) && ws[2..][0] == ws[2];
    assert Feed(ws[..2], ws[2..]).1 == [Incomplete] + ([a4] + []);
    assert Push(ws[..1], ws[1]) == (ws[..2], Incomplete) && ws[1..][0] == ws[1];
    assert Feed(ws[..1], ws[1..]).1 == [Incomplete] + ([Incomplete] + ([a4] + []));
  }

  lemma FourthWord(ws: seq<Word>)
    requires |ws| == HEADER_WORDS && ws[0] == FRAME_MAGIC
    ensures Push(ws[..3], ws[3]).1.Rejected? <==> !GoodMeta(ws[2])
  {
    hide DecodeMeta, DecodeWords;
    assert ws[..3] + [ws[3]] == ws;
  }

  lemma MagicIsGoodMeta()
    ensures GoodMeta(FRAME_MAGIC)
  {
    assert ByteOf(FRAME_MAGIC, 0) == 0x01 && ByteOf(FRAME_MAGIC, 1) == 0x53 && ByteOf(FRAME_MAGIC, 2) == 0x49;
  }

  // ---------------------------------------------------------------- when a cut is harmless

  /** Exactly when a send may be cancelled: after `k` words of `a` the receiver takes the next frame `b`
      as it was sent, and nothing else, if and only if none of `a`'s words were out. */
  lemma CutIsHarmlessOnlyAtStart(a: Frame, b: Frame, k: nat)
    requires Legal(a) && Legal(b) && k < |Words(a)|
    ensures Feed([], Words(a)[..k] + Words(b)) == ([], Silence(k + |Words(b)| - 1) + [Complete(b)]) <==> k == 0
  {
    hide Words, Push, Silence;
    var ws := Words(a)[..k] + Words(b);
    if k == 0 {
      FeedRestOfFrame(b, 0, []);
      assert Words(b)[..0] == [] && Words(b)[0..] + Flatten([]) == ws;
      assert [Complete(b)] + Answers([]) == [Complete(b)];
    } else if Feed([], ws) == ([], Silence(k + |Words(b)| - 1) + [Complete(b)]) {
      SilentFrameIsWhole([], ws, b);
    }
  }

  /** A frame completed after silence alone is made of all the words fed. */
  lemma {:induction false} SilentFrameIsWhole(acc: seq<Word>, ws: seq<Word>, f: Frame)
    requires Accumulating(acc) && ws != [] && Feed(acc, ws).1 == Silence(|ws| - 1) + [Complete(f)]
    ensures TotalWords(f) == |acc| + |ws|
    decreases |ws|
  {
    hide Push, Accumulating, TotalWords;
    var (next, answer) := Push(acc, ws[0]);
    var answers := Feed(next, ws[1..]).1;
    assert Feed(acc, ws).1 == [answer] + answers;
    if |ws| == 1 {
      assert Silence(0) + [Complete(f)] == [Complete(f)];
      assert ([answer] + answers)[0] == Complete(f);
      CompletedLength(acc, ws[0], f);
    } else {
      assert answer == (Silence(|ws| - 1) + [Complete(f)])[0] == Incomplete;
      KeptWord(acc, ws[0]);
      assert answers == ([answer] + answers)[1..] == Silence(|ws| - 2) + [Complete(f)];
      SilentFrameIsWhole(next, ws[1..], f);
    }
  }

  lemma CompletedLength(acc: seq<Word>, word: Word, f: Frame)
    requires Accumulating(acc) && Push(acc, word).1 == Complete(f)
    ensures TotalWords(f) == |acc| + 1
  {
    hide ByteOf;
    if |acc| >= HEADER_WORDS {
      assert (acc + [word])[2] == acc[2];
    }
  }

  lemma KeptWord(acc: seq<Word>, word: Word)
    requires Accumulating(acc) && Push(acc, word).1 == Incomplete
    ensures |Push(acc, word).0| == |acc| + 1
  {}
}
