/** What a receiver makes of an arbitrary stream of words, and of the words of two senders of one core mixed. */
module SioMixes {
  import opened Wire
  import opened SioCodec
  import opened SioCuts

  // ---------------------------------------------------------------- which words are taken for which frames

  /** The word is word `i` of the frame, up to the bits a decoder ignores: the lane's upper bytes and the
      padding of the payload. */
  predicate Reads(f: Frame, i: nat, word: Word)
    requires Legal(f)
  {
    if i < 3 then word == WordAt(f, i)
    else if i == 3 then ByteOf(word, 0) == f.lane
    else forall k :: 0 <= k < 4 && 4 * (i - HEADER_WORDS) + k < |f.payload| ==> ByteOf(word, k) == f.payload[4 * (i - HEADER_WORDS) + k]
  }

  /** The words are those of the frame from word `k` on. */
  predicate ReadsFrom(f: Frame, k: nat, ws: seq<Word>)
    requires Legal(f)
  {
    k + |ws| == |Words(f)| && forall i :: 0 <= i < |ws| ==> Reads(f, k + i, ws[i])
  }

  predicate Spells(f: Frame, ws: seq<Word>)
    requires Legal(f)
  {
    ReadsFrom(f, 0, ws)
  }

  /** The words are those of the frames, one after the other. */
  ghost predicate SpellsAll(fs: seq<Frame>, ws: seq<Word>)
    requires AllLegal(fs)
  {
    if fs == [] then ws == []
    else
      var n := |Words(fs[0])|;
      n <= |ws| && Spells(fs[0], ws[..n]) && SpellsAll(fs[1..], ws[n..])
  }

  /** A complete word list decodes to a frame exactly when it spells it. */
  lemma SpellsIsDecode(f: Frame, ws: seq<Word>)
    requires Legal(f)
    ensures Spells(f, ws) <==> Whole(ws) && DecodeWords(ws) == f
  {
    hide Spells, DecodeWords, Expected, GoodMeta;
    if Spells(f, ws) {
      SpelledDecodes(f, ws);
    }
    if Whole(ws) && DecodeWords(ws) == f {
      DecodedSpells(f, ws);
    }
  }

  lemma SpelledDecodes(f: Frame, ws: seq<Word>)
    requires Legal(f) && Spells(f, ws)
    ensures Whole(ws) && DecodeWords(ws) == f
  {
    hide ByteOf, DecodeMeta, Spells, GoodMeta;
    SpelledHeader(f, ws);
    var g := DecodeWords(ws);
    forall i: nat | i < |f.payload| ensures g.payload[i] == f.payload[i] {
      SpelledByte(f, ws, i);
    }
    assert g.payload == f.payload;
  }

  lemma SpelledHeader(f: Frame, ws: seq<Word>)
    requires Legal(f) && Spells(f, ws)
    ensures Whole(ws) && DecodeMeta(ws[2]) == Meta(f.sender, f.peer, f.frameLabel, |f.payload|)
    ensures ws[1] == f.session && ByteOf(ws[3], 0) == f.lane
  {
    hide Join, ByteOf, DecodeMeta, WordAt, GoodMeta;
    WordsHeader(f);
    assert Reads(f, 0 + 0, ws[0]) && Reads(f, 0 + 1, ws[1]) && Reads(f, 0 + 2, ws[2]) && Reads(f, 0 + 3, ws[3]);
    LegalMeta(f, ws[2]);
  }

  lemma LegalMeta(f: Frame, word: Word)
    requires Legal(f) && DecodeMeta(word) == Meta(f.sender, f.peer, f.frameLabel, |f.payload|)
    ensures GoodMeta(word)
  {
    hide DecodeMeta;
  }

  lemma SpelledByte(f: Frame, ws: seq<Word>, i: nat)
    requires Legal(f) && Spells(f, ws) && i < |f.payload|
    ensures HEADER_WORDS + i / 4 < |ws| && ByteOf(ws[HEADER_WORDS + i / 4], i % 4) == f.payload[i]
  {
    hide ByteOf, WordAt;
    var n, k := HEADER_WORDS + i / 4, i % 4;
    assert n < |ws| && 4 * (n - HEADER_WORDS) + k == i;
    assert Reads(f, 0 + n, ws[n]);
  }

  lemma DecodedSpells(f: Frame, ws: seq<Word>)
    requires Legal(f) && Whole(ws) && DecodeWords(ws) == f
    ensures Spells(f, ws)
  {
    hide Join, ByteOf, DecodeMeta, EncodeMeta, PackedWord, Reads;
    MetaReencodes(ws[2]);
    forall i | 0 <= i < |ws| ensures Reads(f, i, ws[i]) {
      DecodedReads(f, ws, i);
    }
  }

  /** As many words as their own header announces, with a header the accumulator accepts. */
  predicate Whole(ws: seq<Word>) {
    |ws| >= HEADER_WORDS && |ws| == Expected(ws) && ws[0] == FRAME_MAGIC && GoodMeta(ws[2])
  }

  lemma DecodedReads(f: Frame, ws: seq<Word>, i: nat)
    requires Legal(f) && Whole(ws) && DecodeWords(ws) == f && i < |ws|
    ensures Reads(f, i, ws[i])
  {
    hide Join, ByteOf, DecodeMeta, EncodeMeta, PackedWord;
    MetaReencodes(ws[2]);
    if i >= HEADER_WORDS {
      forall k | 0 <= k < 4 && 4 * (i - HEADER_WORDS) + k < |f.payload|
        ensures ByteOf(ws[i], k) == f.payload[4 * (i - HEADER_WORDS) + k]
      {
        var j := 4 * (i - HEADER_WORDS) + k;
        assert j / 4 == i - HEADER_WORDS && j % 4 == k;
      }
    }
  }

  // ---------------------------------------------------------------- what an accumulator answers

  lemma {:induction false} FeedAppend(acc: seq<Word>, xs: seq<Word>, ys: seq<Word>)
    requires Accumulating(acc)
    ensures var (mid, answers) := Feed(acc, xs);
            && Accumulating(mid) && Feed(acc, xs + ys) == (Feed(mid, ys).0, answers + Feed(mid, ys).1)
    decreases |xs|
  {
    hide Push, Accumulating;
    if xs == [] {
      assert xs + ys == ys && [] + Feed(acc, ys).1 == Feed(acc, ys).1;
    } else {
      var (next, answer) := Push(acc, xs[0]);
      assert (xs + ys)[0] == xs[0] && (xs + ys)[1..] == xs[1..] + ys;
      FeedAppend(next, xs[1..], ys);
      var (mid, answers) := Feed(next, xs[1..]);
      assert [answer] + (answers + Feed(mid, ys).1) == ([answer] + answers) + Feed(mid, ys).1;
    }
  }

  /** The first frame answered is made of the words accumulated and those fed up to then. */
  lemma {:induction false} FirstFrame(acc: seq<Word>, ws: seq<Word>, n: nat, f: Frame, tail: seq<PushResult>)
    requires Accumulating(acc) && Feed(acc, ws).1 == Silence(n) + ([Complete(f)] + tail)
    ensures |ws| > n && Whole(acc + ws[..n + 1]) && DecodeWords(acc + ws[..n + 1]) == f
    ensures Feed([], ws[n + 1..]) == (Feed(acc, ws).0, tail)
    decreases n
  {
    hide Push, Accumulating, Whole, DecodeWords;
    assert ws != [];
    var (next, answer) := Push(acc, ws[0]);
    var answers := Feed(next, ws[1..]).1;
    assert Feed(acc, ws).1 == [answer] + answers;
    var expected := Silence(n) + ([Complete(f)] + tail);
    assert answer == expected[0] && answers == expected[1..];
    if n == 0 {
      assert expected == [Complete(f)] + tail;
      assert acc + ws[..1] == acc + [ws[0]];
      CompletedWords(acc, ws[0], f);
    } else {
      assert answer == Incomplete && answers == Silence(n - 1) + ([Complete(f)] + tail);
      KeptWords(acc, ws[0]);
      FirstFrame(next, ws[1..], n - 1, f, tail);
      assert next + ws[1..][..n] == acc + ws[..n + 1] && ws[1..][n..] == ws[n + 1..];
    }
  }

  lemma CompletedWords(acc: seq<Word>, word: Word, f: Frame)
    requires Accumulating(acc) && Push(acc, word).1 == Complete(f)
    ensures Whole(acc + [word]) && DecodeWords(acc + [word]) == f && Push(acc, word).0 == []
  {
    hide ByteOf;
    if |acc| >= HEADER_WORDS {
      assert (acc + [word])[2] == acc[2];
    }
  }

  lemma KeptWords(acc: seq<Word>, word: Word)
    requires Accumulating(acc) && Push(acc, word).1 == Incomplete
    ensures Push(acc, word).0 == acc + [word]
  {}

  lemma {:induction false} HeardSpells(fs: seq<Frame>, ws: seq<Word>)
    requires AllLegal(fs) && Feed([], ws) == ([], Answers(fs))
    ensures SpellsAll(fs, ws)
    decreases |fs|
  {
    hide Push, Words, Spells, Silence, TotalWords, DecodeWords, Whole;
    if fs != [] {
      var f, rest := fs[0], fs[1..];
      var n := |Words(f)|;
      assert n > 0 && n == TotalWords(f);
      FirstFrame([], ws, n - 1, f, Answers(rest));
      assert [] + ws[..n] == ws[..n];
      SpellsIsDecode(f, ws[..n]);
      HeardSpells(rest, ws[n..]);
    }
  }

  lemma {:induction false} SpelledIsHeard(fs: seq<Frame>, ws: seq<Word>)
    requires AllLegal(fs) && SpellsAll(fs, ws)
    ensures Feed([], ws) == ([], Answers(fs))
    decreases |fs|
  {
    hide Push, Words, Spells, Silence, TotalWords, DecodeWords, Whole;
    if fs != [] {
      var f, rest := fs[0], fs[1..];
      var n := |Words(f)|;
      assert n > 0 && n == TotalWords(f);
      SpellsIsDecode(f, ws[..n]);
      SpelledIsHeard(rest, ws[n..]);
      FeedSpelled(f, ws[..n]);
      FeedAppend([], ws[..n], ws[n..]);
      assert ws[..n] + ws[n..] == ws;
      assert (Silence(n - 1) + [Complete(f)]) + Answers(rest) == Silence(n - 1) + ([Complete(f)] + Answers(rest));
    }
  }

  /** Any stream of words at all is heard as exactly these frames, and nothing else, if and only if it
      spells them. */
  lemma HeardExactly(fs: seq<Frame>, ws: seq<Word>)
    requires AllLegal(fs)
    ensures Feed([], ws) == ([], Answers(fs)) <==> SpellsAll(fs, ws)
  {
    hide Feed, Answers, SpellsAll;
    if SpellsAll(fs, ws) {
      SpelledIsHeard(fs, ws);
    }
    if Feed([], ws) == ([], Answers(fs)) {
      HeardSpells(fs, ws);
    }
  }

  lemma FeedSpelled(f: Frame, ws: seq<Word>)
    requires Legal(f) && Whole(ws) && DecodeWords(ws) == f
    ensures Feed([], ws) == ([], Silence(|ws| - 1) + [Complete(f)])
  {
    hide DecodeWords, Feed, Silence, Expected, GoodMeta;
    FeedWhole(ws, 0);
    assert ws[..0] == [] && ws[0..] == ws;
  }

  // ---------------------------------------------------------------- two senders of one core

  /** The words on the wire when `b` is sent whole after `k` words of `a`, and then the rest of `a`. */
  function Mixed(a: Frame, b: Frame, k: nat): seq<Word>
    requires Legal(a) && Legal(b) && k <= |Words(a)|
  {
    Words(a)[..k] + Words(b) + Words(a)[k..]
  }

  /** From word `k` on, `b` followed by the rest of `a` reads like the rest of `a` followed by `b`. */
  predicate Commutes(a: Frame, b: Frame, k: nat)
    requires Legal(a) && Legal(b) && k <= |Words(a)|
  {
    var ws, rest := Words(b) + Words(a)[k..], |Words(a)| - k;
    ReadsFrom(a, k, ws[..rest]) && Spells(b, ws[rest..])
  }

  lemma OwnWords(f: Frame, k: nat)
    requires Legal(f) && k <= |Words(f)|
    ensures ReadsFrom(f, k, Words(f)[k..])
  {
    hide DecodeWords, Reads, Words;
    WordsRoundTrip(f);
    WordsHeader(f);
    SpellsIsDecode(f, Words(f));
    forall i | 0 <= i < |Words(f)| - k ensures Reads(f, k + i, Words(f)[k..][i]) {
      assert Reads(f, 0 + (k + i), Words(f)[k + i]);
    }
  }

  lemma EqualWordsCommute(a: Frame, b: Frame, k: nat)
    requires Legal(a) && Legal(b) && k <= |Words(a)|
    requires Words(b) + Words(a)[k..] == Words(a)[k..] + Words(b)
    ensures Commutes(a, b, k)
  {
    hide Words, ReadsFrom;
    OwnWords(a, k);
    OwnWords(b, 0);
    var ws, rest := Words(b) + Words(a)[k..], |Words(a)| - k;
    assert ws[..rest] == Words(a)[k..] && ws[rest..] == Words(b) == Words(b)[0..];
  }

  /** Words known to be the frame's own need no check. */
  lemma SpellsSplit(f: Frame, k: nat, ws: seq<Word>)
    requires Legal(f) && k <= |Words(f)|
    ensures Spells(f, Words(f)[..k] + ws) <==> ReadsFrom(f, k, ws)
  {
    hide Words, Reads;
    OwnWords(f, 0);
    assert Words(f)[0..] == Words(f);
    var all := Words(f)[..k] + ws;
    if ReadsFrom(f, k, ws) {
      forall i | 0 <= i < |all| ensures Reads(f, i, all[i]) {
        if i < k {
          assert Reads(f, 0 + i, Words(f)[0..][i]);
        } else {
          assert Reads(f, k + (i - k), ws[i - k]);
        }
      }
    }
    if Spells(f, all) {
      forall i | 0 <= i < |ws| ensures Reads(f, k + i, ws[i]) {
        assert Reads(f, 0 + (k + i), all[k + i]);
      }
    }
  }

  lemma TwoFrames(a: Frame, b: Frame, ws: seq<Word>)
    requires Legal(a) && Legal(b) && |ws| == |Words(a)| + |Words(b)|
    ensures SpellsAll([a, b], ws) <==> Spells(a, ws[..|Words(a)|]) && Spells(b, ws[|Words(a)|..])
  {
    hide Words, Spells;
    assert [a, b][1..] == [b] && [b][1..] == [];
    var rest := ws[|Words(a)|..];
    assert rest[..|Words(b)|] == rest && rest[|Words(b)|..] == [];
    assert SpellsAll([], []);
    assert SpellsAll([b], rest) <==> Spells(b, rest);
  }

  /** When a second sender does no harm. The receiver hears both frames as they were sent, `a` first, if and
      only if `b` commutes with the rest of `a`; it hears `b` first if and only if the mixed words spell that,
      and never once the meta word of `a` is out, the senders being different roles. */
  lemma SecondSenderIsHarmless(a: Frame, b: Frame, k: nat)
    requires Legal(a) && Legal(b) && k <= |Words(a)|
    ensures Feed([], Mixed(a, b, k)) == ([], Answers([a, b])) <==> Commutes(a, b, k)
    ensures var n := |Words(b)|;
            Feed([], Mixed(a, b, k)) == ([], Answers([b, a])) <==> Spells(b, Mixed(a, b, k)[..n]) && Spells(a, Mixed(a, b, k)[n..])
    ensures k >= 3 && a.sender != b.sender ==> Feed([], Mixed(a, b, k)) != ([], Answers([b, a]))
  {
    hide Words, Spells, ReadsFrom, SpellsAll, Feed, Answers;
    var mixed, tail, rest := Mixed(a, b, k), Words(b) + Words(a)[k..], |Words(a)| - k;
    HeardExactly([a, b], mixed);
    TwoFrames(a, b, mixed);
    assert mixed[..|Words(a)|] == Words(a)[..k] + tail[..rest] && mixed[|Words(a)|..] == tail[rest..];
    SpellsSplit(a, k, tail[..rest]);
    HeardExactly([b, a], mixed);
    TwoFrames(b, a, mixed);
    if k >= 3 && a.sender != b.sender {
      assert mixed[..|Words(b)|][2] == Words(a)[2];
      MetaDecides(a, b, mixed[..|Words(b)|]);
    }
  }

  lemma MetaDecides(a: Frame, b: Frame, ws: seq<Word>)
    requires Legal(a) && Legal(b) && |ws| == |Words(b)| && ws[2] == Words(a)[2] && a.sender != b.sender
    ensures !Spells(b, ws)
  {
    hide Words, DecodeMeta, DecodeWords;
    WordsHeader(a);
    SpellsIsDecode(b, ws);
    if Whole(ws) {
      DecodedSender(ws);
    }
  }

  lemma DecodedSender(ws: seq<Word>)
    requires Whole(ws)
    ensures DecodeWords(ws).sender == DecodeMeta(ws[2]).sender
  {}

  /** A harmless mix: an empty frame sent after the header of a frame whose payload is that frame's words. */
  lemma SomeMixesAreHarmless(a: Frame, b: Frame)
    requires Legal(a) && Legal(b) && b.payload == [] && a.payload == BytesOf(Words(b), 16)
    ensures Feed([], Mixed(a, b, HEADER_WORDS)) == ([], Answers([a, b]))
  {
    hide Words, Feed, Answers, Commutes;
    EchoedWords(a, b);
    EqualWordsCommute(a, b, HEADER_WORDS);
    SecondSenderIsHarmless(a, b, HEADER_WORDS);
  }

  lemma EchoedWords(a: Frame, b: Frame)
    requires Legal(a) && Legal(b) && b.payload == [] && a.payload == BytesOf(Words(b), 16)
    ensures |Words(b)| == HEADER_WORDS && Words(a)[HEADER_WORDS..] == Words(b)
  {
    hide PackedWord, BytesOf, WordAt, EncodeMeta;
    RepackedByte(Words(b), 0, 0);
    var ws := Words(a)[HEADER_WORDS..];
    forall i | 0 <= i < 4 ensures ws[i] == Words(b)[i] {
      assert ws[i] == PackedWord(a.payload, i * 4) by {
        assert Words(a)[HEADER_WORDS + i] == WordAt(a, HEADER_WORDS + i);
        PayloadWord(a, HEADER_WORDS + i);
      }
      RepackedWord(Words(b), i);
    }
  }

  lemma PayloadWord(f: Frame, i: nat)
    requires Legal(f) && HEADER_WORDS <= i
    ensures WordAt(f, i) == PackedWord(f.payload, (i - HEADER_WORDS) * 4)
  {}

  lemma RepackedWord(ws: seq<Word>, i: nat)
    requires |ws| == 4 && i < 4
    ensures PackedWord(BytesOf(ws, 16), i * 4) == ws[i]
  {
    hide Join, ByteOf, BytesOf;
    JoinOfBytes(ws[i]);
    RepackedByte(ws, i, 0);
    RepackedByte(ws, i, 1);
    RepackedByte(ws, i, 2);
    RepackedByte(ws, i, 3);
  }

  lemma RepackedByte(ws: seq<Word>, i: nat, k: nat)
    requires |ws| == 4 && i < 4 && k < 4
    ensures |BytesOf(ws, 16)| == 16 && BytesOf(ws, 16)[i * 4 + k] == ByteOf(ws[i], k)
  {
    hide ByteOf;
    assert (i * 4 + k) / 4 == i && (i * 4 + k) % 4 == k;
  }

  /** A harmful one: a frame of the other sender before the last word of a four-byte payload that is not the
      magic word. The receiver takes the magic word for the payload. */
  lemma SecondSenderSpoilsFrame(a: Frame, b: Frame)
    requires Legal(a) && Legal(b) && a.sender != b.sender && |a.payload| == 4 && a.payload != BytesOf([FRAME_MAGIC], 4)
    ensures |Words(a)| == HEADER_WORDS + 1
    ensures var heard := Feed([], Mixed(a, b, HEADER_WORDS)).1;
            && Silence(4) + [Complete(a.(payload := BytesOf([FRAME_MAGIC], 4)))] <= heard
            && heard != Answers([a, b])
    ensures Feed([], Mixed(a, b, HEADER_WORDS)) != ([], Answers([b, a]))
  {
    hide Words, Feed, BytesOf, DecodeWords, Push;
    var heard, more, tail := Feed([], Mixed(a, b, HEADER_WORDS)).1, [FRAME_MAGIC], Words(b)[1..] + Words(a)[4..];
    WordsHeader(b);
    assert Words(a)[..4] + more + tail == Mixed(a, b, HEADER_WORDS);
    CutFrameIsCorrupted(a, HEADER_WORDS, more);
    assert a.payload[..0] + BytesOf(more, 4) == BytesOf(more, 4);
    FeedAppend([], Words(a)[..4] + more, tail);
    var g := a.(payload := BytesOf(more, 4));
    assert heard == Silence(4) + [Complete(g)] + Feed([], tail).1;
    SecondSenderIsHarmless(a, b, HEADER_WORDS);
    assert Answers([a, b])[4] == Complete(a);
  }
}
