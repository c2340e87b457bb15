/** The word codec of the RP2350 carrier: a frame as 32-bit FIFO words, and the accumulator that
    reassembles frames from words on the receiving core. */
module SioCodec {
  import opened Wire

  const FRAME_MAGIC: Word := 0x4849_5301
  const HEADER_WORDS := 4
  const FRAME_WORDS := 36

  // ---------------------------------------------------------------- packing

  function PayloadWordCount(len: nat): nat {
    (len + 3) / 4
  }

  function EncodeMeta(sender: Role, peer: Role, frameLabel: Byte, len: Byte): Word {
    Join(len, sender as Byte, peer as Byte, frameLabel)
  }

  datatype Meta = Meta(sender: Role, peer: Role, frameLabel: Byte, len: nat)

  function DecodeMeta(word: Word): Meta {
    Meta(ByteOf(word, 1) as Role, ByteOf(word, 2) as Role, ByteOf(word, 3), ByteOf(word, 0) as nat)
  }

  /** As many words as hold the bytes, and no more. */
  lemma PayloadWordsFit(len: nat)
    ensures len <= 4 * PayloadWordCount(len) < len + 4
  {}

  /** Where the fields lie in the meta word. */
  lemma MetaLayout(sender: Role, peer: Role, frameLabel: Byte, len: Byte)
    ensures var word := EncodeMeta(sender, peer, frameLabel, len);
            && ByteOf(word, 0) == len && ByteOf(word, 1) as nat == sender && ByteOf(word, 2) as nat == peer && ByteOf(word, 3) == frameLabel
  {
    hide Join, ByteOf;
    JoinedBytes(len, sender as Byte, peer as Byte, frameLabel);
    ByteOfNat(sender);
    ByteOfNat(peer);
  }

  function ByteAt(bytes: seq<Byte>, i: nat): Byte {
    if i < |bytes| then bytes[i] else 0
  }

  /** Four payload bytes from `offset`, little endian, zero beyond the end. */
  function PackedWord(bytes: seq<Byte>, offset: nat): Word {
    Join(ByteAt(bytes, offset), ByteAt(bytes, offset + 1), ByteAt(bytes, offset + 2), ByteAt(bytes, offset + 3))
  }

  lemma LaneByte(lane: Byte)
    ensures ByteOf(lane as Word, 0) == lane
  {
  }

  lemma MetaRoundTrip(sender: Role, peer: Role, frameLabel: Byte, len: nat)
    requires len <= FRAME_BYTES
    ensures DecodeMeta(EncodeMeta(sender, peer, frameLabel, len as Byte)) == Meta(sender, peer, frameLabel, len)
  {
    hide Join, ByteOf;
    JoinedBytes(len as Byte, sender as Byte, peer as Byte, frameLabel);
    ByteOfNat(len);
    ByteOfNat(sender);
    ByteOfNat(peer);
  }

  lemma PackedByte(bytes: seq<Byte>, offset: nat, k: nat)
    requires k < 4
    ensures ByteOf(PackedWord(bytes, offset), k) == ByteAt(bytes, offset + k)
  {
    JoinedBytes(ByteAt(bytes, offset), ByteAt(bytes, offset + 1), ByteAt(bytes, offset + 2), ByteAt(bytes, offset + 3));
  }

  /** `word` with byte `b` or-ed in at position `k`. */
  function OrAt(word: Word, b: Byte, k: nat): Word
    requires k < 4
  {
    if k == 0 then word | (b as Word)
    else if k == 1 then word | ((b as Word) << 8)
    else if k == 2 then word | ((b as Word) << 16)
    else word | ((b as Word) << 24)
  }

  lemma OrAt0(b0: Byte)
    ensures OrAt(0, b0, 0) == Join(b0, 0, 0, 0)
  {}

  lemma OrAt1(b0: Byte, b1: Byte)
    ensures OrAt(Join(b0, 0, 0, 0), b1, 1) == Join(b0, b1, 0, 0)
  {}

  lemma OrAt2(b0: Byte, b1: Byte, b2: Byte)
    ensures OrAt(Join(b0, b1, 0, 0), b2, 2) == Join(b0, b1, b2, 0)
  {}

  lemma OrAt3(b0: Byte, b1: Byte, b2: Byte, b3: Byte)
    ensures OrAt(Join(b0, b1, b2, 0), b3, 3) == Join(b0, b1, b2, b3)
  {}

  /** The first `n` bytes of a payload word. */
  function PartWord(bytes: seq<Byte>, offset: nat, n: nat): Word {
    Join(if n > 0 then ByteAt(bytes, offset) else 0, if n > 1 then ByteAt(bytes, offset + 1) else 0,
         if n > 2 then ByteAt(bytes, offset + 2) else 0, if n > 3 then ByteAt(bytes, offset + 3) else 0)
  }

  lemma PartWordStep(bytes: seq<Byte>, offset: nat, n: nat)
    requires n < 4
    ensures PartWord(bytes, offset, n + 1) == OrAt(PartWord(bytes, offset, n), ByteAt(bytes, offset + n), n)
    ensures offset + n >= |bytes| ==> PartWord(bytes, offset, n + 1) == PartWord(bytes, offset, n)
    ensures n == 0 ==> PartWord(bytes, offset, n) == 0
  {
    var b0, b1, b2, b3 := ByteAt(bytes, offset), ByteAt(bytes, offset + 1), ByteAt(bytes, offset + 2), ByteAt(bytes, offset + 3);
    hide Join, OrAt;
    JoinZero();
    match n
    case 0 => OrAt0(b0);
    case 1 => OrAt1(b0, b1);
    case 2 => OrAt2(b0, b1, b2);
    case _ => OrAt3(b0, b1, b2, b3);
  }

  lemma JoinZero()
    ensures Join(0, 0, 0, 0) == 0
  {}

  /** Packs one payload word, byte by byte. */
  method PackPayloadWord(bytes: seq<Byte>, offset: nat) returns (word: Word)
    ensures word == PackedWord(bytes, offset)
  {
    hide Join, OrAt;
    word := 0;
    PartWordStep(bytes, offset, 0);
    var idx := 0;
    while idx < 4
      invariant 0 <= idx <= 4
      invariant word == PartWord(bytes, offset, idx)
    {
      PartWordStep(bytes, offset, idx);
      var source := offset + idx;
      if source < |bytes| {
        word := OrAt(word, bytes[source], idx);
      }
      idx := idx + 1;
    }
  }

  /** Unpacks one payload word into the bytes below `len`. */
  method UnpackPayloadWord(word: Word, bytes: array<Byte>, len: nat, offset: nat)
    requires len <= bytes.Length
    modifies bytes
    ensures forall i :: 0 <= i < bytes.Length ==>
              bytes[i] == if offset <= i < offset + 4 && i < len then ByteOf(word, i - offset) else old(bytes[i])
  {
    var idx := 0;
    while idx < 4
      invariant 0 <= idx <= 4
      invariant forall i :: 0 <= i < bytes.Length ==>
                  bytes[i] == if offset <= i < offset + idx && i < len then ByteOf(word, i - offset) else old(bytes[i])
    {
      var target := offset + idx;
      if target < len {
        bytes[target] := ByteOf(word, idx);
      }
      idx := idx + 1;
    }
  }

  // ---------------------------------------------------------------- encoding

  function TotalWords(f: Frame): nat {
    HEADER_WORDS + PayloadWordCount(|f.payload|)
  }

  /** Word `index` of the frame on the wire. */
  function WordAt(f: Frame, index: nat): Word
    requires Legal(f)
  {
    match index
    case 0 => FRAME_MAGIC
    case 1 => f.session
    case 2 => EncodeMeta(f.sender, f.peer, f.frameLabel, |f.payload| as Byte)
    case 3 => f.lane as Word
    case _ => PackedWord(f.payload, (index - HEADER_WORDS) * 4)
  }

  function Words(f: Frame): (ws: seq<Word>)
    requires Legal(f)
    ensures HEADER_WORDS <= |ws| == TotalWords(f) <= FRAME_WORDS
  {
    seq(TotalWords(f), i requires 0 <= i < TotalWords(f) => WordAt(f, i))
  }

  ghost predicate AllLegal(fs: seq<Frame>) {
    forall f :: f in fs ==> Legal(f)
  }

  /** The concatenation of the words of every frame. */
  function Flatten(fs: seq<Frame>): seq<Word>
    requires AllLegal(fs)
  {
    if fs == [] then [] else Words(fs[0]) + Flatten(fs[1..])
  }

  lemma {:induction false} FlattenAppend(fs: seq<Frame>, f: Frame)
    requires AllLegal(fs) && Legal(f)
    ensures Flatten(fs + [f]) == Flatten(fs) + Words(f)
  {
    hide Words;
    if fs == [] {
      assert fs + [f] == [f];
    } else {
      FlattenAppend(fs[1..], f);
      assert (fs + [f])[1..] == fs[1..] + [f];
    }
  }

  // ---------------------------------------------------------------- decoding

  datatype PushResult = Incomplete | Complete(frame: Frame) | Rejected(error: TransportError)

  predicate GoodMeta(word: Word) {
    var m := DecodeMeta(word);
    m.len <= FRAME_BYTES && m.sender != m.peer
  }

  /** `expected_words`: zero until the header is complete. */
  function Expected(acc: seq<Word>): nat {
    if |acc| < HEADER_WORDS then 0 else HEADER_WORDS + PayloadWordCount(DecodeMeta(acc[2]).len)
  }

  /** What an accumulator can hold between two calls: a proper prefix of some frame. */
  predicate Accumulating(acc: seq<Word>) {
    && (acc != [] ==> acc[0] == FRAME_MAGIC)
    && (|acc| >= HEADER_WORDS ==> GoodMeta(acc[2]) && |acc| < Expected(acc))
  }

  function DecodeWords(ws: seq<Word>): Frame
    requires |ws| >= HEADER_WORDS && |ws| == Expected(ws)
  {
    var m := DecodeMeta(ws[2]);
    Frame(ws[1], m.sender, m.peer, m.frameLabel, ByteOf(ws[3], 0),
          seq(m.len, i requires 0 <= i < m.len => ByteOf(ws[HEADER_WORDS + i / 4], i % 4)))
  }

  /** One `push_word`: the words kept afterwards, and the answer. */
  function Push(acc: seq<Word>, word: Word): (r: (seq<Word>, PushResult))
    requires Accumulating(acc)
    ensures Accumulating(r.0) && |r.0| < FRAME_WORDS
    ensures if Expected(r.0) == 0 then |r.0| < HEADER_WORDS else |r.0| < Expected(r.0) <= FRAME_WORDS
    ensures r.1.Rejected? ==> r.0 == []
    ensures r.1.Complete? ==> r.0 == [] && Legal(r.1.frame)
  {
    var next := acc + [word];
    if |next| == 1 && word != FRAME_MAGIC then ([], Rejected(Failed))
    else if |next| == HEADER_WORDS && DecodeMeta(next[2]).len > FRAME_BYTES then ([], Rejected(Capacity))
    else if |next| == HEADER_WORDS && !GoodMeta(next[2]) then ([], Rejected(Failed))
    else if |next| < HEADER_WORDS || |next| < Expected(next) then (next, Incomplete)
    else ([], Complete(DecodeWords(next)))
  }

  /** Which words are refused, and with which error: a first word that is not the magic; and a fourth word that
      completes a header whose length byte is too big, or else whose roles are equal. */
  lemma PushErrors(acc: seq<Word>, word: Word)
    requires Accumulating(acc)
    ensures Push(acc, word).1 == Rejected(Capacity) <==> |acc| == 3 && ByteOf(acc[2], 0) as nat > 128
    ensures Push(acc, word).1 == Rejected(Failed) <==>
              || (acc == [] && word != 0x4849_5301)
              || (|acc| == 3 && ByteOf(acc[2], 0) as nat <= 128 && ByteOf(acc[2], 1) == ByteOf(acc[2], 2))
  {
    hide ByteOf, DecodeWords;
    if |acc| == 3 {
      assert (acc + [word])[2] == acc[2];
      SameRole(ByteOf(acc[2], 1), ByteOf(acc[2], 2));
    }
  }

  lemma SameRole(a: Byte, b: Byte)
    ensures a as nat == b as nat <==> a == b
  {
    ByteNat(a);
    ByteNat(b);
  }

  lemma WordsHeader(f: Frame)
    requires Legal(f)
    ensures var ws := Words(f);
            && ws[0] == FRAME_MAGIC && ws[1] == f.session && ByteOf(ws[3], 0) == f.lane
            && DecodeMeta(ws[2]) == Meta(f.sender, f.peer, f.frameLabel, |f.payload|)
  {
    hide Join, ByteOf, DecodeMeta;
    LaneByte(f.lane);
    MetaRoundTrip(f.sender, f.peer, f.frameLabel, |f.payload|);
  }

  /** Decoding undoes encoding. */
  lemma {:induction false} WordsRoundTrip(f: Frame)
    requires Legal(f)
    ensures |Words(f)| == Expected(Words(f)) && GoodMeta(Words(f)[2])
    ensures DecodeWords(Words(f)) == f
  {
    hide ByteOf, DecodeMeta, WordAt;
    var ws := Words(f);
    WordsHeader(f);
    var g := DecodeWords(ws);
    forall i: nat | i < |f.payload| ensures g.payload[i] == f.payload[i] {
      PayloadRoundTrip(f, i);
    }
    assert g.payload == f.payload;
  }

  lemma PayloadRoundTrip(f: Frame, i: nat)
    requires Legal(f) && i < |f.payload|
    ensures ByteOf(Words(f)[HEADER_WORDS + i / 4], i % 4) == f.payload[i]
  {
    hide Join, ByteOf;
    PackedByte(f.payload, (i / 4) * 4, i % 4);
    assert Words(f)[HEADER_WORDS + i / 4] == PackedWord(f.payload, (i / 4) * 4);
  }

  /** The next word of a frame extends the accumulator, and the last one releases the frame. */
  lemma {:induction false} PushNextWord(f: Frame, n: nat)
    requires Legal(f) && n < |Words(f)|
    ensures Accumulating(Words(f)[..n])
    ensures Push(Words(f)[..n], Words(f)[n])
            == if n + 1 < |Words(f)| then (Words(f)[..n + 1], Incomplete) else ([], Complete(f))
  {
    hide ByteOf, DecodeMeta, WordAt, DecodeWords;
    var ws := Words(f);
    WordsHeader(f);
    WordsRoundTrip(f);
    assert ws[..n] + [ws[n]] == ws[..n + 1];
    if n + 1 == |ws| {
      assert ws[..n + 1] == ws;
    }
  }

  /** Feeding words one by one: what the accumulator holds at the end, and every answer. */
  function Feed(acc: seq<Word>, ws: seq<Word>): (seq<Word>, seq<PushResult>)
    requires Accumulating(acc)
    decreases |ws|
  {
    if ws == [] then (acc, [])
    else
      var (next, answer) := Push(acc, ws[0]);
      var (last, answers) := Feed(next, ws[1..]);
      (last, [answer] + answers)
  }

  function Silence(n: nat): seq<PushResult> {
    seq(n, _ => Incomplete)
  }

  lemma SilenceStep(n: nat, rest: seq<PushResult>)
    ensures [Incomplete] + (Silence(n) + rest) == Silence(n + 1) + rest
    ensures Silence(0) + rest == rest
  {}

  /** Silence until the final word of each frame, then that frame. */
  function Answers(fs: seq<Frame>): seq<PushResult>
    requires AllLegal(fs)
  {
    if fs == [] then []
    else Silence(TotalWords(fs[0]) - 1) + ([Complete(fs[0])] + Answers(fs[1..]))
  }

  lemma {:induction false} FeedRestOfFrame(f: Frame, n: nat, fs: seq<Frame>)
    requires Legal(f) && AllLegal(fs) && n < |Words(f)|
    requires Feed([], Flatten(fs)) == ([], Answers(fs))
    ensures Accumulating(Words(f)[..n])
    ensures Feed(Words(f)[..n], Words(f)[n..] + Flatten(fs))
            == ([], Silence(|Words(f)| - n - 1) + ([Complete(f)] + Answers(fs)))
    decreases |Words(f)| - n
  {
    hide Push, Words, Silence, Answers, Flatten, Accumulating;
    var ws := Words(f);
    PushNextWord(f, n);
    var rest := ws[n..] + Flatten(fs);
    assert rest[0] == ws[n] && rest[1..] == ws[n + 1..] + Flatten(fs);
    var after := [Complete(f)] + Answers(fs);
    if n + 1 < |ws| {
      FeedRestOfFrame(f, n + 1, fs);
      SilenceStep(|ws| - n - 2, after);
    } else {
      assert rest[1..] == Flatten(fs);
      SilenceStep(0, after);
    }
  }

  /** Every list of frames survives the wire: fed word by word to an empty accumulator it comes out
      again, each frame at its final word and nothing in between. */
  lemma {:induction false} StreamRoundTrip(fs: seq<Frame>)
    requires AllLegal(fs)
    ensures Feed([], Flatten(fs)) == ([], Answers(fs))
  {
    hide WordAt, Push, Silence;
    if fs != [] {
      StreamRoundTrip(fs[1..]);
      FeedRestOfFrame(fs[0], 0, fs[1..]);
      assert Words(fs[0])[..0] == [];
      assert Words(fs[0])[0..] == Words(fs[0]);
    }
  }

  /** The bits a decoder ignores in a complete word list: the lane's upper bytes and the padding. */
  predicate IgnoredBitsZero(ws: seq<Word>)
    requires |ws| >= HEADER_WORDS && |ws| == Expected(ws)
  {
    && ws[3] == (ByteOf(ws[3], 0) as Word)
    && forall i :: DecodeMeta(ws[2]).len <= i < 4 * (|ws| - HEADER_WORDS) ==> PayloadByte(ws, i) == 0
  }

  function PayloadByte(ws: seq<Word>, i: nat): Byte
    requires HEADER_WORDS + i / 4 < |ws|
  {
    ByteOf(ws[HEADER_WORDS + i / 4], i % 4)
  }

  lemma MetaReencodes(word: Word)
    requires DecodeMeta(word).len <= FRAME_BYTES
    ensures var m := DecodeMeta(word); EncodeMeta(m.sender, m.peer, m.frameLabel, m.len as Byte) == word
  {
    hide Join, ByteOf;
    JoinOfBytes(word);
    ByteNat(ByteOf(word, 0));
    ByteNat(ByteOf(word, 1));
    ByteNat(ByteOf(word, 2));
  }

  /** The header of a decoded frame is the header received, but for the lane's upper bytes. */
  lemma HeaderReencodes(ws: seq<Word>)
    requires |ws| >= HEADER_WORDS && |ws| == Expected(ws) && ws[0] == FRAME_MAGIC && GoodMeta(ws[2])
    ensures Legal(DecodeWords(ws))
    ensures var vs := Words(DecodeWords(ws));
            |vs| == |ws| && vs[0] == ws[0] && vs[1] == ws[1] && vs[2] == ws[2] && vs[3] == ByteOf(ws[3], 0) as Word
  {
    hide Join, ByteOf, DecodeMeta, EncodeMeta, PackedWord;
    MetaReencodes(ws[2]);
  }

  /** The payload words of a decoded frame are those received, with the padding cleared. */
  lemma PayloadReencodes(ws: seq<Word>, i: nat)
    requires |ws| >= HEADER_WORDS && |ws| == Expected(ws) && GoodMeta(ws[2]) && Legal(DecodeWords(ws))
    requires |Words(DecodeWords(ws))| == |ws| && i < 4 * (|ws| - HEADER_WORDS)
    ensures PayloadByte(Words(DecodeWords(ws)), i) == if i < DecodeMeta(ws[2]).len then PayloadByte(ws, i) else 0
  {
    hide Join, ByteOf, DecodeMeta, EncodeMeta;
    var f := DecodeWords(ws);
    assert Words(f)[HEADER_WORDS + i / 4] == PackedWord(f.payload, (i / 4) * 4);
    PackedByte(f.payload, (i / 4) * 4, i % 4);
  }

  /** Conversely, on arbitrary words: the decoded frame encodes back to exactly the words received
      if and only if the bits the decoder ignores were zero. */
  lemma {:induction false} DecodeThenEncode(ws: seq<Word>)
    requires |ws| >= HEADER_WORDS && |ws| == Expected(ws) && ws[0] == FRAME_MAGIC && GoodMeta(ws[2])
    ensures Legal(DecodeWords(ws))
    ensures Words(DecodeWords(ws)) == ws <==> IgnoredBitsZero(ws)
  {
    hide Join, ByteOf, DecodeMeta, DecodeWords, Words, Expected, PayloadByte, Legal;
    HeaderReencodes(ws);
    var vs := Words(DecodeWords(ws));
    forall i: nat | i < 4 * (|ws| - HEADER_WORDS)
      ensures PayloadByte(vs, i) == if i < DecodeMeta(ws[2]).len then PayloadByte(ws, i) else 0
    {
      PayloadReencodes(ws, i);
    }
    if IgnoredBitsZero(ws) {
      forall n | HEADER_WORDS <= n < |ws| ensures vs[n] == ws[n] {
        SameWord(vs, ws, n);
      }
      assert vs == ws;
    }
  }

  lemma SameWord(vs: seq<Word>, ws: seq<Word>, n: nat)
    requires HEADER_WORDS <= n < |ws| == |vs|
    requires forall i: nat :: i < 4 * (|ws| - HEADER_WORDS) ==> PayloadByte(vs, i) == PayloadByte(ws, i)
    ensures vs[n] == ws[n]
  {
    hide ByteOf;
    var j := 4 * (n - HEADER_WORDS);
    assert PayloadByte(vs, j) == PayloadByte(ws, j) && PayloadByte(vs, j + 1) == PayloadByte(ws, j + 1);
    assert PayloadByte(vs, j + 2) == PayloadByte(ws, j + 2) && PayloadByte(vs, j + 3) == PayloadByte(ws, j + 3);
    WordsEqualByBytes(vs[n], ws[n]);
  }

  lemma WordsEqualByBytes(a: Word, b: Word)
    ensures a == b <==> forall k :: 0 <= k < 4 ==> ByteOf(a, k) == ByteOf(b, k)
  {
    JoinOfBytes(a);
    JoinOfBytes(b);
  }

  /** The receiving core's accumulator. */
  class SioRxAccumulator {
    const words: array<Word>
    var wordCount: nat
    var expectedWords: nat

    ghost predicate Valid()
      reads this, words
    {
      && words.Length == FRAME_WORDS
      && wordCount < FRAME_WORDS
      && Accumulating(words[..wordCount])
      && expectedWords == Expected(words[..wordCount])
    }

    ghost function Held(): seq<Word>
      reads this, words
      requires Valid()
    {
      words[..wordCount]
    }

    constructor ()
      ensures Valid() && Held() == [] && fresh(words)
    {
      words := new Word[FRAME_WORDS];
      wordCount, expectedWords := 0, 0;
    }

    method Reset()
      requires words.Length == FRAME_WORDS
      modifies this
      ensures Valid() && Held() == []
    {
      wordCount, expectedWords := 0, 0;
    }

    method PushWord(word: Word) returns (r: PushResult)
      requires Valid()
      modifies this, words
      ensures Valid()
      ensures (Held(), r) == Push(old(Held()), word)
    {
      hide ByteOf, DecodeMeta, DecodeWords;
      if wordCount >= FRAME_WORDS {
        assert false;   // the capacity guard at entry: never taken on a valid accumulator
      }
      ghost var held := Held();
      words[wordCount] := word;
      wordCount := wordCount + 1;
      assert words[..wordCount] == held + [word];

      if wordCount == 1 && word != FRAME_MAGIC {
        Reset();
        return Rejected(Failed);
      }
      if wordCount == HEADER_WORDS {
        var m := DecodeMeta(words[2]);
        if m.peer == m.sender || m.len > FRAME_BYTES {
          Reset();
          if m.len > FRAME_BYTES {
            return Rejected(Capacity);
          }
          return Rejected(Failed);
        }
        expectedWords := HEADER_WORDS + PayloadWordCount(m.len);
      }
      if expectedWords == 0 || wordCount < expectedWords {
        return Incomplete;
      }
      var f := Decode();
      Reset();
      r := Complete(f);
    }

    /** Reads the frame out of a full accumulator. */
    method Decode() returns (f: Frame)
      requires words.Length == FRAME_WORDS && HEADER_WORDS <= wordCount <= FRAME_WORDS
      requires wordCount == Expected(words[..wordCount]) && GoodMeta(words[2])
      ensures f == DecodeWords(words[..wordCount])
    {
      hide ByteOf, DecodeMeta;
      var m := DecodeMeta(words[2]);
      var bytes := new Byte[FRAME_BYTES](_ => 0);
      var offset := 0;
      while offset < m.len
        invariant 0 <= offset < m.len + 4 && offset % 4 == 0
        invariant forall i :: 0 <= i < m.len && i < offset ==> bytes[i] == ByteOf(words[HEADER_WORDS + i / 4], i % 4)
      {
        ghost var before := bytes[..];
        UnpackPayloadWord(words[HEADER_WORDS + offset / 4], bytes, m.len, offset);
        forall i | 0 <= i < m.len && i < offset + 4 ensures bytes[i] == ByteOf(words[HEADER_WORDS + i / 4], i % 4) {
          if i < offset {
            assert bytes[i] == before[i];
          } else {
            SameQuad(offset, i);
          }
        }
        offset := offset + 4;
      }
      f := Frame(words[1], m.sender, m.peer, m.frameLabel, ByteOf(words[3], 0), bytes[..m.len]);
    }
  }

  lemma SameQuad(offset: nat, i: nat)
    requires offset % 4 == 0 && offset <= i < offset + 4
    ensures i / 4 == offset / 4 && i % 4 == i - offset
  {}
}
