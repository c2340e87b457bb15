/** Vocabulary shared by the carriers: bytes, FIFO words, frames and transport results. */
module Wire {

  type Byte = bv8
  type Word = bv32

  /** A role number, one byte in the source; it also indexes stashes and queues. */
  type Role = r: nat | r < 256

  lemma NextByte(b: Byte)
    requires b != 0xff
    ensures (b + 1) as nat == b as nat + 1
  {}

  lemma ByteNat(b: Byte)
    ensures b as nat < 256 && (b as nat) as Byte == b
  {}

  lemma {:induction false} SomeByte(n: nat) returns (b: Byte)
    requires n < 256
    ensures b as nat == n
  {
    if n == 0 {
      b := 0;
    } else {
      b := SomeByte(n - 1);
      NextByte(b);
      b := b + 1;
    }
  }

  /** A number that fits a byte survives the conversion. */
  lemma ByteOfNat(n: nat)
    requires n < 256
    ensures (n as Byte) as nat == n
  {
    var b := SomeByte(n);
    ByteNat(b);
  }

  datatype Option<+T> = None | Some(value: T)

  /** The transport errors the carriers report. */
  datatype TransportError = Capacity | Failed

  /** A choreography frame: who sends it, to whom, on which lane, and what it carries. */
  datatype Frame = Frame(session: Word, sender: Role, peer: Role, frameLabel: Byte, lane: Byte, payload: seq<Byte>)

  const FRAME_BYTES := 128

  /** The frames a non-self `poll_send` of the SIO carriers accepts. */
  predicate Legal(f: Frame) {
    |f.payload| <= FRAME_BYTES && f.sender != f.peer
  }

  /** All frames between one pair of roles on one lane. */
  datatype Flow = Flow(sender: Role, peer: Role, lane: Byte)

  predicate OnFlow(f: Frame, t: Flow) {
    f.sender == t.sender && f.peer == t.peer && f.lane == t.lane
  }

  /** The frames of `fs` that belong to flow `t`, in order. */
  function Project(fs: seq<Frame>, t: Flow): seq<Frame> {
    if fs == [] then []
    else
      var last := |fs| - 1;
      var front := Project(fs[..last], t);
      if OnFlow(fs[last], t) then front + [fs[last]] else front
  }

  lemma {:induction false} ProjectAppend(fs: seq<Frame>, f: Frame, t: Flow)
    ensures Project(fs + [f], t) == if OnFlow(f, t) then Project(fs, t) + [f] else Project(fs, t)
  {
    assert (fs + [f])[..|fs|] == fs;
  }

  lemma {:induction false} ProjectPrefix(fs: seq<Frame>, n: nat, t: Flow)
    requires n <= |fs|
    ensures Project(fs[..n], t) <= Project(fs, t)
  {
    if n == |fs| {
      assert fs[..n] == fs;
    } else {
      var last := |fs| - 1;
      ProjectPrefix(fs[..last], n, t);
      assert fs[..last][..n] == fs[..n];
    }
  }

  lemma {:induction false} ProjectSplit(fs: seq<Frame>, n: nat, t: Flow)
    requires n <= |fs|
    ensures Project(fs, t) == Project(fs[..n], t) + Project(fs[n..], t)
  {
    hide Project, OnFlow;
    if n == |fs| {
      assert fs[..n] == fs && fs[n..] == [];
      NothingProjected(t);
    } else {
      var front, x := fs[..|fs| - 1], fs[|fs| - 1];
      ProjectSplit(front, n, t);
      assert front[..n] == fs[..n] && front[n..] + [x] == fs[n..] && front + [x] == fs;
      ProjectAppend(front, x, t);
      ProjectAppend(front[n..], x, t);
    }
  }

  lemma NothingProjected(t: Flow)
    ensures Project([], t) == []
  {}

  lemma SameTail<T>(a: seq<T>, b: seq<T>, c: seq<T>)
    ensures a + c == b + c <==> a == b
  {
    if a + c == b + c {
      assert |a| == |b| && a == (a + c)[..|a|] && b == (b + c)[..|b|];
    }
  }

  /** Answers against what was sent: one more answer, one more frame sent. */
  lemma OneMoreAnswer(acked: seq<Frame>, wire: seq<Frame>, sent: Frame, asked: Frame)
    requires |wire| == |acked| + 1 && wire[|acked|..] == [sent]
    ensures acked + [asked] <= wire <==> acked <= wire && asked == sent
  {
    assert wire[|acked|] == wire[|acked|..][0];
  }

  lemma OneMoreSent(acked: seq<Frame>, wire: seq<Frame>, f: Frame)
    requires |acked| <= |wire|
    ensures acked <= wire + [f] <==> acked <= wire
  {
    assert (wire + [f])[..|acked|] == wire[..|acked|];
  }

  // ---------------------------------------------------------------- words and bytes

  /** Four bytes as one word, least significant first. */
  function Join(b0: Byte, b1: Byte, b2: Byte, b3: Byte): Word {
    (b0 as Word) | ((b1 as Word) << 8) | ((b2 as Word) << 16) | ((b3 as Word) << 24)
  }

  /** Byte `k` of a word, least significant first. */
  function ByteOf(word: Word, k: nat): Byte
    requires k < 4
  {
    if k == 0 then (word & 0xff) as Byte
    else if k == 1 then ((word >> 8) & 0xff) as Byte
    else if k == 2 then ((word >> 16) & 0xff) as Byte
    else ((word >> 24) & 0xff) as Byte
  }

  lemma JoinedBytes(b0: Byte, b1: Byte, b2: Byte, b3: Byte)
    ensures ByteOf(Join(b0, b1, b2, b3), 0) == b0
    ensures ByteOf(Join(b0, b1, b2, b3), 1) == b1
    ensures ByteOf(Join(b0, b1, b2, b3), 2) == b2
    ensures ByteOf(Join(b0, b1, b2, b3), 3) == b3
  {
  }

  lemma JoinOfBytes(word: Word)
    ensures Join(ByteOf(word, 0), ByteOf(word, 1), ByteOf(word, 2), ByteOf(word, 3)) == word
  {
  }
}
