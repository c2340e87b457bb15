/** The UART framing of the UNO Q carrier: magic, header, payload and a xor checksum, parsed a byte at a
    time. */
module UartFraming {
  import opened Wire

  const MAGIC: seq<Byte> := [0x48, 0x42, 0x55, 0x31]
  const CHECK: Byte := 0xa7
  const HEADER_BYTES := 13
  const UART_FRAME_BYTES := 142

  datatype UartFrame = UartFrame(session: Word, lane: Byte, source: Byte, peer: Byte, frameLabel: Byte, payload: seq<Byte>)

  predicate Encodable(f: UartFrame) {
    |f.payload| <= FRAME_BYTES
  }

  // ---------------------------------------------------------------- checksum

  function Fold(bytes: seq<Byte>): Byte {
    if bytes == [] then CHECK else Fold(bytes[..|bytes| - 1]) ^ bytes[|bytes| - 1]
  }

  /** The checksum starts from 0xa7 and takes every byte in. */
  lemma FoldStep(x: seq<Byte>, n: nat)
    requires n < |x|
    ensures Fold(x[..n + 1]) == Fold(x[..n]) ^ x[n]
    ensures Fold([]) == 0xa7
  {
    assert x[..n + 1][..n] == x[..n];
  }

  method Checksum(bytes: seq<Byte>) returns (check: Byte)
    ensures check == Fold(bytes)
  {
    check := CHECK;
    var i := 0;
    while i < |bytes|
      invariant 0 <= i <= |bytes| && check == Fold(bytes[..i])
    {
      assert bytes[..i + 1][..i] == bytes[..i];
      check := check ^ bytes[i];
      i := i + 1;
    }
    assert bytes[..i] == bytes;
  }

  /** Replacing one byte moves the checksum by exactly the difference of the two bytes. */
  lemma {:induction false} FoldUpdate(bytes: seq<Byte>, p: nat, b: Byte)
    requires p < |bytes|
    ensures Fold(bytes[p := b]) == Fold(bytes) ^ bytes[p] ^ b
  {
    var last := |bytes| - 1;
    if p == last {
      assert bytes[p := b][..last] == bytes[..last];
      XorReplace(Fold(bytes[..last]), bytes[last], b);
    } else {
      FoldUpdate(bytes[..last], p, b);
      assert bytes[p := b][..last] == bytes[..last][p := b];
      XorSwap(Fold(bytes[..last]), bytes[p], b, bytes[last]);
    }
  }

  lemma XorReplace(x: Byte, a: Byte, b: Byte)
    ensures x ^ b == (x ^ a) ^ a ^ b
  {}

  lemma XorSwap(x: Byte, a: Byte, b: Byte, c: Byte)
    ensures (x ^ a ^ b) ^ c == (x ^ c) ^ a ^ b
  {}

  lemma XorDiffers(x: Byte, a: Byte, b: Byte)
    requires a != b
    ensures x ^ a ^ b != x
  {}

  // ---------------------------------------------------------------- encoding

  /** The header after the magic. */
  function Header(f: UartFrame): (bytes: seq<Byte>)
    requires Encodable(f)
    ensures |bytes| == HEADER_BYTES - 4
  {
    [ByteOf(f.session, 0), ByteOf(f.session, 1), ByteOf(f.session, 2), ByteOf(f.session, 3),
     f.lane, f.source, f.peer, f.frameLabel, |f.payload| as Byte]
  }

  /** Everything after the magic and before the checksum. */
  function Body(f: UartFrame): (bytes: seq<Byte>)
    requires Encodable(f)
    ensures |bytes| == HEADER_BYTES - 4 + |f.payload|
  {
    Header(f) + f.payload
  }

  function Encode(f: UartFrame): (bytes: seq<Byte>)
    requires Encodable(f)
    ensures |bytes| == HEADER_BYTES + |f.payload| + 1
  {
    MAGIC + Body(f) + [Fold(Body(f))]
  }

  /** `encode_uart_frame`: fills the buffer and returns how much of it the frame takes. */
  method EncodeInto(out: array<Byte>, f: UartFrame) returns (len: Option<nat>)
    requires out.Length == UART_FRAME_BYTES
    modifies out
    ensures len.Some? <==> Encodable(f)
    ensures len.None? ==> out[..] == old(out[..])
    ensures len.Some? ==> len.value <= out.Length && out[..len.value] == Encode(f)
  {
    hide Fold, Body, Header;
    if |f.payload| > FRAME_BYTES {
      return None;
    }
    CopyBody(out, f);
    var end := HEADER_BYTES + |f.payload|;
    assert out[4..end] == out[..end][4..] == Body(f);
    var check := Checksum(out[4..end]);
    out[end] := check;
    assert out[..end + 1] == out[..end] + [out[end]];
    len := Some(end + 1);
  }

  /** Everything before the checksum. */
  method CopyBody(out: array<Byte>, f: UartFrame)
    requires out.Length == UART_FRAME_BYTES && Encodable(f)
    modifies out
    ensures out[..HEADER_BYTES + |f.payload|] == MAGIC + Body(f)
  {
    hide Body, Header;
    CopyInto(out, 0, MAGIC);
    CopyInto(out, 4, Header(f));
    CopyInto(out, HEADER_BYTES, f.payload);
    var end := HEADER_BYTES + |f.payload|;
    assert out[..4] == MAGIC && out[4..HEADER_BYTES] == Header(f) && out[HEADER_BYTES..end] == f.payload;
    assert out[..end] == out[..4] + out[4..HEADER_BYTES] + out[HEADER_BYTES..end];
    BodyParts(f);
  }

  /** `copy_from_slice` */
  method CopyInto(out: array<Byte>, at: nat, bytes: seq<Byte>)
    requires at + |bytes| <= out.Length
    modifies out
    ensures out[..] == old(out[..])[..at] + bytes + old(out[..])[at + |bytes|..]
  {
    hide PartlyCopied;
    ghost var before := out[..];
    var i := 0;
    CopyStarts(before, at, bytes);
    while i < |bytes|
      invariant 0 <= i <= |bytes|
      invariant out[..] == PartlyCopied(before, at, bytes, i)
    {
      CopyStep(before, at, bytes, i);
      out[at + i] := bytes[i];
      i := i + 1;
    }
    CopyEnds(before, at, bytes);
  }

  /** The buffer once the first `i` bytes are in place. */
  function PartlyCopied(before: seq<Byte>, at: nat, bytes: seq<Byte>, i: nat): seq<Byte>
    requires i <= |bytes| && at + |bytes| <= |before|
  {
    before[..at] + bytes[..i] + before[at + i..]
  }

  lemma CopyStarts(before: seq<Byte>, at: nat, bytes: seq<Byte>)
    requires at + |bytes| <= |before|
    ensures PartlyCopied(before, at, bytes, 0) == before
  {}

  lemma CopyStep(before: seq<Byte>, at: nat, bytes: seq<Byte>, i: nat)
    requires i < |bytes| && at + |bytes| <= |before|
    ensures at + i < |PartlyCopied(before, at, bytes, i)|
    ensures PartlyCopied(before, at, bytes, i)[at + i := bytes[i]] == PartlyCopied(before, at, bytes, i + 1)
  {}

  lemma CopyEnds(before: seq<Byte>, at: nat, bytes: seq<Byte>)
    requires at + |bytes| <= |before|
    ensures PartlyCopied(before, at, bytes, |bytes|) == before[..at] + bytes + before[at + |bytes|..]
  {
    assert bytes[..|bytes|] == bytes;
  }

  lemma BodyParts(f: UartFrame)
    requires Encodable(f)
    ensures Body(f) == Header(f) + f.payload
  {}

  // ---------------------------------------------------------------- parsing

  /** What the parser can hold between two bytes: a proper prefix of something shaped like a frame. */
  predicate Parsing(buf: seq<Byte>) {
    && |buf| < UART_FRAME_BYTES
    && (forall i :: 0 <= i < 4 && i < |buf| ==> buf[i] == MAGIC[i])
    && (|buf| >= HEADER_BYTES ==> buf[12] as nat <= FRAME_BYTES && |buf| < HEADER_BYTES + (buf[12] as nat) + 1)
  }

  function DecodeBuffer(buf: seq<Byte>): UartFrame
    requires |buf| >= HEADER_BYTES && |buf| >= HEADER_BYTES + buf[12] as nat
  {
    UartFrame(Join(buf[4], buf[5], buf[6], buf[7]), buf[8], buf[9], buf[10], buf[11], buf[HEADER_BYTES..HEADER_BYTES + buf[12] as nat])
  }

  /** The buffer just after a byte was stored: at most one byte more than it can go on holding. */
  predicate Stored(buf: seq<Byte>) {
    |buf| > 0 && Parsing(buf[..|buf| - 1]) && (|buf| <= 4 ==> buf[|buf| - 1] == MAGIC[|buf| - 1])
  }

  /** What becomes of the buffer after a byte was stored: the bytes kept, and the frame completed, if any. */
  function Settle(buf: seq<Byte>): (r: (seq<Byte>, Option<UartFrame>))
    requires Stored(buf)
    ensures Parsing(r.0) && (r.1.Some? ==> r.0 == [] && Encodable(r.1.value))
  {
    if |buf| < HEADER_BYTES then (buf, None)
    else
      var len := buf[12] as nat;
      if len > FRAME_BYTES then ([], None)
      else if |buf| < HEADER_BYTES + len + 1 then (buf, None)
      else if buf[HEADER_BYTES + len] != Fold(buf[4..HEADER_BYTES + len]) then ([], None)
      else ([], Some(DecodeBuffer(buf)))
  }

  /** One `push`: the bytes kept afterwards, and the frame completed, if any. */
  function Push(buf: seq<Byte>, byte: Byte): (r: (seq<Byte>, Option<UartFrame>))
    requires Parsing(buf)
    ensures Parsing(r.0) && (r.1.Some? ==> r.0 == [] && Encodable(r.1.value))
  {
    if |buf| < 4 && byte != MAGIC[|buf|] then ([], None)
    else
      assert (buf + [byte])[..|buf|] == buf;
      Settle(buf + [byte])
  }

  lemma HeldBytes(buf: seq<Byte>)
    ensures Parsing([]) && (Parsing(buf) ==> |buf| < UART_FRAME_BYTES)
  {}

  lemma StoredFits(buf: seq<Byte>)
    requires Stored(buf)
    ensures |buf| > HEADER_BYTES && buf[12] as nat <= FRAME_BYTES ==> |buf| <= HEADER_BYTES + (buf[12] as nat) + 1
  {
    if |buf| > HEADER_BYTES {
      assert buf[..|buf| - 1][12] == buf[12];
    }
  }

  /** Reading a frame out of a longer buffer. */
  lemma DecodedInPlace(bytes: seq<Byte>, total: nat)
    requires HEADER_BYTES < total <= |bytes| && total == HEADER_BYTES + (bytes[12] as nat) + 1
    ensures bytes[..total][4..total - 1] == bytes[4..total - 1]
    ensures DecodeBuffer(bytes[..total])
         == UartFrame(Join(bytes[4], bytes[5], bytes[6], bytes[7]), bytes[8], bytes[9], bytes[10], bytes[11], bytes[HEADER_BYTES..total - 1])
  {
    hide Join;
    SliceOfTake(bytes, total, 4, total - 1);
    SliceOfTake(bytes, total, HEADER_BYTES, total - 1);
    SliceOfTake(bytes, total, 4, HEADER_BYTES);
    assert bytes[..total][12] == bytes[12];
  }

  lemma SliceOfTake<T>(s: seq<T>, n: nat, i: nat, j: nat)
    requires i <= j <= n <= |s|
    ensures s[..n][i..j] == s[i..j]
    ensures forall k :: i <= k < j ==> s[..n][k] == s[k]
  {}

  class UartFrameParser {
    const buffer: array<Byte>
    var len: nat

    ghost predicate Valid()
      reads this, buffer
    {
      buffer.Length == UART_FRAME_BYTES && len <= UART_FRAME_BYTES && Parsing(buffer[..len])
    }

    constructor ()
      ensures Valid() && buffer[..len] == [] && fresh(buffer)
    {
      buffer := new Byte[UART_FRAME_BYTES](_ => 0);
      len := 0;
    }

    method PushByte(byte: Byte) returns (f: Option<UartFrame>)
      requires Valid()
      modifies this, buffer
      ensures Valid()
      ensures (buffer[..len], f) == Push(old(buffer[..len]), byte)
    {
      hide Settle, Parsing;
      HeldBytes(buffer[..len]);
      if len < |MAGIC| && byte != MAGIC[len] {
        len := 0;
        assert buffer[..0] == [];
        return None;
      }
      if len == buffer.Length {
        assert false;   // the buffer-full guard: never taken on a valid parser
      }
      ghost var held := buffer[..len];
      buffer[len] := byte;
      len := len + 1;
      assert buffer[..len] == held + [byte] && buffer[..len][..len - 1] == held;
      f := SettleBuffer();
    }

    /** Keeps, completes or drops what the buffer holds. */
    method SettleBuffer() returns (f: Option<UartFrame>)
      requires buffer.Length == UART_FRAME_BYTES && len <= UART_FRAME_BYTES && Stored(buffer[..len])
      modifies this`len
      ensures Valid()
      ensures (buffer[..len], f) == Settle(old(buffer[..len]))
    {
      hide Join, Fold, DecodeBuffer, Parsing, Stored, Encodable;
      StoredFits(buffer[..len]);
      HeldBytes([]);
      assert buffer[..0] == [] && Parsing(Settle(buffer[..len]).0);
      if len < HEADER_BYTES {
        return None;
      }
      var payloadLen := buffer[12] as nat;
      if payloadLen > FRAME_BYTES {
        len := 0;
        return None;
      }
      var total := HEADER_BYTES + payloadLen + 1;
      if len < total {
        return None;
      }
      f := Finish(total);
      len := 0;
    }

    /** Checks and decodes a complete frame. */
    method Finish(total: nat) returns (f: Option<UartFrame>)
      requires buffer.Length == UART_FRAME_BYTES && HEADER_BYTES < total <= UART_FRAME_BYTES
      requires total == HEADER_BYTES + (buffer[12] as nat) + 1
      ensures f == if buffer[total - 1] != Fold(buffer[..total][4..total - 1]) then None else Some(DecodeBuffer(buffer[..total]))
    {
      hide Join, Fold, DecodeBuffer;
      DecodedInPlace(buffer[..], total);
      var expected := Checksum(buffer[4..total - 1]);
      if buffer[total - 1] != expected {
        return None;
      }
      f := Some(UartFrame(Join(buffer[4], buffer[5], buffer[6], buffer[7]), buffer[8], buffer[9], buffer[10], buffer[11],
                          buffer[HEADER_BYTES..total - 1]));
    }
  }

  // ---------------------------------------------------------------- streams

  /** Parsing a byte stream: what is held at the end and the frames produced. */
  function Parse(buf: seq<Byte>, bytes: seq<Byte>): (r: (seq<Byte>, seq<UartFrame>))
    requires Parsing(buf)
    ensures Parsing(r.0)
    decreases |bytes|
  {
    if bytes == [] then (buf, [])
    else
      var (next, f) := Push(buf, bytes[0]);
      var (last, fs) := Parse(next, bytes[1..]);
      (last, if f.Some? then [f.value] + fs else fs)
  }

  ghost predicate AllEncodable(fs: seq<UartFrame>) {
    forall f :: f in fs ==> Encodable(f)
  }

  function EncodeAll(fs: seq<UartFrame>): seq<Byte>
    requires AllEncodable(fs)
  {
    if fs == [] then [] else Encode(fs[0]) + EncodeAll(fs[1..])
  }

  /** Bytes that have the shape of one encoded frame: the magic, a length byte that matches, no more. */
  predicate FrameShaped(bytes: seq<Byte>) {
    && |bytes| >= HEADER_BYTES + 1
    && bytes[..4] == MAGIC
    && bytes[12] as nat <= FRAME_BYTES
    && |bytes| == HEADER_BYTES + (bytes[12] as nat) + 1
  }

  predicate GoodChecksum(bytes: seq<Byte>)
    requires FrameShaped(bytes)
  {
    bytes[|bytes| - 1] == Fold(bytes[4..|bytes| - 1])
  }

  /** A byte of a frame-shaped sequence is kept, and the last one completes or drops the frame. */
  lemma PushShaped(bytes: seq<Byte>, n: nat)
    requires FrameShaped(bytes) && n < |bytes|
    ensures Parsing(bytes[..n])
    ensures Push(bytes[..n], bytes[n])
         == if n + 1 < |bytes| then (bytes[..n + 1], None)
            else ([], if GoodChecksum(bytes) then Some(DecodeBuffer(bytes)) else None)
  {
    hide Fold, DecodeBuffer;
    ShapedMagic(bytes);
    assert bytes[..n] + [bytes[n]] == bytes[..n + 1];
    if n + 1 == |bytes| {
      assert bytes[..n + 1] == bytes;
    }
  }

  lemma ShapedMagic(bytes: seq<Byte>)
    requires FrameShaped(bytes)
    ensures forall i :: 0 <= i < 4 ==> bytes[i] == MAGIC[i]
  {
    forall i | 0 <= i < 4 ensures bytes[i] == MAGIC[i] {
      assert bytes[i] == bytes[..4][i];
    }
  }

  /** Frame-shaped bytes are consumed whole, leave the parser empty, and give a frame if and only if the
      checksum is right. */
  lemma {:induction false} ParseShaped(bytes: seq<Byte>, n: nat, tail: seq<Byte>)
    requires FrameShaped(bytes) && n < |bytes|
    ensures Parsing(bytes[..n])
    ensures var (last, fs) := Parse([], tail);
            Parse(bytes[..n], bytes[n..] + tail) == (last, if GoodChecksum(bytes) then [DecodeBuffer(bytes)] + fs else fs)
    decreases |bytes| - n
  {
    hide Push, Parsing, FrameShaped, GoodChecksum, DecodeBuffer;
    PushShaped(bytes, n);
    var rest := bytes[n..] + tail;
    assert rest[0] == bytes[n] && rest[1..] == bytes[n + 1..] + tail;
    if n + 1 < |bytes| {
      ParseShaped(bytes, n + 1, tail);
    } else {
      assert rest[1..] == tail;
    }
  }

  /** An encoded frame has the right shape and checksum and decodes to itself. */
  lemma EncodeIsShaped(f: UartFrame)
    requires Encodable(f)
    ensures FrameShaped(Encode(f)) && GoodChecksum(Encode(f)) && DecodeBuffer(Encode(f)) == f
  {
    hide ByteOf, Join, Fold, Header, DecodeBuffer;
    var bytes := Encode(f);
    EncodedLayout(f);
    ByteOfNat(|f.payload|);
    assert bytes[..4] == MAGIC;
    assert bytes[4..|bytes| - 1] == Body(f);
    DecodedFields(f);
  }

  /** Where the fields of a frame lie in its encoding. */
  lemma EncodedLayout(f: UartFrame)
    requires Encodable(f)
    ensures var bytes := Encode(f);
            && (forall k :: 0 <= k < 4 ==> bytes[4 + k] == ByteOf(f.session, k))
            && bytes[8] == f.lane && bytes[9] == f.source && bytes[10] == f.peer && bytes[11] == f.frameLabel
            && bytes[12] == |f.payload| as Byte && bytes[HEADER_BYTES..HEADER_BYTES + |f.payload|] == f.payload
            && bytes[..4] == [0x48, 0x42, 0x55, 0x31] && bytes[|bytes| - 1] == Fold(bytes[4..|bytes| - 1])
  {
    hide ByteOf, Fold;
    var bytes, header := Encode(f), Header(f);
    assert bytes[4..|bytes| - 1] == Body(f);
    assert forall k :: 0 <= k < 9 ==> bytes[4 + k] == Body(f)[k] == header[k];
  }

  lemma DecodedFields(f: UartFrame)
    requires Encodable(f) && FrameShaped(Encode(f))
    ensures DecodeBuffer(Encode(f)) == f
  {
    hide ByteOf, Join, Fold, Encode;
    EncodedLayout(f);
    JoinOfBytes(f.session);
    ByteOfNat(|f.payload|);
    var bytes := Encode(f);
    assert bytes[4 + 0] == ByteOf(f.session, 0) && bytes[4 + 1] == ByteOf(f.session, 1);
    assert bytes[4 + 2] == ByteOf(f.session, 2) && bytes[4 + 3] == ByteOf(f.session, 3);
  }

  /** Every list of frames survives the serial line: parsed byte by byte from an empty parser it comes
      out again, and nothing is left over. */
  lemma {:induction false} UartRoundTrip(fs: seq<UartFrame>)
    requires AllEncodable(fs)
    ensures Parse([], EncodeAll(fs)) == ([], fs)
  {
    hide Encode, Push;
    if fs != [] {
      UartRoundTrip(fs[1..]);
      EncodeIsShaped(fs[0]);
      ParseShaped(Encode(fs[0]), 0, EncodeAll(fs[1..]));
      assert [fs[0]] + fs[1..] == fs;
      assert Encode(fs[0])[..0] == [] && Encode(fs[0])[0..] == Encode(fs[0]);
    }
  }

  /** Changing any one byte of an encoded frame other than the magic and the length byte loses that frame
      and nothing else: it is dropped, and the frames after it still decode. */
  lemma CorruptionIsContained(f: UartFrame, p: nat, b: Byte, fs: seq<UartFrame>)
    requires Encodable(f) && AllEncodable(fs)
    requires 4 <= p < |Encode(f)| && p != 12 && Encode(f)[p] != b
    ensures Parse([], Encode(f)[p := b] + EncodeAll(fs)) == ([], fs)
  {
    hide Push;
    var bytes := Encode(f);
    var bad := bytes[p := b];
    EncodeIsShaped(f);
    assert bad[..4] == bytes[..4];
    assert FrameShaped(bad);
    BadChecksum(bytes, p, b);
    UartRoundTrip(fs);
    ParseShaped(bad, 0, EncodeAll(fs));
    assert bad[..0] == [] && bad[0..] == bad;
  }

  lemma BadChecksum(bytes: seq<Byte>, p: nat, b: Byte)
    requires FrameShaped(bytes) && GoodChecksum(bytes)
    requires 4 <= p < |bytes| && p != 12 && bytes[p] != b && FrameShaped(bytes[p := b])
    ensures !GoodChecksum(bytes[p := b])
  {
    hide Fold, FrameShaped;
    var end := |bytes| - 1;
    if p == end {
      assert bytes[p := b][4..end] == bytes[4..end];
    } else {
      var body := bytes[4..end];
      assert bytes[p := b][4..end] == body[p - 4 := b];
      FoldUpdate(body, p - 4, b);
      XorDiffers(Fold(body), bytes[p], b);
    }
  }

  // ---------------------------------------------------------------- noise between frames

  /** The frames produced account for no more bytes than were received. */
  lemma {:induction false} ParseLength(buf: seq<Byte>, bytes: seq<Byte>)
    requires Parsing(buf)
    ensures AllEncodable(Parse(buf, bytes).1)
    ensures |Parse(buf, bytes).0| + |EncodeAll(Parse(buf, bytes).1)| <= |buf| + |bytes|
    decreases |bytes|
  {
    hide Encode;
    if bytes != [] {
      var (next, f) := Push(buf, bytes[0]);
      ParseLength(next, bytes[1..]);
      PushLength(buf, bytes[0]);
      if f.Some? {
        var rest := Parse(next, bytes[1..]).1;
        assert ([f.value] + rest)[1..] == rest;
      }
    }
  }

  lemma PushLength(buf: seq<Byte>, byte: Byte)
    requires Parsing(buf)
    ensures var (next, f) := Push(buf, byte);
            match f case None => |next| <= |buf| + 1 case Some(frame) => next == [] && |Encode(frame)| == |buf| + 1
  {
    hide Fold, Join, ByteOf;
  }

  /** One stray byte before a frame is skipped if and only if it is not the first magic byte: the parser
      drops a mismatching byte without trying it as the start of a frame, so that frame is lost. */
  lemma StrayByte(b: Byte, fs: seq<UartFrame>)
    requires AllEncodable(fs) && fs != []
    ensures Parse([], [b] + EncodeAll(fs)) == ([], fs) <==> b != MAGIC[0]
  {
    hide Encode, Fold;
    var all := EncodeAll(fs);
    var bytes := [b] + all;
    assert bytes[1..] == all;
    UartRoundTrip(fs);
    if b == MAGIC[0] {
      EncodeIsShaped(fs[0]);
      assert all[0] == Encode(fs[0])[0] == Encode(fs[0])[..4][0] == MAGIC[0];
      var out := Parse([], all[1..]).1;
      ParseLength([], all[1..]);
      assert Push([b], all[0]) == ([], None);
      assert Parse([b], all).1 == out;
      assert |EncodeAll(out)| < |all|;
    }
  }
}
