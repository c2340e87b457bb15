/** The LED matrix of the UNO Q: a face is packed into a bitmap, and a timer lights one LED at a time,
    walking round the bitmap from where it last stopped. */
module LedScan {
  import opened Wire

  const NUM_MATRIX_LEDS := 104
  const MATRIX_BYTES := 13
  const ROWS := 8
  const COLUMNS := 13
  const HASH: Byte := 0x23

  type Bitmap = b: seq<Byte> | |b| == MATRIX_BYTES witness seq(MATRIX_BYTES, _ => 0)

  type Face = f: seq<seq<Byte>> | |f| == ROWS && forall r :: 0 <= r < ROWS ==> |f[r]| == COLUMNS
    witness seq(ROWS, _ => seq(COLUMNS, _ => 0))

  // ---------------------------------------------------------------- bits of a byte

  function Mask(k: nat): Byte
    requires k < 8
  {
    match k case 0 => 1 case 1 => 2 case 2 => 4 case 3 => 8 case 4 => 16 case 5 => 32 case 6 => 64 case _ => 128
  }

  predicate BitOf(b: Byte, k: nat)
    requires k < 8
  {
    match k
    case 0 => b & 1 != 0
    case 1 => (b >> 1) & 1 != 0
    case 2 => (b >> 2) & 1 != 0
    case 3 => (b >> 3) & 1 != 0
    case 4 => (b >> 4) & 1 != 0
    case 5 => (b >> 5) & 1 != 0
    case 6 => (b >> 6) & 1 != 0
    case _ => (b >> 7) & 1 != 0
  }

  lemma MaskSetsOneBit(b: Byte, j: nat, k: nat)
    requires j < 8 && k < 8
    ensures BitOf(b | Mask(j), k) <==> j == k || BitOf(b, k)
  {
    hide BitOf, Mask;
    BitIsMasked(b, k);
    BitIsMasked(b | Mask(j), k);
    MasksAreDisjoint(j, k);
    OrThenMask(b, Mask(j), Mask(k));
    if j == k {
      MaskNonzero(b, k);
    } else {
      OrZero(b & Mask(k));
    }
  }

  lemma BitIsMasked(b: Byte, k: nat)
    requires k < 8
    ensures BitOf(b, k) <==> b & Mask(k) != 0
  {}

  /** Bits count from the least significant. */
  lemma BitIsShifted(b: Byte, k: nat)
    requires k < 8
    ensures BitOf(b, k) <==> (b >> k) & 1 == 1
    ensures Mask(k) == (1 as Byte) << k
  {}

  lemma MasksAreDisjoint(j: nat, k: nat)
    requires j < 8 && k < 8
    ensures Mask(j) & Mask(k) == if j == k then Mask(k) else 0
  {}

  lemma OrThenMask(a: Byte, b: Byte, m: Byte)
    ensures (a | b) & m == (a & m) | (b & m)
  {}

  lemma OrZero(a: Byte)
    ensures a | 0 == a
  {}

  lemma MaskNonzero(a: Byte, k: nat)
    requires k < 8
    ensures (a & Mask(k)) | Mask(k) != 0
  {}

  // ---------------------------------------------------------------- the lit LEDs

  predicate MatrixBit(bytes: Bitmap, index: nat) {
    index < NUM_MATRIX_LEDS && BitOf(bytes[index / 8], index % 8)
  }

  /** The lit LEDs among the first `n` positions met when walking round the matrix from `start`. */
  function LitFrom(bytes: Bitmap, start: nat, n: nat): seq<nat> {
    if n == 0 then []
    else
      var index := (start + n - 1) % NUM_MATRIX_LEDS;
      if MatrixBit(bytes, index) then LitFrom(bytes, start, n - 1) + [index] else LitFrom(bytes, start, n - 1)
  }

  /** All the lit LEDs, in the order in which a walk from `start` meets them. */
  function Round(bytes: Bitmap, start: nat): seq<nat> {
    LitFrom(bytes, start, NUM_MATRIX_LEDS)
  }

  lemma {:induction false} LitFromSplit(bytes: Bitmap, start: nat, a: nat, b: nat)
    ensures LitFrom(bytes, start, a + b) == LitFrom(bytes, start, a) + LitFrom(bytes, start + a, b)
  {
    hide MatrixBit;
    if b > 0 {
      LitFromSplit(bytes, start, a, b - 1);
    }
  }

  lemma OnceRound(n: nat)
    ensures (n + NUM_MATRIX_LEDS) % NUM_MATRIX_LEDS == n % NUM_MATRIX_LEDS
  {}

  lemma {:induction false} LitFromWraps(bytes: Bitmap, start: nat, n: nat)
    ensures LitFrom(bytes, start + NUM_MATRIX_LEDS, n) == LitFrom(bytes, start, n)
  {
    hide MatrixBit;
    if n > 0 {
      LitFromWraps(bytes, start, n - 1);
      OnceRound(start + n - 1);
      assert start + NUM_MATRIX_LEDS + n - 1 == start + n - 1 + NUM_MATRIX_LEDS;
    }
  }

  lemma {:induction false} LitFromReduced(bytes: Bitmap, start: nat, n: nat)
    ensures LitFrom(bytes, start % NUM_MATRIX_LEDS, n) == LitFrom(bytes, start, n)
  {
    hide MatrixBit;
    if n > 0 {
      LitFromReduced(bytes, start, n - 1);
      Reduce(start, n - 1);
    }
  }

  /** How far round from `start` the LED lies. */
  function Offset(start: nat, index: nat): nat {
    (index + NUM_MATRIX_LEDS - start % NUM_MATRIX_LEDS) % NUM_MATRIX_LEDS
  }

  lemma OffsetOfLast(start: nat, n: nat, index: nat)
    requires 0 < n <= NUM_MATRIX_LEDS && index < NUM_MATRIX_LEDS
    ensures Offset(start, index) == n - 1 <==> index == (start + n - 1) % NUM_MATRIX_LEDS
  {
    var s := start % NUM_MATRIX_LEDS;
    Reduce(start, n - 1);
    assert Offset(start, index) == if index >= s then index - s else index + NUM_MATRIX_LEDS - s;
  }

  lemma Reduce(start: nat, n: nat)
    ensures (start % NUM_MATRIX_LEDS + n) % NUM_MATRIX_LEDS == (start + n) % NUM_MATRIX_LEDS
  {}

  lemma {:induction false} LitFromCounts(bytes: Bitmap, start: nat, n: nat, index: nat)
    requires n <= NUM_MATRIX_LEDS && index < NUM_MATRIX_LEDS
    ensures multiset(LitFrom(bytes, start, n))[index]
         == if MatrixBit(bytes, index) && Offset(start, index) < n then 1 else 0
  {
    hide MatrixBit, Offset;
    if n > 0 {
      LitFromCounts(bytes, start, n - 1, index);
      var last := (start + n - 1) % NUM_MATRIX_LEDS;
      OffsetOfLast(start, n, index);
      assert multiset(LitFrom(bytes, start, n - 1) + [last])
          == multiset(LitFrom(bytes, start, n - 1)) + multiset([last]);
    }
  }

  /** A round meets every lit LED exactly once and no dark one. */
  lemma RoundIsExact(bytes: Bitmap, start: nat, index: nat)
    requires index < NUM_MATRIX_LEDS
    ensures multiset(Round(bytes, start))[index] == if MatrixBit(bytes, index) then 1 else 0
  {
    hide MatrixBit, LitFrom;
    LitFromCounts(bytes, start, NUM_MATRIX_LEDS, index);
  }

  lemma {:induction false} LitFromAgrees(a: Bitmap, b: Bitmap, n: nat)
    requires n <= NUM_MATRIX_LEDS
    requires forall i :: 0 <= i < n ==> (MatrixBit(a, i) <==> MatrixBit(b, i))
    ensures LitFrom(a, 0, n) == LitFrom(b, 0, n)
  {
    hide MatrixBit;
    if n > 0 {
      LitFromAgrees(a, b, n - 1);
    }
  }

  // ---------------------------------------------------------------- the scan

  /** The LED `k` places on from `start`, going round, is lit. */
  predicate LitAt(bytes: Bitmap, start: nat, k: nat) {
    MatrixBit(bytes, (start + k) % NUM_MATRIX_LEDS)
  }

  lemma NoneIsLit(bytes: Bitmap, start: nat)
    requires Round(bytes, start) == []
    ensures forall i :: 0 <= i < NUM_MATRIX_LEDS ==> !MatrixBit(bytes, i)
  {
    hide MatrixBit, Round;
    forall i | 0 <= i < NUM_MATRIX_LEDS ensures !MatrixBit(bytes, i) {
      RoundIsExact(bytes, start, i);
    }
  }

  /** `next_lit_index`: the first lit LED at or after `start`, going round. */
  method NextLitIndex(bytes: Bitmap, start: nat) returns (r: Option<nat>)
    ensures r == var lit := Round(bytes, start); if lit == [] then None else Some(lit[0])
    ensures r == None ==> forall k :: 0 <= k < NUM_MATRIX_LEDS ==> !LitAt(bytes, start, k)
    ensures r.Some? ==> MatrixBit(bytes, r.value)
    ensures r.Some? ==> exists n :: 0 <= n < NUM_MATRIX_LEDS && r.value == (start + n) % NUM_MATRIX_LEDS && LitAt(bytes, start, n)
                                    && forall k :: 0 <= k < n ==> !LitAt(bytes, start, k)
  {
    hide MatrixBit;
    var offset := 0;
    while offset < NUM_MATRIX_LEDS
      invariant 0 <= offset <= NUM_MATRIX_LEDS
      invariant LitFrom(bytes, start, offset) == []
      invariant forall k :: 0 <= k < offset ==> !LitAt(bytes, start, k)
    {
      var index := (start + offset) % NUM_MATRIX_LEDS;
      assert LitAt(bytes, start, offset) <==> MatrixBit(bytes, index);
      if MatrixBit(bytes, index) {
        LitFromSplit(bytes, start, offset + 1, NUM_MATRIX_LEDS - offset - 1);
        return Some(index);
      }
      offset := offset + 1;
    }
    r := None;
  }

  function StartOf(scanIndex: nat): nat {
    if scanIndex < NUM_MATRIX_LEDS then scanIndex else 0
  }

  /** One refresh: the LED that is lit, and the scan index it leaves. */
  function Refresh(bytes: Bitmap, scanIndex: nat): (Option<nat>, nat) {
    var lit := Round(bytes, StartOf(scanIndex));
    if lit == [] then (None, 0) else (Some(lit[0]), (lit[0] + 1) % NUM_MATRIX_LEDS)
  }

  /** What `m` refreshes in a row light. */
  function Shown(bytes: Bitmap, scanIndex: nat, m: nat): (shown: seq<Option<nat>>)
    ensures |shown| == m
    decreases m
  {
    if m == 0 then []
    else
      var (led, next) := Refresh(bytes, scanIndex);
      [led] + Shown(bytes, next, m - 1)
  }

  /** A refresh moves the LED it lights to the back of the round. */
  lemma RefreshRotates(bytes: Bitmap, scanIndex: nat)
    requires Round(bytes, StartOf(scanIndex)) != []
    ensures var round := Round(bytes, StartOf(scanIndex));
            Round(bytes, StartOf(Refresh(bytes, scanIndex).1)) == round[1..] + [round[0]]
  {
    hide MatrixBit, LitFrom;
    var start := StartOf(scanIndex);
    var round := Round(bytes, start);
    var o := FirstOffset(bytes, start);
    var rest := NUM_MATRIX_LEDS - o - 1;
    LitFromSplit(bytes, start, o + 1, rest);
    assert o + 1 + rest == NUM_MATRIX_LEDS && round[1..] == LitFrom(bytes, start + o + 1, rest);
    var next := Refresh(bytes, scanIndex).1;
    assert next == (start + o + 1) % NUM_MATRIX_LEDS;
    LitFromReduced(bytes, start + o + 1, NUM_MATRIX_LEDS);
    LitFromSplit(bytes, start + o + 1, rest, o + 1);
    assert start + o + 1 + rest == start + NUM_MATRIX_LEDS;
    LitFromWraps(bytes, start, o + 1);
  }

  lemma {:induction false} FirstOffset(bytes: Bitmap, start: nat) returns (o: nat)
    requires Round(bytes, start) != []
    ensures o < NUM_MATRIX_LEDS && Round(bytes, start)[0] == (start + o) % NUM_MATRIX_LEDS
    ensures LitFrom(bytes, start, o + 1) == [Round(bytes, start)[0]]
  {
    hide MatrixBit;
    o := 0;
    while LitFrom(bytes, start, o + 1) == []
      invariant o < NUM_MATRIX_LEDS && LitFrom(bytes, start, o) == []
      decreases NUM_MATRIX_LEDS - o
    {
      o := o + 1;
    }
    LitFromSplit(bytes, start, o + 1, NUM_MATRIX_LEDS - o - 1);
  }

  /** Scan fairness: with k lit LEDs and from any scan index, refresh j lights entry j mod k of one fixed
      round, a round that holds every lit LED exactly once. */
  lemma {:induction false} ScanIsFair(bytes: Bitmap, scanIndex: nat, m: nat, j: nat)
    requires j < m && Round(bytes, StartOf(scanIndex)) != []
    ensures var round := Round(bytes, StartOf(scanIndex));
            Shown(bytes, scanIndex, m)[j] == Some(round[j % |round|])
    decreases m
  {
    hide MatrixBit, LitFrom, Round;
    var round := Round(bytes, StartOf(scanIndex));
    var k := |round|;
    if j > 0 {
      var next := Refresh(bytes, scanIndex).1;
      RefreshRotates(bytes, scanIndex);
      ScanIsFair(bytes, next, m - 1, j - 1);
      NextRemainder(j - 1, k);
    }
  }

  lemma NextRemainder(j: nat, k: nat)
    requires k > 0
    ensures (j + 1) % k == if j % k + 1 == k then 0 else j % k + 1
  {
    var q, r := j / k, j % k;
    assert j == q * k + r;
    if r + 1 == k {
      assert j + 1 == (q + 1) * k;
      RemainderIs(j + 1, k, q + 1, 0);
    } else {
      RemainderIs(j + 1, k, q, r + 1);
    }
  }

  lemma RemainderIs(n: nat, k: nat, q: nat, r: nat)
    requires k > 0 && r < k && n == q * k + r
    ensures n % k == r
  {
    var q', r' := n / k, n % k;
    SameDivision(k, q, r, q', r');
  }

  lemma SameDivision(k: nat, q: nat, r: nat, q': nat, r': nat)
    requires r < k && r' < k && q * k + r == q' * k + r'
    ensures q == q' && r == r'
  {
    if q' < q {
      Gap(k, q', q);
    } else if q < q' {
      Gap(k, q, q');
    }
  }

  lemma {:induction false} Gap(k: nat, lo: nat, hi: nat)
    requires lo < hi
    ensures hi * k >= lo * k + k
    decreases hi
  {
    assert hi * k == (hi - 1) * k + k;
    if lo < hi - 1 {
      Gap(k, lo, hi - 1);
    }
  }

  // ---------------------------------------------------------------- drawing a face

  /** A cell of the face, counting row by row. */
  predicate Cell(rows: Face, index: nat)
    requires index < NUM_MATRIX_LEDS
  {
    rows[index / COLUMNS][index % COLUMNS] == HASH
  }

  /** The bitmap shows the first `n` cells of the face, and nothing after them. */
  ghost predicate Draws(bytes: Bitmap, rows: Face, n: nat) {
    forall i :: 0 <= i < NUM_MATRIX_LEDS ==> (MatrixBit(bytes, i) <==> i < n && Cell(rows, i))
  }

  lemma SetBitAt(before: Bitmap, after: Bitmap, n: nat, i: nat)
    requires n < NUM_MATRIX_LEDS && i < NUM_MATRIX_LEDS
    requires after == before[n / 8 := before[n / 8] | Mask(n % 8)]
    ensures MatrixBit(after, i) <==> i == n || MatrixBit(before, i)
  {
    hide BitOf, Mask;
    SamePlace(i, n);
    if i / 8 == n / 8 {
      MaskSetsOneBit(before[n / 8], n % 8, i % 8);
    }
  }

  lemma SamePlace(i: nat, n: nat)
    ensures i == n <==> i / 8 == n / 8 && i % 8 == n % 8
  {}

  lemma DrawCell(before: Bitmap, after: Bitmap, rows: Face, n: nat)
    requires n < NUM_MATRIX_LEDS && Draws(before, rows, n) && Cell(rows, n)
    requires after == before[n / 8 := before[n / 8] | Mask(n % 8)]
    ensures Draws(after, rows, n + 1)
  {
    hide BitOf, Mask, Cell, MatrixBit;
    forall i | 0 <= i < NUM_MATRIX_LEDS ensures MatrixBit(after, i) <==> i < n + 1 && Cell(rows, i) {
      SetBitAt(before, after, n, i);
    }
  }

  class LedRendererState {
    const packed: array<Byte>
    var scanIndex: nat

    ghost predicate Valid()
      reads this, packed
    {
      packed.Length == MATRIX_BYTES && scanIndex < 0x100
    }

    constructor ()
      ensures Valid() && fresh(packed) && scanIndex == 0 && Draws(packed[..], seq(ROWS, _ => seq(COLUMNS, _ => 0)), 0)
    {
      packed := new Byte[MATRIX_BYTES](_ => 0);
      scanIndex := 0;
    }

    /** Draws a face: the lit LEDs are exactly its '#' cells, and `bits` counts them. */
    method WriteFace(rows: Face) returns (bits: nat)
      requires Valid()
      modifies packed
      ensures Valid() && Draws(packed[..], rows, NUM_MATRIX_LEDS)
      ensures forall row, col :: 0 <= row < ROWS && 0 <= col < COLUMNS ==>
                (MatrixBit(packed[..], row * COLUMNS + col) <==> rows[row][col] == 0x23)
      ensures bits == |Round(packed[..], 0)|
    {
      hide MatrixBit, LitFrom, Draws, Cell;
      Clear(rows);
      bits := 0;
      var row := 0;
      while row < ROWS
        invariant 0 <= row <= ROWS
        invariant Draws(packed[..], rows, row * COLUMNS)
        invariant bits == |LitFrom(packed[..], 0, row * COLUMNS)|
      {
        var col := 0;
        while col < COLUMNS
          invariant 0 <= col <= COLUMNS
          invariant Draws(packed[..], rows, row * COLUMNS + col)
          invariant bits == |LitFrom(packed[..], 0, row * COLUMNS + col)|
        {
          var bit := row * COLUMNS + col;
          ghost var before := packed[..];
          CellAt(rows, row, col);
          if rows[row][col] == HASH {
            packed[bit / 8] := packed[bit / 8] | Mask(bit % 8);
            bits := bits + 1;
            assert packed[..] == before[bit / 8 := before[bit / 8] | Mask(bit % 8)];
            DrawCell(before, packed[..], rows, bit);
            OneMore(before, packed[..], rows, bit);
          } else {
            SkipCell(packed[..], rows, bit);
          }
          col := col + 1;
        }
        row := row + 1;
      }
      CellsAreDrawn(packed[..], rows);
    }

    method Clear(ghost rows: Face)
      requires Valid()
      modifies packed
      ensures Valid() && Draws(packed[..], rows, 0) && LitFrom(packed[..], 0, 0) == []
    {
      var i := 0;
      while i < MATRIX_BYTES
        invariant 0 <= i <= MATRIX_BYTES
        invariant forall k :: 0 <= k < i ==> packed[k] == 0
      {
        packed[i] := 0;
        i := i + 1;
      }
    }

    /** Lights the next LED of the round and steps past it; with nothing lit the scan starts over. */
    method RefreshMatrix() returns (lit: Option<nat>)
      requires Valid()
      modifies this`scanIndex
      ensures Valid()
      ensures (lit, scanIndex) == Refresh(packed[..], old(scanIndex))
      ensures lit == None ==> scanIndex == 0 && forall i :: 0 <= i < NUM_MATRIX_LEDS ==> !MatrixBit(packed[..], i)
      ensures lit.Some? ==> lit.value < NUM_MATRIX_LEDS && MatrixBit(packed[..], lit.value)
                            && scanIndex == if lit.value == NUM_MATRIX_LEDS - 1 then 0 else lit.value + 1
      ensures var start := if old(scanIndex) < 104 then old(scanIndex) else 0;
              lit.Some? ==> exists n :: 0 <= n < NUM_MATRIX_LEDS && lit.value == (start + n) % NUM_MATRIX_LEDS && LitAt(packed[..], start, n)
                                        && forall k :: 0 <= k < n ==> !LitAt(packed[..], start, k)
    {
      hide MatrixBit, LitFrom;
      lit := NextLitIndex(packed[..], StartOf(scanIndex));
      if lit.None? {
        NoneIsLit(packed[..], StartOf(scanIndex));
      }
      scanIndex := if lit.None? then 0 else (lit.value + 1) % NUM_MATRIX_LEDS;
    }
  }

  lemma CellAt(rows: Face, row: nat, col: nat)
    requires row < ROWS && col < COLUMNS
    ensures Cell(rows, row * COLUMNS + col) <==> rows[row][col] == HASH
  {}

  lemma CellsAreDrawn(bytes: Bitmap, rows: Face)
    requires Draws(bytes, rows, NUM_MATRIX_LEDS)
    ensures forall row, col :: 0 <= row < ROWS && 0 <= col < COLUMNS ==>
              (MatrixBit(bytes, row * COLUMNS + col) <==> rows[row][col] == 0x23)
  {
    hide MatrixBit, Cell;
    forall row, col | 0 <= row < ROWS && 0 <= col < COLUMNS
      ensures MatrixBit(bytes, row * COLUMNS + col) <==> rows[row][col] == 0x23
    {
      CellAt(rows, row, col);
      assert row * COLUMNS + col < NUM_MATRIX_LEDS;
    }
  }

  lemma OneMore(before: Bitmap, after: Bitmap, rows: Face, n: nat)
    requires n < NUM_MATRIX_LEDS && Draws(before, rows, n) && Draws(after, rows, n + 1) && Cell(rows, n)
    ensures |LitFrom(after, 0, n + 1)| == |LitFrom(before, 0, n)| + 1
  {
    hide MatrixBit, Cell;
    LitFromAgrees(before, after, n);
  }

  lemma SkipCell(bytes: Bitmap, rows: Face, n: nat)
    requires n < NUM_MATRIX_LEDS && Draws(bytes, rows, n) && !Cell(rows, n)
    ensures Draws(bytes, rows, n + 1) && LitFrom(bytes, 0, n + 1) == LitFrom(bytes, 0, n)
  {
    hide MatrixBit, Cell;
  }

  /** A drawn face is scanned whole: each window of k refreshes, k the number of '#' cells, lights
      every '#' cell once and nothing else. */
  lemma FaceIsScanned(bytes: Bitmap, rows: Face, scanIndex: nat, index: nat)
    requires Draws(bytes, rows, NUM_MATRIX_LEDS) && index < NUM_MATRIX_LEDS
    ensures var k := |Round(bytes, StartOf(scanIndex))|;
            multiset(Shown(bytes, scanIndex, k))[Some(index)] == if Cell(rows, index) then 1 else 0
  {
    hide MatrixBit, LitFrom, Cell, Round, StartOf, Shown, Refresh;
    var round := Round(bytes, StartOf(scanIndex));
    var shown := Shown(bytes, scanIndex, |round|);
    RoundIsExact(bytes, StartOf(scanIndex), index);
    assert MatrixBit(bytes, index) <==> Cell(rows, index);
    forall j | 0 <= j < |round| ensures shown[j] == Some(round[j]) {
      ScanIsFair(bytes, scanIndex, |round|, j);
    }
    SameCount(round, shown, index);
  }

  lemma {:induction false} SameCount(round: seq<nat>, shown: seq<Option<nat>>, index: nat)
    requires |round| == |shown| && forall j :: 0 <= j < |round| ==> shown[j] == Some(round[j])
    ensures multiset(shown)[Some(index)] == multiset(round)[index]
  {
    if round != [] {
      var n := |round| - 1;
      SameCount(round[..n], shown[..n], index);
      assert round == round[..n] + [round[n]] && shown == shown[..n] + [shown[n]];
    }
  }
}
