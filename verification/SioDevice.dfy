/** The SIO block: two eight-word mailboxes between the cores, with their status word and sticky error
    flags, and the guarded access the carriers use. */
module SioDevice {
  import opened Wire

  const FIFO_DEPTH := 8

  const CPUID := 0x000
  const FIFO_ST := 0x050
  const FIFO_WR := 0x054
  const FIFO_RD := 0x058

  const ST_VLD: Word := 1
  const ST_RDY: Word := 2
  const ST_WOF: Word := 4
  const ST_ROE: Word := 8

  /** Position `i` of a ring that starts at `head`. */
  function Place(head: nat, i: nat): (slot: nat)
    requires head < FIFO_DEPTH && i <= FIFO_DEPTH
    ensures slot < FIFO_DEPTH && slot == (if head + i < FIFO_DEPTH then head + i else head + i - FIFO_DEPTH)
  {
    (head + i) % FIFO_DEPTH
  }

  /** One direction of the inter-core FIFO: a ring of eight words. */
  class Mailbox {
    const words: array<Word>
    var head: nat
    var len: nat

    ghost predicate Valid()
      reads this
    {
      words.Length == FIFO_DEPTH && head < FIFO_DEPTH && len <= FIFO_DEPTH
    }

    /** The words waiting, oldest first. */
    ghost function Contents(): (s: seq<Word>)
      reads this, words
      requires Valid()
      ensures |s| == len
    {
      seq(len, i requires 0 <= i < len reads this, words requires Valid() => words[Place(head, i)])
    }

    constructor ()
      ensures Valid() && Contents() == [] && fresh(words)
    {
      words := new Word[FIFO_DEPTH](_ => 0);
      head, len := 0, 0;
    }

    predicate Full()
      reads this
    {
      len == FIFO_DEPTH
    }

    predicate Empty()
      reads this
    {
      len == 0
    }

    method Push(value: Word)
      requires Valid() && !Full()
      modifies this`len, words
      ensures Valid() && Contents() == old(Contents()) + [value]
    {
      hide Place;
      var slot := Place(head, len);
      words[slot] := value;
      len := len + 1;
    }

    method Pop() returns (value: Word)
      requires Valid() && !Empty()
      modifies this
      ensures Valid() && [value] + Contents() == old(Contents())
    {
      hide Place;
      value := words[head];
      head := Place(head, 1);
      len := len - 1;
    }
  }

  // ---------------------------------------------------------------- the block as a value

  type CoreId = c: nat | c < 2

  /** What the block holds: `fifo[c]` is written by core `c` and read by the other core. */
  datatype Device = Device(fifo: seq<seq<Word>>, wof: seq<bool>, roe: seq<bool>)

  predicate WellFormed(d: Device) {
    |d.fifo| == |d.wof| == |d.roe| == 2 && |d.fifo[0]| <= FIFO_DEPTH && |d.fifo[1]| <= FIFO_DEPTH
  }

  const RESET: Device := Device([[], []], [false, false], [false, false])

  function Readable(d: Device, core: CoreId): bool
    requires WellFormed(d)
  {
    d.fifo[1 - core] != []
  }

  function Writable(d: Device, core: CoreId): bool
    requires WellFormed(d)
  {
    |d.fifo[core]| < FIFO_DEPTH
  }

  /** A write to FIFO_WR: lost, with WOF raised, when the FIFO is full. */
  function WriteFifo(d: Device, core: CoreId, value: Word): (d': Device)
    requires WellFormed(d)
    ensures WellFormed(d')
  {
    if Writable(d, core) then d.(fifo := d.fifo[core := d.fifo[core] + [value]])
    else d.(wof := d.wof[core := true])
  }

  /** A read of FIFO_RD: zero, with ROE raised, when the FIFO is empty. */
  function ReadFifo(d: Device, core: CoreId): (r: (Device, Word))
    requires WellFormed(d)
    ensures WellFormed(r.0)
  {
    if Readable(d, core) then (d.(fifo := d.fifo[1 - core := d.fifo[1 - core][1..]]), d.fifo[1 - core][0])
    else (d.(roe := d.roe[core := true]), 0)
  }

  function ClearErrors(d: Device, core: CoreId, wof: bool, roe: bool): (d': Device)
    requires WellFormed(d)
    ensures WellFormed(d')
  {
    d.(wof := if wof then d.wof[core := false] else d.wof, roe := if roe then d.roe[core := false] else d.roe)
  }

  /** The memory-mapped block. `core` is the core performing the access. */
  class SioBlock {
    const fifo0: Mailbox
    const fifo1: Mailbox
    var stickyWof: seq<bool>
    var stickyRoe: seq<bool>

    ghost const Repr: set<object> := {this, fifo0, fifo0.words, fifo1, fifo1.words}

    ghost predicate Valid()
      reads this, fifo0, fifo1
    {
      && fifo0.Valid() && fifo1.Valid()
      && fifo0 != fifo1 && fifo0.words != fifo1.words
      && |stickyWof| == |stickyRoe| == 2
    }

    ghost function Abs(): (d: Device)
      reads this, fifo0, fifo0.words, fifo1, fifo1.words
      requires Valid()
      ensures WellFormed(d)
    {
      Device([fifo0.Contents(), fifo1.Contents()], stickyWof, stickyRoe)
    }

    constructor ()
      ensures Valid() && fresh(Repr) && Abs() == RESET
      ensures Abs() == Device([[], []], [false, false], [false, false])
    {
      fifo0 := new Mailbox();
      fifo1 := new Mailbox();
      stickyWof, stickyRoe := [false, false], [false, false];
    }

    function RxFifo(core: CoreId): Mailbox {
      if core == 0 then fifo1 else fifo0
    }

    function TxFifo(core: CoreId): Mailbox {
      if core == 0 then fifo0 else fifo1
    }

    method FifoStatus(core: CoreId) returns (status: Word)
      requires Valid()
      ensures (status & ST_VLD != 0) == (Abs().fifo[1 - core] != [])
      ensures (status & ST_RDY != 0) == (|Abs().fifo[core]| < FIFO_DEPTH)
      ensures (status & ST_WOF != 0) == Abs().wof[core]
      ensures (status & ST_ROE != 0) == Abs().roe[core]
    {
      status := 0;
      if !RxFifo(core).Empty() { status := status | ST_VLD; }
      if !TxFifo(core).Full() { status := status | ST_RDY; }
      if stickyWof[core] { status := status | ST_WOF; }
      if stickyRoe[core] { status := status | ST_ROE; }
    }

    /** A 32-bit read by `core` of anything but the two GPIO registers, whose state is not modelled. */
    method Read(core: CoreId, addr: nat) returns (value: Word)
      requires Valid() && !(0x010 <= addr <= 0x02c)
      modifies Repr
      ensures Valid()
      ensures addr == FIFO_RD ==> (Abs(), value) == ReadFifo(old(Abs()), core)
      // an empty FIFO gives 0 and raises this core's ROE; otherwise the oldest word leaves
      ensures addr == FIFO_RD ==> var d, d' := old(Abs()), Abs();
                && d'.wof == d.wof && d'.roe[1 - core] == d.roe[1 - core] && d'.fifo[core] == d.fifo[core]
                && (d.fifo[1 - core] == [] ==> value == 0 && d'.roe[core] && d'.fifo[1 - core] == [])
                && (d.fifo[1 - core] != [] ==> d'.roe[core] == d.roe[core] && [value] + d'.fifo[1 - core] == d.fifo[1 - core])
      ensures addr != FIFO_RD ==> Abs() == old(Abs())
      ensures addr == FIFO_ST ==>
                && (value & ST_VLD != 0) == (Abs().fifo[1 - core] != []) && (value & ST_RDY != 0) == (|Abs().fifo[core]| < FIFO_DEPTH)
                && (value & ST_WOF != 0) == Abs().wof[core] && (value & ST_ROE != 0) == Abs().roe[core]
      ensures addr == CPUID ==> value == if core == 1 then 1 else 0
      ensures addr !in {CPUID, FIFO_ST, FIFO_RD} ==> value == 0
    {
      if addr == CPUID {
        return if core == 1 then 1 else 0;
      }
      if addr == FIFO_ST {
        value := FifoStatus(core);
      } else if addr == FIFO_RD {
        var rx := RxFifo(core);
        ghost var before := rx.Contents();
        if rx.Empty() {
          stickyRoe := stickyRoe[core := true];
          return 0;
        }
        value := rx.Pop();
        assert rx.Contents() == before[1..];
        assert Abs().fifo == old(Abs()).fifo[1 - core := before[1..]];
      } else {
        value := 0;   // the spinlock status, and offsets without a register
      }
    }

    /** A 32-bit write by `core` of anything but the GPIO registers. */
    method Write(core: CoreId, addr: nat, value: Word)
      requires Valid() && !(0x010 <= addr <= 0x02c)
      modifies Repr
      ensures Valid()
      ensures addr == FIFO_ST ==> Abs() == ClearErrors(old(Abs()), core, value & ST_WOF != 0, value & ST_ROE != 0)
      // each flag of this core whose bit is set goes down
      ensures addr == FIFO_ST ==> var d, d' := old(Abs()), Abs();
                && d'.fifo == d.fifo && d'.wof[1 - core] == d.wof[1 - core] && d'.roe[1 - core] == d.roe[1 - core]
                && (d'.wof[core] <==> d.wof[core] && value & ST_WOF == 0)
                && (d'.roe[core] <==> d.roe[core] && value & ST_ROE == 0)
      ensures addr == FIFO_WR ==> Abs() == WriteFifo(old(Abs()), core, value)
      // a full FIFO stays as it is and raises this core's WOF; otherwise the word joins it
      ensures addr == FIFO_WR ==> var d, d' := old(Abs()), Abs();
                && d'.roe == d.roe && d'.wof[1 - core] == d.wof[1 - core] && d'.fifo[1 - core] == d.fifo[1 - core]
                && (|d.fifo[core]| == FIFO_DEPTH ==> d'.wof[core] && d'.fifo[core] == d.fifo[core])
                && (|d.fifo[core]| < FIFO_DEPTH ==> d'.wof[core] == d.wof[core] && d'.fifo[core] == d.fifo[core] + [value])
      ensures addr !in {FIFO_ST, FIFO_WR} ==> Abs() == old(Abs())
    {
      if addr == FIFO_ST {
        if value & ST_WOF != 0 { stickyWof := stickyWof[core := false]; }
        if value & ST_ROE != 0 { stickyRoe := stickyRoe[core := false]; }
      } else if addr == FIFO_WR {
        var tx := TxFifo(core);
        if tx.Full() {
          stickyWof := stickyWof[core := true];
        } else {
          tx.Push(value);
        }
      }
    }

    /** Pushes only after the status word says there is room. */
    method TryPush(core: CoreId, word: Word) returns (ok: bool)
      requires Valid()
      modifies Repr
      ensures Valid()
      ensures ok == (|old(Abs()).fifo[core]| < FIFO_DEPTH)
      ensures Abs() == if ok then WriteFifo(old(Abs()), core, word) else old(Abs())
    {
      var status := Read(core, FIFO_ST);
      if status & ST_RDY == 0 {
        return false;
      }
      Write(core, FIFO_WR, word);
      return true;
    }

    /** Pops only after the status word says there is a word. */
    method TryPop(core: CoreId) returns (word: Option<Word>)
      requires Valid()
      modifies Repr
      ensures Valid()
      ensures word.Some? == (old(Abs()).fifo[1 - core] != [])
      ensures word.None? ==> Abs() == old(Abs())
      ensures word.Some? ==> (Abs(), word.value) == ReadFifo(old(Abs()), core)
    {
      var status := Read(core, FIFO_ST);
      if status & ST_VLD != 0 {
        var value := Read(core, FIFO_RD);
        return Some(value);
      }
      return None;
    }
  }

  // ---------------------------------------------------------------- guarded access under interference

  /** Where a core stands between the status read and the data access of `try_push` / `try_pop`. */
  datatype Guard = Outside | MayWrite(word: Word) | MayRead

  /** The block, both cores' positions, and what each core has written and read so far. */
  datatype Shared = Shared(dev: Device, guard: seq<Guard>, written: seq<seq<Word>>, read: seq<seq<Word>>)

  datatype Access =
    | CheckPush(core: CoreId, word: Word)   // status read of try_push
    | CheckPop(core: CoreId)                // status read of try_pop
    | Commit(core: CoreId)                  // the data access a successful check allows

  /** One access of one core. The two cores' accesses may come in any order. */
  function Perform(s: Shared, a: Access): Shared
    requires WellFormed(s.dev) && |s.guard| == |s.written| == |s.read| == 2
  {
    var c: CoreId := a.core;
    match a
    case CheckPush(_, word) =>
      if s.guard[c] != Outside then s
      else if Writable(s.dev, c) then s.(guard := s.guard[c := MayWrite(word)]) else s
    case CheckPop(_) =>
      if s.guard[c] != Outside then s
      else if Readable(s.dev, c) then s.(guard := s.guard[c := MayRead]) else s
    case Commit(_) =>
      match s.guard[c]
      case Outside => s
      case MayWrite(word) =>
        s.(dev := WriteFifo(s.dev, c, word), guard := s.guard[c := Outside], written := s.written[c := s.written[c] + [word]])
      case MayRead =>
        var (dev, word) := ReadFifo(s.dev, c);
        s.(dev := dev, guard := s.guard[c := Outside], read := s.read[c := s.read[c] + [word]])
  }

  const START: Shared := Shared(RESET, [Outside, Outside], [[], []], [[], []])

  /** The checks stay true until the access they allow, no sticky flag is up, and each direction
      delivers the words in the order they were written. */
  ghost predicate Safe(s: Shared) {
    && WellFormed(s.dev) && |s.guard| == |s.written| == |s.read| == 2
    && s.dev.wof == [false, false] && s.dev.roe == [false, false]
    && forall c: CoreId ::
         && (s.guard[c].MayWrite? ==> Writable(s.dev, c))
         && (s.guard[c].MayRead? ==> Readable(s.dev, c))
         && s.written[c] == s.read[1 - c] + s.dev.fifo[c]
  }

  lemma SafeStep(s: Shared, a: Access)
    requires Safe(s)
    ensures Safe(Perform(s, a))
  {
    var c: CoreId := a.core;
    if a.Commit? && s.guard[c].MayWrite? {
      WriteStep(s, c);
    } else if a.Commit? && s.guard[c].MayRead? {
      ReadStep(s, c);
    }
  }

  lemma WriteStep(s: Shared, c: CoreId)
    requires Safe(s) && s.guard[c].MayWrite?
    ensures Safe(Perform(s, Commit(c)))
  {
    var s' := Perform(s, Commit(c));
    assert s'.written[c] == s'.read[1 - c] + s'.dev.fifo[c];
  }

  lemma ReadStep(s: Shared, c: CoreId)
    requires Safe(s) && s.guard[c].MayRead?
    ensures Safe(Perform(s, Commit(c)))
  {
    var s', peer: CoreId := Perform(s, Commit(c)), 1 - c;
    assert s.dev.fifo[peer] == [s.dev.fifo[peer][0]] + s.dev.fifo[peer][1..];
    assert s'.written[peer] == s'.read[c] + s'.dev.fifo[peer];
  }

  ghost function RunAccesses(s: Shared, accesses: seq<Access>): Shared
    requires Safe(s)
    decreases |accesses|
  {
    if accesses == [] then s
    else
      SafeStep(s, accesses[0]);
      RunAccesses(Perform(s, accesses[0]), accesses[1..])
  }

  /** From reset, over every interleaving of guarded accesses: no overflow or underflow is ever flagged, no FIFO
      exceeds its depth, and the words a core has read are a prefix of those its peer has written. */
  lemma GuardedAccessIsStable(accesses: seq<Access>)
    ensures Safe(START)
    ensures var s := RunAccesses(START, accesses);
            && Safe(s) && s.dev.wof == s.dev.roe == [false, false]
            && |s.dev.fifo[0]| <= FIFO_DEPTH && |s.dev.fifo[1]| <= FIFO_DEPTH
            && s.read[1] <= s.written[0] && s.read[0] <= s.written[1]
  {
    SafeRun(START, accesses);
  }

  lemma {:induction false} SafeRun(s: Shared, accesses: seq<Access>)
    requires Safe(s)
    ensures Safe(RunAccesses(s, accesses))
    decreases |accesses|
  {
    if accesses != [] {
      SafeStep(s, accesses[0]);
      SafeRun(Perform(s, accesses[0]), accesses[1..]);
    }
  }
}
