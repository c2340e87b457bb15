/** The WASI guest drive loop: one storage lease, one guest, and a strict request/reply exchange for every
    import. The guest's steps and the endpoint's answers are inputs. */
module WasiDrive {
  import opened Wire

  // ---------------------------------------------------------------- messages

  /** The WASI imports that leave the guest, as the runtime names them. */
  datatype Import =
    | FdWrite | FdWriteObject | FdRead | FdReaddir | PathOpen | FdPrestatGet
    | FdPrestatDirName | FdFilestatGet | ArgsSizesGet | ArgsGet | EnvironSizesGet | EnvironGet
    | FdFdstatGet | PathFilestatGet | FdClose | ClockResGet | ClockTimeGet | PollOneoff
    | RandomGet

  /** The messages of the exchange: one request and one reply for each import, and the pair for memory. */
  datatype Message =
    | FdWriteReq | FdWriteObjectReq | FdReadReq | FdReaddirReq | PathOpenReq | FdPrestatGetReq
    | FdPrestatDirNameReq | FdFilestatGetReq | ArgsSizesGetReq | ArgsGetReq | EnvironSizesGetReq | EnvironGetReq
    | FdFdstatGetReq | PathFilestatGetReq | FdCloseReq | ClockResGetReq | ClockTimeGetReq | PollOneoffReq
    | RandomGetReq | MemoryGrowReq
    | FdWriteRet | FdWriteObjectRet | FdReadRet | FdReaddirRet | PathOpenRet | FdPrestatGetRet
    | FdPrestatDirNameRet | FdFilestatGetRet | ArgsSizesGetRet | ArgsGetRet | EnvironSizesGetRet | EnvironGetRet
    | FdFdstatGetRet | PathFilestatGetRet | FdCloseRet | ClockResGetRet | ClockTimeGetRet | PollOneoffRet
    | RandomGetRet | MemoryGrowRet

  /** What a guest step asks for over the endpoint. The runtime gives the request to send and the import to
      wait for separately. */
  datatype Request = WasiImport(request: Import, awaited: Import) | MemoryGrow

  /** The message sent for a request (`send_wasi_import_request`, `send_memory_grow_request`). */
  function RequestMessage(r: Request): Message {
    if r.MemoryGrow? then MemoryGrowReq else
    match r.request
    case FdWrite => FdWriteReq case FdWriteObject => FdWriteObjectReq
    case FdRead => FdReadReq case FdReaddir => FdReaddirReq
    case PathOpen => PathOpenReq case FdPrestatGet => FdPrestatGetReq
    case FdPrestatDirName => FdPrestatDirNameReq case FdFilestatGet => FdFilestatGetReq
    case ArgsSizesGet => ArgsSizesGetReq case ArgsGet => ArgsGetReq
    case EnvironSizesGet => EnvironSizesGetReq case EnvironGet => EnvironGetReq
    case FdFdstatGet => FdFdstatGetReq case PathFilestatGet => PathFilestatGetReq
    case FdClose => FdCloseReq case ClockResGet => ClockResGetReq
    case ClockTimeGet => ClockTimeGetReq case PollOneoff => PollOneoffReq
    case RandomGet => RandomGetReq
  }

  /** The message waited for (`recv_wasi_import_completion`, `recv_memory_grow_decision`). */
  function ReplyMessage(r: Request): Message {
    if r.MemoryGrow? then MemoryGrowRet else
    match r.awaited
    case FdWrite => FdWriteRet case FdWriteObject => FdWriteObjectRet
    case FdRead => FdReadRet case FdReaddir => FdReaddirRet
    case PathOpen => PathOpenRet case FdPrestatGet => FdPrestatGetRet
    case FdPrestatDirName => FdPrestatDirNameRet case FdFilestatGet => FdFilestatGetRet
    case ArgsSizesGet => ArgsSizesGetRet case ArgsGet => ArgsGetRet
    case EnvironSizesGet => EnvironSizesGetRet case EnvironGet => EnvironGetRet
    case FdFdstatGet => FdFdstatGetRet case PathFilestatGet => PathFilestatGetRet
    case FdClose => FdCloseRet case ClockResGet => ClockResGetRet
    case ClockTimeGet => ClockTimeGetRet case PollOneoff => PollOneoffRet
    case RandomGet => RandomGetRet
  }

  /** The reply that a choreography answers a request message with; none for what is no request. */
  function ReplyTo(m: Message): Option<Message> {
    match m
    case FdWriteReq => Some(FdWriteRet) case FdWriteObjectReq => Some(FdWriteObjectRet)
    case FdReadReq => Some(FdReadRet) case FdReaddirReq => Some(FdReaddirRet)
    case PathOpenReq => Some(PathOpenRet) case FdPrestatGetReq => Some(FdPrestatGetRet)
    case FdPrestatDirNameReq => Some(FdPrestatDirNameRet) case FdFilestatGetReq => Some(FdFilestatGetRet)
    case ArgsSizesGetReq => Some(ArgsSizesGetRet) case ArgsGetReq => Some(ArgsGetRet)
    case EnvironSizesGetReq => Some(EnvironSizesGetRet) case EnvironGetReq => Some(EnvironGetRet)
    case FdFdstatGetReq => Some(FdFdstatGetRet) case PathFilestatGetReq => Some(PathFilestatGetRet)
    case FdCloseReq => Some(FdCloseRet) case ClockResGetReq => Some(ClockResGetRet)
    case ClockTimeGetReq => Some(ClockTimeGetRet) case PollOneoffReq => Some(PollOneoffRet)
    case RandomGetReq => Some(RandomGetRet)
    case MemoryGrowReq => Some(MemoryGrowRet)
    case _ => None
  }

  /** Every import with the messages named after it. */
  const DISPATCH: set<(Import, Message, Message)> := {
    (FdWrite, FdWriteReq, FdWriteRet), (FdWriteObject, FdWriteObjectReq, FdWriteObjectRet),
    (FdRead, FdReadReq, FdReadRet), (FdReaddir, FdReaddirReq, FdReaddirRet),
    (PathOpen, PathOpenReq, PathOpenRet), (FdPrestatGet, FdPrestatGetReq, FdPrestatGetRet),
    (FdPrestatDirName, FdPrestatDirNameReq, FdPrestatDirNameRet), (FdFilestatGet, FdFilestatGetReq, FdFilestatGetRet),
    (ArgsSizesGet, ArgsSizesGetReq, ArgsSizesGetRet), (ArgsGet, ArgsGetReq, ArgsGetRet),
    (EnvironSizesGet, EnvironSizesGetReq, EnvironSizesGetRet), (EnvironGet, EnvironGetReq, EnvironGetRet),
    (FdFdstatGet, FdFdstatGetReq, FdFdstatGetRet), (PathFilestatGet, PathFilestatGetReq, PathFilestatGetRet),
    (FdClose, FdCloseReq, FdCloseRet), (ClockResGet, ClockResGetReq, ClockResGetRet),
    (ClockTimeGet, ClockTimeGetReq, ClockTimeGetRet), (PollOneoff, PollOneoffReq, PollOneoffRet),
    (RandomGet, RandomGetReq, RandomGetRet)
  }

  /** Every import is asked for with its own request message and awaited with its own reply message. */
  lemma DispatchByName(i: Import, other: Import)
    ensures (i, RequestMessage(WasiImport(i, other)), ReplyMessage(WasiImport(other, i))) in DISPATCH
    ensures RequestMessage(MemoryGrow) == MemoryGrowReq && ReplyMessage(MemoryGrow) == MemoryGrowRet
  {}

  /** The runtime names the same import twice. */
  predicate Agrees(r: Request) {
    r.WasiImport? ==> r.request == r.awaited
  }

  /** The message waited for answers the message sent if and only if the request and the import agree. */
  lemma DispatchMatches(r: Request)
    ensures ReplyTo(RequestMessage(r)) == Some(ReplyMessage(r)) <==> Agrees(r)
  {}

  // ---------------------------------------------------------------- inputs and observations

  /** How far the exchange for a request gets. */
  datatype Exchange = SendFails | ReceiveFails | CompleteFails | Completes

  /** One `resume_wasi_boundary` and what follows from it. */
  datatype Turn = Pends(request: Request, exchange: Exchange) | Expires | Exits | Traps

  datatype Event =
    | Resume
    | Sent(request: Request, message: Message)
    | Received(request: Request, message: Message)
    | Completed(request: Request)

  function Asking(r: Request): Event {
    Sent(r, RequestMessage(r))
  }

  function Answering(r: Request): Event {
    Received(r, ReplyMessage(r))
  }

  /** Running: the turns given so far do not end the drive. */
  datatype DriveEnd = Running | BudgetExpired | Exit | Failure

  function EventsOf(turn: Turn): seq<Event> {
    match turn
    case Pends(r, SendFails) => [Resume, Asking(r)]
    case Pends(r, ReceiveFails) => [Resume, Asking(r)]
    case Pends(r, CompleteFails) => [Resume, Asking(r), Answering(r)]
    case Pends(r, Completes) => [Resume, Asking(r), Answering(r), Completed(r)]
    case _ => [Resume]
  }

  function EndOf(turn: Turn): DriveEnd {
    match turn
    case Pends(_, Completes) => Running
    case Expires => BudgetExpired
    case Exits => Exit
    case _ => Failure
  }

  /** One drive: its events, the turns left over, and its end. */
  function Drive(turns: seq<Turn>): (r: (seq<Event>, seq<Turn>, DriveEnd))
    ensures |r.1| <= |turns|
    ensures r.2 != Running ==> |r.1| < |turns|
    ensures r.2 == Running ==> r.1 == []
  {
    if turns == [] then ([], [], Running)
    else if EndOf(turns[0]) != Running then (EventsOf(turns[0]), turns[1..], EndOf(turns[0]))
    else
      var (events, rest, end) := Drive(turns[1..]);
      (EventsOf(turns[0]) + events, rest, end)
  }

  /** The whole life of the engine: drives follow each other while the budget is all that ran out. */
  function Life(turns: seq<Turn>): (seq<Event>, DriveEnd)
    decreases |turns|
  {
    var (events, rest, end) := Drive(turns);
    if end == BudgetExpired then
      var (more, last) := Life(rest);
      (events + more, last)
    else (events, end)
  }

  lemma DriveUnfolds(turns: seq<Turn>)
    ensures turns == [] ==> Drive(turns) == ([], [], Running)
    ensures turns != [] && EndOf(turns[0]) != Running ==> Drive(turns) == (EventsOf(turns[0]), turns[1..], EndOf(turns[0]))
    ensures turns != [] && EndOf(turns[0]) == Running ==>
      var (events, rest, end) := Drive(turns[1..]);
      Drive(turns) == (EventsOf(turns[0]) + events, rest, end)
  {}

  lemma LifeUnfolds(turns: seq<Turn>)
    ensures var (events, rest, end) := Drive(turns);
            Life(turns) == if end == BudgetExpired then (events + Life(rest).0, Life(rest).1) else (events, end)
  {
    hide Drive;
  }

  // ---------------------------------------------------------------- a life, turn by turn

  /** The turns after which the guest is resumed again: its budget ran out, or its exchange was completed. */
  predicate GoesOn(turn: Turn) {
    turn == Expires || (turn.Pends? && turn.exchange == Completes)
  }

  /** How many turns a life takes: up to and including the first that does not go on. */
  function TurnsTaken(turns: seq<Turn>): (n: nat)
    ensures n <= |turns| && forall k :: 0 <= k < n - 1 ==> GoesOn(turns[k])
    ensures n < |turns| ==> n > 0 && !GoesOn(turns[n - 1])
  {
    if turns == [] then 0 else if GoesOn(turns[0]) then 1 + TurnsTaken(turns[1..]) else 1
  }

  lemma LifeTurn(turns: seq<Turn>)
    ensures Life([]) == ([], Running)
    ensures turns != [] && GoesOn(turns[0]) ==> Life(turns) == (EventsOf(turns[0]) + Life(turns[1..]).0, Life(turns[1..]).1)
    ensures turns != [] && !GoesOn(turns[0]) ==> Life(turns) == (EventsOf(turns[0]), if turns[0] == Exits then Exit else Failure)
  {
    hide Drive, EventsOf, Life;
    DriveUnfolds([]);
    LifeUnfolds([]);
    if turns != [] {
      DriveUnfolds(turns);
      LifeUnfolds(turns);
      LifeUnfolds(turns[1..]);
      var events, more := Drive(turns[1..]).0, Life(Drive(turns[1..]).1).0;
      assert EventsOf(turns[0]) + events + more == EventsOf(turns[0]) + (events + more);
    }
  }

  datatype Kind = Resuming | Requesting | Replying | Completing

  predicate IsOf(e: Event, kind: Kind) {
    match kind
    case Resuming => e.Resume?
    case Requesting => e.Sent?
    case Replying => e.Received?
    case Completing => e.Completed?
  }

  /** The events of one kind, in order. */
  function Only(trace: seq<Event>, kind: Kind): seq<Event> {
    if trace == [] then []
    else if IsOf(trace[0], kind) then [trace[0]] + Only(trace[1..], kind)
    else Only(trace[1..], kind)
  }

  lemma {:induction false} OnlyConcat(s: seq<Event>, t: seq<Event>, kind: Kind)
    ensures Only(s + t, kind) == Only(s, kind) + Only(t, kind)
  {
    if s == [] {
      assert s + t == t;
    } else {
      assert (s + t)[0] == s[0] && (s + t)[1..] == s[1..] + t;
      OnlyConcat(s[1..], t, kind);
    }
  }

  /** What one turn adds of each kind: a resumption; a request if it asks for something; the reply unless the
      exchange failed before it; the completion if it was completed. */
  function Adds(turn: Turn, kind: Kind): seq<Event> {
    match kind
    case Resuming => [Resume]
    case Requesting => if turn.Pends? then [Sent(turn.request, RequestMessage(turn.request))] else []
    case Replying =>
      if turn.Pends? && turn.exchange != SendFails && turn.exchange != ReceiveFails
      then [Received(turn.request, ReplyMessage(turn.request))] else []
    case Completing => if turn.Pends? && turn.exchange == Completes then [Completed(turn.request)] else []
  }

  function AllAdd(turns: seq<Turn>, kind: Kind): seq<Event> {
    if turns == [] then [] else Adds(turns[0], kind) + AllAdd(turns[1..], kind)
  }

  lemma OneTurn(turn: Turn, kind: Kind)
    ensures Only(EventsOf(turn), kind) == Adds(turn, kind)
  {
    hide RequestMessage, ReplyMessage, Only;
    OnlyOne(Resume, kind);
    if turn.Pends? {
      var sent, received, done := Asking(turn.request), Answering(turn.request), Completed(turn.request);
      OnlyOne(sent, kind);
      OnlyOne(received, kind);
      OnlyOne(done, kind);
      assert [Resume, sent] == [Resume] + [sent] && [Resume, sent, received] == [Resume, sent] + [received];
      assert [Resume, sent, received, done] == [Resume, sent, received] + [done];
      OnlyConcat([Resume], [sent], kind);
      OnlyConcat([Resume, sent], [received], kind);
      OnlyConcat([Resume, sent, received], [done], kind);
    }
  }

  lemma OnlyOne(e: Event, kind: Kind)
    ensures Only([e], kind) == if IsOf(e, kind) then [e] else []
  {
    assert [e][1..] == [];
  }

  /** Over the whole life of an engine. It ends with an exit if and only if the first turn that does not go on is
      the guest's exit; with a failure if and only if that turn is a trap or an exchange that was not completed;
      and it is still running if and only if there is no such turn. The guest was resumed once for every turn up
      to there, and the trace holds exactly the requests, replies and completions of these turns, in order. */
  lemma {:induction false} LifeByTurns(turns: seq<Turn>)
    ensures var (n, trace, end) := (TurnsTaken(turns), Life(turns).0, Life(turns).1);
            && (end == Exit <==> n > 0 && turns[n - 1] == Exits)
            && (end == Failure <==> n > 0 && (turns[n - 1] == Traps || (turns[n - 1].Pends? && turns[n - 1].exchange != Completes)))
            && (end == Running <==> n == |turns| && forall k :: 0 <= k < n ==> GoesOn(turns[k]))
            && |Only(trace, Resuming)| == n
            && forall kind :: Only(trace, kind) == AllAdd(turns[..n], kind)
  {
    hide Life, EventsOf, Adds, Only;
    LifeTurn(turns);
    if turns == [] {
      forall kind ensures Only([], kind) == [] {
        NoneOf(kind);
      }
    } else {
      var n := TurnsTaken(turns);
      if GoesOn(turns[0]) {
        LifeByTurns(turns[1..]);
        assert n > 1 ==> turns[n - 1] == turns[1..][n - 2];
        if forall k :: 0 <= k < n - 1 ==> GoesOn(turns[1..][k]) {
          forall k | 0 <= k < n ensures GoesOn(turns[k]) {
            assert k > 0 ==> turns[k] == turns[1..][k - 1];
          }
        }
        if forall k :: 0 <= k < n ==> GoesOn(turns[k]) {
          forall k | 0 <= k < n - 1 ensures GoesOn(turns[1..][k]) {
            assert turns[1..][k] == turns[k + 1];
          }
        }
      }
      assert turns[..n][0] == turns[0];
      assert turns[..n][1..] == if GoesOn(turns[0]) then turns[1..][..n - 1] else [];
      var tail := if GoesOn(turns[0]) then Life(turns[1..]).0 else [];
      assert EventsOf(turns[0]) + [] == EventsOf(turns[0]);
      forall kind ensures Only(Life(turns).0, kind) == AllAdd(turns[..n], kind) {
        OneTurn(turns[0], kind);
        OnlyConcat(EventsOf(turns[0]), tail, kind);
        NoneOf(kind);
      }
      ResumedOnce(turns[..n]);
    }
  }

  lemma {:induction false} ResumedOnce(turns: seq<Turn>)
    ensures |AllAdd(turns, Resuming)| == |turns|
  {
    if turns != [] {
      ResumedOnce(turns[1..]);
    }
  }

  lemma NoneOf(kind: Kind)
    ensures Only([], kind) == []
  {}

  predicate IsExchange(turn: Turn) {
    turn.Pends? && turn.exchange == Completes
  }

  /** How many turns one drive takes: up to and including the first that is no completed exchange. */
  function TurnsDriven(turns: seq<Turn>): (n: nat)
    ensures n <= |turns| && forall k :: 0 <= k < n - 1 ==> IsExchange(turns[k])
    ensures n < |turns| ==> n > 0 && !IsExchange(turns[n - 1])
  {
    if turns == [] then 0 else if IsExchange(turns[0]) then 1 + TurnsDriven(turns[1..]) else 1
  }

  /** One drive takes turns up to the first that is no completed exchange, leaves the others, and ends as that
      turn says. */
  lemma {:induction false} DriveByTurns(turns: seq<Turn>)
    ensures var (n, rest, end) := (TurnsDriven(turns), Drive(turns).1, Drive(turns).2);
            && rest == turns[n..]
            && (end == BudgetExpired <==> n > 0 && turns[n - 1] == Expires)
            && (end == Exit <==> n > 0 && turns[n - 1] == Exits)
            && (end == Failure <==> n > 0 && (turns[n - 1] == Traps || (turns[n - 1].Pends? && turns[n - 1].exchange != Completes)))
  {
    hide EventsOf, Drive;
    DriveUnfolds(turns);
    var n := TurnsDriven(turns);
    if turns != [] && IsExchange(turns[0]) {
      DriveByTurns(turns[1..]);
      assert turns[1..][n - 1..] == turns[n..];
      assert n > 1 ==> turns[n - 1] == turns[1..][n - 2];
    } else if turns != [] {
      assert n == 1;
    }
  }

  // ---------------------------------------------------------------- the protocol

  /** Ready to resume, running, a request sent, its completion received. */
  datatype Phase = Ready | Stepped | Asked(request: Request) | Answered(request: Request)

  predicate Allowed(p: Phase, e: Event) {
    match e
    case Resume => p == Ready || p == Stepped
    case Sent(r, _) => p == Stepped && e == Asking(r)
    case Received(r, _) => p == Asked(r) && e == Answering(r)
    case Completed(r) => p == Answered(r)
  }

  function After(e: Event): Phase {
    match e
    case Resume => Stepped
    case Sent(r, _) => Asked(r)
    case Received(r, _) => Answered(r)
    case Completed(_) => Ready
  }

  predicate Accepts(p: Phase, trace: seq<Event>)
    decreases |trace|
  {
    trace == [] || (Allowed(p, trace[0]) && Accepts(After(trace[0]), trace[1..]))
  }

  function Final(p: Phase, trace: seq<Event>): Phase {
    if trace == [] then p else After(trace[|trace| - 1])
  }

  lemma {:induction false} AcceptsConcat(p: Phase, s: seq<Event>, t: seq<Event>)
    ensures Accepts(p, s + t) <==> Accepts(p, s) && Accepts(Final(p, s), t)
    decreases |s|
  {
    if s == [] {
      assert s + t == t;
    } else {
      assert (s + t)[0] == s[0] && (s + t)[1..] == s[1..] + t;
      AcceptsConcat(After(s[0]), s[1..], t);
    }
  }

  lemma AcceptsCons(p: Phase, e: Event, trace: seq<Event>)
    requires Allowed(p, e) && Accepts(After(e), trace)
    ensures Accepts(p, [e] + trace)
  {
    assert ([e] + trace)[1..] == trace;
  }

  lemma TurnAccepted(p: Phase, turn: Turn)
    requires p == Ready || p == Stepped
    ensures Accepts(p, EventsOf(turn))
    ensures EndOf(turn) == Running ==> Final(p, EventsOf(turn)) == Ready
    ensures EndOf(turn) in {BudgetExpired, Exit} ==> Final(p, EventsOf(turn)) == Stepped
  {
    hide Accepts;
    var tail: seq<Event> := EventsOf(turn)[1..];
    assert EventsOf(turn) == [Resume] + tail;
    if turn.Pends? {
      ExchangeAccepted(turn.request, turn.exchange, tail[1..]);
      assert tail == [Asking(turn.request)] + tail[1..];
      AcceptsCons(Stepped, Asking(turn.request), tail[1..]);
    } else {
      AcceptsNothing(Stepped);
    }
    AcceptsCons(p, Resume, tail);
  }

  lemma ExchangeAccepted(r: Request, exchange: Exchange, tail: seq<Event>)
    requires EventsOf(Pends(r, exchange)) == [Resume, Asking(r)] + tail
    ensures Accepts(Asked(r), tail)
  {
    hide Accepts;
    var events := EventsOf(Pends(r, exchange));
    assert tail == events[2..];
    AcceptsNothing(Asked(r));
    AcceptsNothing(Answered(r));
    AcceptsNothing(Ready);
    if exchange == CompleteFails {
      assert tail == [Answering(r)] + [];
      AcceptsCons(Asked(r), Answering(r), []);
    } else if exchange == Completes {
      assert tail[1..] == [Completed(r)] + [] && tail == [Answering(r)] + tail[1..];
      AcceptsCons(Answered(r), Completed(r), []);
      AcceptsCons(Asked(r), Answering(r), tail[1..]);
    }
  }

  lemma {:induction false} DriveAccepted(p: Phase, turns: seq<Turn>)
    requires p == Ready || p == Stepped
    ensures var (events, rest, end) := Drive(turns);
            && Accepts(p, events)
            && (end != Failure ==> Final(p, events) in {Ready, Stepped})
    decreases |turns|
  {
    hide Accepts, EventsOf;
    AcceptsNothing(p);
    if turns != [] {
      TurnAccepted(p, turns[0]);
      if EndOf(turns[0]) == Running {
        DriveAccepted(Ready, turns[1..]);
        AcceptsConcat(p, EventsOf(turns[0]), Drive(turns[1..]).0);
      }
    }
  }

  lemma AcceptsNothing(p: Phase)
    ensures Accepts(p, [])
  {}

  /** Every event of the engine's life respects the protocol; only a failure leaves an exchange open. */
  lemma {:induction false} LifeAccepted(p: Phase, turns: seq<Turn>)
    requires p == Ready || p == Stepped
    ensures var (trace, end) := Life(turns);
            && Accepts(p, trace)
            && (end != Failure ==> Final(p, trace) in {Ready, Stepped})
    decreases |turns|
  {
    hide Accepts, Drive;
    DriveAccepted(p, turns);
    var (events, rest, end) := Drive(turns);
    if end == BudgetExpired {
      LifeAccepted(Final(p, events), rest);
      AcceptsConcat(p, events, Life(rest).0);
    }
  }

  // ---------------------------------------------------------------- what the protocol means

  /** The endpoint's part of a trace. */
  function Endpoint(trace: seq<Event>): seq<Event> {
    if trace == [] then []
    else if trace[0].Sent? || trace[0].Received? then [trace[0]] + Endpoint(trace[1..])
    else Endpoint(trace[1..])
  }

  /** Requests each followed by the completion of the same import, the last one possibly cut short. */
  predicate Paired(ops: seq<Event>) {
    if |ops| == 0 then true
    else if |ops| == 1 then ops[0].Sent? && ops[0] == Asking(ops[0].request)
    else ops[0].Sent? && ops[0] == Asking(ops[0].request) && ops[1] == Answering(ops[0].request) && Paired(ops[2..])
  }

  lemma {:induction false} AcceptedIsPaired(p: Phase, trace: seq<Event>)
    requires Accepts(p, trace)
    ensures var ops := Endpoint(trace);
            match p
            case Asked(r) => ops == [] || (ops[0] == Answering(r) && Paired(ops[1..]))
            case _ => Paired(ops)
    decreases |trace|
  {
    if trace != [] {
      var rest := Endpoint(trace[1..]);
      AcceptedIsPaired(After(trace[0]), trace[1..]);
      if trace[0].Sent? {
        assert ([trace[0]] + rest)[1..] == rest;
        if |rest| > 0 { assert ([trace[0]] + rest)[2..] == rest[1..]; }
      } else if trace[0].Received? {
        assert ([trace[0]] + rest)[1..] == rest;
      }
    }
  }

  /** The messages of the endpoint's part, in order. */
  function Messages(ops: seq<Event>): seq<Message>
    requires forall e :: e in ops ==> e.Sent? || e.Received?
  {
    if ops == [] then [] else [ops[0].message] + Messages(ops[1..])
  }

  /** Request messages each followed by the reply message that answers it, the last one possibly cut short. */
  predicate Matched(ms: seq<Message>) {
    if |ms| == 0 then true
    else if |ms| == 1 then ReplyTo(ms[0]).Some?
    else ReplyTo(ms[0]) == Some(ms[1]) && Matched(ms[2..])
  }

  lemma {:induction false} EndpointOnly(trace: seq<Event>)
    ensures forall e :: e in Endpoint(trace) ==> (e.Sent? || e.Received?) && e in trace
    ensures forall e :: e in trace && e.Received? ==> e in Endpoint(trace)
  {
    if trace != [] {
      EndpointOnly(trace[1..]);
      assert trace == [trace[0]] + trace[1..];
    }
  }

  /** On the wire the pairs are a request message and its own reply message if and only if, in every
      exchange that got a reply, the runtime's request and import agree. */
  lemma {:induction false} PairedIsMatched(ops: seq<Event>)
    requires Paired(ops) && forall e :: e in ops ==> e.Sent? || e.Received?
    ensures Matched(Messages(ops)) <==> forall e :: e in ops && e.Received? ==> Agrees(e.request)
    decreases |ops|
  {
    hide RequestMessage, ReplyMessage, ReplyTo, Agrees;
    if ops != [] {
      var r := ops[0].request;
      IsARequest(r);
      DispatchMatches(r);
      if |ops| == 1 {
        assert Messages(ops[1..]) == [] && Messages(ops) == [ops[0].message];
      } else {
        PairedIsMatched(ops[2..]);
        var ms := Messages(ops[2..]);
        assert ops[1..][1..] == ops[2..] && ops == [ops[0], ops[1]] + ops[2..];
        assert Messages(ops[1..]) == [ops[1].message] + ms;
        assert Messages(ops) == [ops[0].message] + ([ops[1].message] + ms);
        assert Messages(ops)[2..] == ms;
      }
    }
  }

  lemma IsARequest(r: Request)
    ensures ReplyTo(RequestMessage(r)).Some?
  {}

  function Requests(trace: seq<Event>): multiset<Request> {
    if trace == [] then multiset{}
    else
      var front := Requests(trace[..|trace| - 1]);
      if trace[|trace| - 1].Sent? then front + multiset{trace[|trace| - 1].request} else front
  }

  function Completions(trace: seq<Event>): multiset<Request> {
    if trace == [] then multiset{}
    else
      var front := Completions(trace[..|trace| - 1]);
      if trace[|trace| - 1].Completed? then front + multiset{trace[|trace| - 1].request} else front
  }

  function Open(p: Phase): multiset<Request> {
    match p case Asked(r) => multiset{r} case Answered(r) => multiset{r} case _ => multiset{}
  }

  /** At every moment the requests not yet completed are the one the engine is waiting on, if any. */
  lemma {:induction false} OneOpenRequest(trace: seq<Event>)
    requires Accepts(Ready, trace)
    ensures Requests(trace) == Completions(trace) + Open(Final(Ready, trace))
    decreases |trace|
  {
    if trace != [] {
      var last := |trace| - 1;
      assert trace == trace[..last] + [trace[last]];
      AcceptsConcat(Ready, trace[..last], [trace[last]]);
      OneOpenRequest(trace[..last]);
      assert Allowed(Final(Ready, trace[..last]), trace[last]);
    }
  }

  /** Over the whole life of an engine, for every guest and every endpoint: the endpoint sees a sequence
      of pairs of a request and the completion of the same boundary step, the last possibly cut short, which
      takes a failure; the messages of the pairs match if and only if the runtime's request and import agree
      in every exchange that got a reply; and whenever the guest resumes, every request so far has been
      completed. */
  lemma ExchangesAreStrict(turns: seq<Turn>)
    ensures var (trace, end) := Life(turns);
            && Paired(Endpoint(trace)) && (forall e :: e in Endpoint(trace) ==> e.Sent? || e.Received?)
            && (Matched(Messages(Endpoint(trace))) <==> forall e :: e in trace && e.Received? ==> Agrees(e.request))
            && (end != Failure ==> Requests(trace) == Completions(trace))
            && forall i :: 0 <= i < |trace| && trace[i] == Resume ==> Requests(trace[..i]) == Completions(trace[..i])
  {
    hide Life, Accepts, Paired, Requests, Completions, Endpoint, Messages, Matched, Agrees;
    var (trace, end) := Life(turns);
    LifeAccepted(Ready, turns);
    AcceptedIsPaired(Ready, trace);
    EndpointOnly(trace);
    PairedIsMatched(Endpoint(trace));
    OneOpenRequest(trace);
    forall i | 0 <= i < |trace| && trace[i] == Resume ensures Requests(trace[..i]) == Completions(trace[..i]) {
      assert trace == trace[..i] + trace[i..];
      AcceptsConcat(Ready, trace[..i], trace[i..]);
      AcceptsFirst(Final(Ready, trace[..i]), trace[i..]);
      OneOpenRequest(trace[..i]);
    }
  }

  lemma AcceptsFirst(p: Phase, trace: seq<Event>)
    requires Accepts(p, trace) && trace != []
    ensures Allowed(p, trace[0])
  {}

  // ---------------------------------------------------------------- storage and ownership

  /** The right to the arena's storage; it moves between owners and is never copied. */
  datatype Lease = Lease

  class WasiGuestArena {
    var occupied: bool

    constructor ()
      ensures !occupied
    {
      occupied := false;
    }

    /** `lease`: panics when already leased, so callers must know it is not. */
    method Acquire() returns (lease: Lease)
      requires !occupied
      modifies this
      ensures occupied
    {
      occupied := true;
      lease := Lease;
    }

    /** Dropping the lease. */
    method Release(lease: Lease)
      modifies this
      ensures !occupied
    {
      occupied := false;
    }
  }

  /** A guest living in leased storage. */
  datatype GuestSlot = GuestSlot(lease: Lease, initialized: bool)

  class CanonicalWasiEngine {
    const arena: WasiGuestArena
    const hasModule: bool
    var guestStorage: Option<Lease>
    var guestSlot: Option<GuestSlot>
    ghost var trace: seq<Event>
    ghost var built: nat      // guests initialised in the storage
    ghost var dropped: nat    // guests dropped from it

    /** The engine owns the lease in at most one place, exactly while the arena is occupied; a guest is
        alive exactly in the slot, and at most one was ever built. */
    ghost predicate Valid()
      reads this, arena
    {
      && !(guestStorage.Some? && guestSlot.Some?)
      && arena.occupied == (guestStorage.Some? || guestSlot.Some?)
      && (guestSlot.Some? ==> guestSlot.value.initialized)
      && built == dropped + (if guestSlot.Some? then 1 else 0) && built <= 1
    }

    /** Not yet driven, or left with a guest whose budget ran out: a drive will find what it needs. */
    ghost predicate CanDrive()
      reads this, arena
    {
      Valid() && (guestSlot.Some? || (built == 0 && (hasModule ==> guestStorage.Some?)))
    }

    constructor (arena: WasiGuestArena, hasModule: bool, storage: Option<Lease>)
      requires arena.occupied == storage.Some? && (hasModule ==> storage.Some?)
      ensures CanDrive() && this.arena == arena && this.hasModule == hasModule && trace == []
    {
      this.arena, this.hasModule := arena, hasModule;
      guestStorage, guestSlot := storage, None;
      trace, built, dropped := [], 0, 0;
    }

    /** `take_wasi_guest_slot`: the kept guest, or a new one in the stored lease. A guest that fails to
        initialise is dropped with its lease. While the slot is out, the engine holds neither. */
    method TakeSlot(initOk: bool) returns (slot: Option<GuestSlot>)
      requires CanDrive()
      modifies this, arena
      ensures trace == old(trace)
      ensures slot.Some? <==> old(guestSlot).Some? || (hasModule && initOk)
      ensures slot.Some? ==> guestStorage == None && guestSlot == None && arena.occupied && slot.value.initialized && built == dropped + 1 && built <= 1
      ensures slot.None? ==> Valid() && guestSlot == None && (hasModule ==> !arena.occupied)
    {
      if guestSlot.Some? {
        slot := guestSlot;
        guestSlot := None;
        return;
      }
      if !hasModule {
        return None;
      }
      if guestStorage.None? {
        assert false;   // "must receive in-place guest storage": never reached
      }
      var lease := guestStorage.value;
      guestStorage := None;
      built := built + 1;
      if !initOk {
        dropped := dropped + 1;
        arena.Release(lease);
        return None;
      }
      slot := Some(GuestSlot(lease, true));
    }

    /** `store_wasi_guest_slot`: a guest that only ran out of budget is kept, any other is dropped and
        its lease put back. A drive that is still running keeps owning the slot. */
    method StoreSlot(slot: GuestSlot, end: DriveEnd)
      requires guestStorage == None && guestSlot == None && arena.occupied && slot.initialized && built == dropped + 1 && built <= 1
      modifies this
      ensures Valid() && trace == old(trace) && arena.occupied && built == old(built)
      ensures guestSlot.Some? == (end == BudgetExpired || end == Running)
    {
      if end == BudgetExpired || end == Running {
        guestSlot := Some(slot);
      } else {
        dropped := dropped + 1;
        guestStorage := Some(slot.lease);
      }
    }

    /** `drive_wasi_guest` over the turns the guest and the endpoint take. */
    method DriveWasiGuest(initOk: bool, turns: seq<Turn>) returns (end: DriveEnd, rest: seq<Turn>)
      requires CanDrive()
      modifies this, arena
      ensures Valid()
      ensures end == BudgetExpired || end == Running ==> CanDrive() && guestSlot.Some? && arena.occupied
      ensures end == Exit ==> guestStorage.Some? && guestSlot == None && built == dropped == 1
      ensures end == Failure ==> guestSlot == None
      ensures if old(guestSlot).Some? || (hasModule && initOk) then
                (trace, rest, end) == (old(trace) + Drive(turns).0, Drive(turns).1, Drive(turns).2)
              else trace == old(trace) && end == Failure
      ensures old(guestSlot).Some? || (hasModule && initOk) ==>
                var n := TurnsDriven(turns);
                && rest == turns[n..] && (end == Exit <==> n > 0 && turns[n - 1] == Exits)
                && (end == BudgetExpired <==> n > 0 && turns[n - 1] == Expires)
    {
      hide Drive, EventsOf, EndOf;
      DriveByTurns(turns);
      var slot := TakeSlot(initOk);
      if slot.None? {
        return Failure, turns;
      }
      rest := turns;
      end := Running;
      while rest != [] && end == Running
        invariant guestStorage == None && guestSlot == None && arena.occupied && built == dropped + 1 && built <= 1
        invariant if end == Running then
                    old(trace) + Drive(turns).0 == trace + Drive(rest).0 && Drive(turns).1 == Drive(rest).1 && Drive(turns).2 == Drive(rest).2
                  else (trace, rest, end) == (old(trace) + Drive(turns).0, Drive(turns).1, Drive(turns).2)
        decreases |rest|
      {
        ghost var before := trace;
        DriveUnfolds(rest);
        end := Step(rest[0]);
        assert before + (EventsOf(rest[0]) + Drive(rest[1..]).0) == trace + Drive(rest[1..]).0;
        rest := rest[1..];
      }
      DriveUnfolds([]);
      assert trace + [] == trace;
      StoreSlot(slot.value, end);
    }

    /** One round of the loop: resume, and carry the exchange as far as it goes. */
    method Step(turn: Turn) returns (end: DriveEnd)
      modifies this`trace
      ensures trace == old(trace) + EventsOf(turn) && end == EndOf(turn)
      ensures forall kind :: Only(EventsOf(turn), kind) == Adds(turn, kind)
      ensures (end == Exit <==> turn == Exits) && (end == BudgetExpired <==> turn == Expires) && (end == Running <==> IsExchange(turn))
    {
      forall kind ensures Only(EventsOf(turn), kind) == Adds(turn, kind) {
        OneTurn(turn, kind);
      }
      trace := trace + [Resume];
      match turn {
        case Expires => return BudgetExpired;
        case Exits => return Exit;
        case Traps => return Failure;
        case Pends(r, exchange) =>
          trace := trace + [Asking(r)];
          if exchange == SendFails || exchange == ReceiveFails {
            return Failure;
          }
          trace := trace + [Answering(r)];
          if exchange == CompleteFails {
            return Failure;
          }
          trace := trace + [Completed(r)];
          return Running;
      }
    }

    /** Dropping the engine releases whatever it still owns. */
    method DropEngine()
      requires Valid()
      modifies this, arena
      ensures guestStorage == None && guestSlot == None && !arena.occupied && trace == old(trace)
      ensures Valid() && built == dropped == old(built)
    {
      if guestSlot.Some? {
        dropped := dropped + 1;
        arena.Release(guestSlot.value.lease);
        guestSlot := None;
      }
      if guestStorage.Some? {
        arena.Release(guestStorage.value);
        guestStorage := None;
      }
    }

    /** `drive_canonical_wasi_engine`: drives again while only the budget ran out; after an exit the
        engine stays, after a failure it is dropped. */
    method DriveCanonical(initOk: bool, turns: seq<Turn>) returns (end: DriveEnd)
      requires CanDrive() && built == 0 && trace == []
      modifies this, arena
      ensures end != BudgetExpired && Valid() && built <= 1
      ensures hasModule && initOk ==> (trace, end) == Life(turns)
      ensures hasModule && initOk ==>
                var n := TurnsTaken(turns);
                && (end == Exit <==> n > 0 && turns[n - 1] == Exits)
                && (end == Running <==> n == |turns| && forall k :: 0 <= k < n ==> GoesOn(turns[k]))
                && |Only(trace, Resuming)| == n
      ensures !(hasModule && initOk) ==> trace == [] && end == Failure
      ensures end == Exit ==> arena.occupied && guestStorage.Some? && built == dropped == 1
      ensures end == Failure ==> !arena.occupied && built == dropped
      ensures end == Running ==> arena.occupied && built == dropped + 1
    {
      hide Drive, Life, TurnsTaken, TurnsDriven, Only;
      LifeByTurns(turns);
      var rest := turns;
      end := BudgetExpired;
      ghost var started := false;
      assert trace + Life(rest).0 == Life(rest).0;
      while end == BudgetExpired
        invariant end == BudgetExpired ==> CanDrive() && (started <==> guestSlot.Some?)
        invariant Valid()
        invariant started ==> hasModule && initOk
        invariant !started && end == BudgetExpired ==> trace == [] && rest == turns && built == 0
        invariant end == BudgetExpired ==> (trace + Life(rest).0, Life(rest).1) == Life(turns)
        invariant end != BudgetExpired ==> if hasModule && initOk then (trace, end) == Life(turns) else trace == [] && end == Failure
        invariant end == Exit ==> guestStorage.Some? && guestSlot == None && built == dropped == 1
        invariant end == Running ==> guestSlot.Some?
        decreases end == BudgetExpired, |rest|
      {
        ghost var before, todo := trace, rest;
        LifeUnfolds(rest);
        end, rest := DriveWasiGuest(initOk, rest);
        started := hasModule && initOk;
        if end == BudgetExpired {
          assert before + (Drive(todo).0 + Life(rest).0) == trace + Life(rest).0;
        }
      }
      if end == Failure {
        DropEngine();
      }
    }
  }
}
