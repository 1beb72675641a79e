/** Session channels: the state machine of one channel, and the registry that multiplexes many. */
module Channels {
  import opened Wrappers

  /** A JavaScript number, as far as the channels look at it. */
  datatype Number = Finite(value: real) | NotFinite

  predicate PositiveInteger(n: Number) {
    n.Finite? && n.value.Floor as real == n.value && n.value >= 1.0
  }

  datatype Phase = Idle | Opening | Open | Closing | Closed | Failed

  datatype Problem = Problem(code: string, message: string, at: Number)

  datatype ChannelState = ChannelState(
    phase: Phase, generation: Option<Number>, channelId: Option<string>, sessionId: Option<string>,
    openedAt: Option<Number>, closedAt: Option<Number>, error: Option<Problem>)

  datatype Context = Context(generation: Number, channelId: string, sessionId: string, at: Number)

  datatype Refusal =
    | InvalidGeneration | InvalidChannelId | InvalidTransition(got: Phase)
    | StaleGeneration | ChannelMismatch | MissingSession | UnknownChannel | AlreadyExists

  // ---------------------------------------------------------------- one channel

  function AssertContext(s: ChannelState, c: Context): Option<Refusal> {
    if !PositiveInteger(c.generation) then Some(InvalidGeneration)
    else if s.generation != Some(c.generation) then Some(StaleGeneration)
    else if s.channelId != Some(c.channelId) || s.sessionId != Some(c.sessionId) then Some(ChannelMismatch)
    else None
  }

  const CREATED := ChannelState(Idle, None, None, None, None, None, None)

  function OpenChannel(s: ChannelState, c: Context): Result<ChannelState, Refusal> {
    if s.phase != Idle then Failure(InvalidTransition(s.phase))
    else if !PositiveInteger(c.generation) then Failure(InvalidGeneration)
    else if c.channelId == "" || c.sessionId == "" then Failure(InvalidChannelId)
    else Success(ChannelState(Opening, Some(c.generation), Some(c.channelId), Some(c.sessionId), None, None, None))
  }

  /** The checks shared by the transitions out of one phase. */
  function Guarded(s: ChannelState, c: Context, expected: Phase, next: ChannelState): Result<ChannelState, Refusal> {
    if s.phase != expected then Failure(InvalidTransition(s.phase))
    else if AssertContext(s, c).Some? then Failure(AssertContext(s, c).value)
    else Success(next)
  }

  function OnOpenAck(s: ChannelState, c: Context): Result<ChannelState, Refusal> {
    Guarded(s, c, Opening, s.(phase := Open, openedAt := Some(c.at)))
  }

  function OnMessage(s: ChannelState, c: Context): Result<ChannelState, Refusal> {
    Guarded(s, c, Open, s)
  }

  function OnClose(s: ChannelState, c: Context): Result<ChannelState, Refusal> {
    Guarded(s, c, Open, s.(phase := Closing))
  }

  function OnCloseAck(s: ChannelState, c: Context): Result<ChannelState, Refusal> {
    Guarded(s, c, Closing, s.(phase := Closed, closedAt := Some(c.at)))
  }

  function OnError(s: ChannelState, c: Context, code: string, message: string): Result<ChannelState, Refusal> {
    if s.phase != Opening && s.phase != Open && s.phase != Closing then Failure(InvalidTransition(s.phase))
    else if AssertContext(s, c).Some? then Failure(AssertContext(s, c).value)
    else Success(s.(phase := Failed, error := Some(Problem(code, message, c.at))))
  }

  // ---------------------------------------------------------------- the registry

  type Registry = map<string, ChannelState>

  datatype Kind = Opens(session: string) | Acks | Sends | Closes | AcksClose | Fails(code: string, message: string)

  datatype Op = Op(kind: Kind, generation: Number, channel: string, at: Number)

  function ContextFor(s: ChannelState, op: Op): Result<Context, Refusal> {
    if s.channelId != Some(op.channel) then Failure(ChannelMismatch)
    else if s.generation != Some(op.generation) then Failure(StaleGeneration)
    else if s.sessionId.None? then Failure(MissingSession)
    else Success(Context(op.generation, op.channel, s.sessionId.value, op.at))
  }

  function Transition(s: ChannelState, c: Context, kind: Kind): Result<ChannelState, Refusal> {
    match kind
    case Opens(_) => OpenChannel(s, c)
    case Acks => OnOpenAck(s, c)
    case Sends => OnMessage(s, c)
    case Closes => OnClose(s, c)
    case AcksClose => OnCloseAck(s, c)
    case Fails(code, message) => OnError(s, c, code, message)
  }

  /** One registry operation: the new registry, or the error that leaves the caller with the old one. */
  function Apply(r: Registry, op: Op): Result<Registry, Refusal> {
    if op.kind.Opens? then
      if op.channel in r then Failure(AlreadyExists)
      else
        match Transition(CREATED, Context(op.generation, op.channel, op.kind.session, op.at), op.kind)
        case Failure(e) => Failure(e)
        case Success(next) => Success(r[op.channel := next])
    else if op.channel !in r then Failure(UnknownChannel)
    else
      match ContextFor(r[op.channel], op)
      case Failure(e) => Failure(e)
      case Success(c) =>
        match Transition(r[op.channel], c, op.kind)
        case Failure(e) => Failure(e)
        case Success(next) => Success(r[op.channel := next])
  }

  function After(r: Registry, op: Op): Registry {
    if Apply(r, op).Success? then Apply(r, op).value else r
  }

  function Run(ops: seq<Op>): Registry {
    if ops == [] then map[] else After(Run(ops[..|ops| - 1]), ops[|ops| - 1])
  }

  // ---------------------------------------------------------------- what a channel should do

  /** The protocol by itself: which accepted operation may follow which. */
  predicate Follows(last: Option<Op>, next: Op) {
    if last.None? then
      next.kind.Opens? && PositiveInteger(next.generation) && next.channel != "" && next.kind.session != ""
    else
      match last.value.kind
      case Opens(_) => next.kind.Acks? || next.kind.Fails?
      case Acks => next.kind.Sends? || next.kind.Closes? || next.kind.Fails?
      case Sends => next.kind.Sends? || next.kind.Closes? || next.kind.Fails?
      case Closes => next.kind.AcksClose? || next.kind.Fails?
      case AcksClose => false
      case Fails(_, _) => false
  }

  function Last(history: seq<Op>): Option<Op> {
    if history == [] then None else Some(history[|history| - 1])
  }

  /** A channel seen alone: it accepts an operation that may follow, of the generation it was opened in. */
  predicate Accepts(history: seq<Op>, op: Op) {
    Follows(Last(history), op) && (history != [] ==> op.generation == history[0].generation)
  }

  function Alone(history: seq<Op>, op: Op): seq<Op> {
    if Accepts(history, op) then history + [op] else history
  }

  /** The operations a channel has accepted, if only its own operations are run. */
  function History(ops: seq<Op>, channel: string): seq<Op> {
    if ops == [] then []
    else
      var n := |ops| - 1;
      var before := History(ops[..n], channel);
      if ops[n].channel == channel then Alone(before, ops[n]) else before
  }

  /** The moment of the accepted operation that acknowledged the opening. */
  function AckedAt(history: seq<Op>): Option<Number> {
    if |history| >= 2 && history[1].kind.Acks? then Some(history[1].at) else None
  }

  function PhaseAfter(kind: Kind): Phase {
    match kind
    case Opens(_) => Opening
    case Acks => Open
    case Sends => Open
    case Closes => Closing
    case AcksClose => Closed
    case Fails(_, _) => Failed
  }

  /** The state a channel must be in after its accepted operations. */
  function StateOf(history: seq<Op>): ChannelState
    requires history != [] && history[0].kind.Opens?
  {
    var first, last := history[0], history[|history| - 1];
    ChannelState(
      PhaseAfter(last.kind), Some(first.generation), Some(first.channel), Some(first.kind.session),
      AckedAt(history),
      if last.kind.AcksClose? then Some(last.at) else None,
      if last.kind.Fails? then Some(Problem(last.kind.code, last.kind.message, last.at)) else None)
  }

  /** Why a channel seen alone refuses an operation. */
  function Refuses(history: seq<Op>, op: Op): Refusal
    requires history != [] ==> history[0].kind.Opens?
  {
    if history == [] then
      if !op.kind.Opens? then UnknownChannel
      else if !PositiveInteger(op.generation) then InvalidGeneration
      else InvalidChannelId
    else if op.kind.Opens? then AlreadyExists
    else if op.generation != history[0].generation then StaleGeneration
    else InvalidTransition(PhaseAfter(history[|history| - 1].kind))
  }

  /** What every history of accepted operations looks like. */
  ghost predicate Protocol(history: seq<Op>, channel: string) {
    && (history != [] ==> Follows(None, history[0]))
    && (forall i :: 0 <= i < |history| ==> history[i].channel == channel)
    && (forall i :: 0 <= i < |history| ==> history[i].generation == history[0].generation)
    && (forall i :: 0 < i < |history| ==> Follows(Some(history[i - 1]), history[i]))
  }

  lemma {:induction false} HistoryFollowsProtocol(ops: seq<Op>, channel: string)
    ensures Protocol(History(ops, channel), channel)
  {
    if ops != [] {
      HistoryFollowsProtocol(ops[..|ops| - 1], channel);
    }
  }

  // ---------------------------------------------------------------- one transition, from any state

  ghost function Whole(k: int): Number {
    Finite(k as real)
  }

  lemma PositiveIntegerIff(n: Number)
    ensures PositiveInteger(n) <==> exists k: int :: k >= 1 && n == Whole(k)
  {
    if PositiveInteger(n) {
      assert n == Whole(n.value.Floor) && n.value.Floor >= 1;
    }
    if k: int :| k >= 1 && n == Whole(k) {
      assert (k as real).Floor == k;
    }
  }

  /** Where a transition begins. */
  ghost predicate BeginsIn(kind: Kind, phase: Phase) {
    match kind
    case Opens(_) => phase == Idle
    case Acks => phase == Opening
    case Sends => phase == Open
    case Closes => phase == Open
    case AcksClose => phase == Closing
    case Fails(_, _) => phase in {Opening, Open, Closing}
  }

  /** What a transition from a state leads to: what it sets is listed, all else stays. */
  ghost predicate LeadsTo(s: ChannelState, c: Context, kind: Kind, t: ChannelState) {
    match kind
    case Opens(_) =>
      t == ChannelState(Opening, Some(c.generation), Some(c.channelId), Some(c.sessionId), None, None, None)
    case Acks => t.phase == Open && t.openedAt == Some(c.at) && s == t.(phase := s.phase, openedAt := s.openedAt)
    case Sends => t == s
    case Closes => t.phase == Closing && s == t.(phase := s.phase)
    case AcksClose => t.phase == Closed && t.closedAt == Some(c.at) && s == t.(phase := s.phase, closedAt := s.closedAt)
    case Fails(code, message) =>
      && t.phase == Failed && t.error == Some(Problem(code, message, c.at))
      && s == t.(phase := s.phase, error := s.error)
  }

  /**
   * One transition, from any state and with any context. Each refusal is made on exactly one kind of
   * defect, the phase before the generation before the identity; without a defect the state is the next one.
   */
  lemma TransitionIff(s: ChannelState, c: Context, kind: Kind)
    ensures
      var r := Transition(s, c, kind);
      var positive := exists k: int :: k >= 1 && c.generation == Whole(k);
      var placed := BeginsIn(kind, s.phase);
      var current := kind.Opens? || s.generation == Some(c.generation);
      var known :=
        if kind.Opens? then c.channelId != "" && c.sessionId != ""
        else s.channelId == Some(c.channelId) && s.sessionId == Some(c.sessionId);
      && (r == Failure(InvalidTransition(s.phase)) <==> !placed)
      && (r == Failure(InvalidGeneration) <==> placed && !positive)
      && (r == Failure(StaleGeneration) <==> placed && positive && !current)
      && (r == Failure(InvalidChannelId) <==> placed && positive && !known && kind.Opens?)
      && (r == Failure(ChannelMismatch) <==> placed && positive && current && !known && !kind.Opens?)
      && (r.Success? <==> placed && positive && current && known)
      && (r.Success? ==> LeadsTo(s, c, kind, r.value))
  {
    PositiveIntegerIff(c.generation);
    hide PositiveInteger;
  }

  /** The registry's own checks, from any state of a channel. */
  lemma ContextForIff(s: ChannelState, op: Op)
    ensures
      var r := ContextFor(s, op);
      && (r == Failure(ChannelMismatch) <==> s.channelId != Some(op.channel))
      && (r == Failure(StaleGeneration) <==> s.channelId == Some(op.channel) && s.generation != Some(op.generation))
      && (r == Failure(MissingSession) <==>
            s.channelId == Some(op.channel) && s.generation == Some(op.generation) && s.sessionId == None)
      && (r.Success? ==>
            && s.sessionId == Some(r.value.sessionId)
            && r.value == Context(op.generation, op.channel, r.value.sessionId, op.at))
  {
  }

  // ---------------------------------------------------------------- the registry is a product

  ghost predicate Agrees(r: Registry, channel: string, history: seq<Op>) {
    && Protocol(history, channel)
    && (channel in r <==> history != [])
    && (channel in r ==> r[channel] == StateOf(history))
  }

  /** One operation: the registry does to its channel what the channel alone would do, error and all. */
  lemma StepIsAlone(r: Registry, op: Op, history: seq<Op>)
    requires Agrees(r, op.channel, history)
    ensures Apply(r, op).Success? <==> Accepts(history, op)
    ensures Apply(r, op).Failure? ==> Apply(r, op).error == Refuses(history, op)
    ensures Agrees(After(r, op), op.channel, Alone(history, op))
  {
    if history != [] {
      assert PositiveInteger(history[0].generation);
      OpensOnlyFirst(history, op.channel);
      if Accepts(history, op) {
        GrownProtocol(history, op);
        GrownState(history, op);
      }
    } else {
      GrownProtocol(history, op);
    }
  }

  lemma OpensOnlyFirst(history: seq<Op>, channel: string)
    requires Protocol(history, channel) && history != []
    ensures history[|history| - 1].kind.Opens? <==> |history| == 1
  {
    var n := |history| - 1;
    if n > 0 {
      assert Follows(Some(history[n - 1]), history[n]);
    }
  }

  lemma GrownProtocol(history: seq<Op>, op: Op)
    requires Protocol(history, op.channel)
    ensures Accepts(history, op) ==> Protocol(history + [op], op.channel)
  {
    hide Follows;
  }

  lemma GrownState(history: seq<Op>, op: Op)
    requires history != [] && Protocol(history, op.channel) && Accepts(history, op)
    requires history[|history| - 1].kind.Opens? <==> |history| == 1
    ensures
      var s := StateOf(history);
      Transition(s, Context(op.generation, op.channel, s.sessionId.value, op.at), op.kind)
        == Success(StateOf(history + [op]))
  {
    var more := history + [op];
    assert more[0] == history[0] && more[|more| - 1] == op;
    assert |history| >= 2 ==> more[1] == history[1];
    assert PositiveInteger(op.generation);
  }

  lemma StepLeavesOthers(r: Registry, op: Op, channel: string)
    requires channel != op.channel
    ensures channel in After(r, op) <==> channel in r
    ensures channel in r ==> After(r, op)[channel] == r[channel]
  {
  }

  /**
   * After any operations on any channels, each channel is exactly where its own operations alone would
   * have taken it.
   */
  lemma {:induction false} RegistryIsProduct(ops: seq<Op>, channel: string)
    ensures Agrees(Run(ops), channel, History(ops, channel))
  {
    if ops != [] {
      var n := |ops| - 1;
      RegistryIsProduct(ops[..n], channel);
      if ops[n].channel == channel {
        StepIsAlone(Run(ops[..n]), ops[n], History(ops[..n], channel));
      } else {
        StepLeavesOthers(Run(ops[..n]), ops[n], channel);
      }
    }
  }

  function Mine(ops: seq<Op>, channel: string): seq<Op> {
    if ops == [] then []
    else
      var n := |ops| - 1;
      var before := Mine(ops[..n], channel);
      if ops[n].channel == channel then before + [ops[n]] else before
  }

  lemma {:induction false} HistoryOfMine(ops: seq<Op>, channel: string)
    ensures History(Mine(ops, channel), channel) == History(ops, channel)
  {
    if ops != [] {
      var n := |ops| - 1;
      HistoryOfMine(ops[..n], channel);
      if ops[n].channel == channel {
        var mine := Mine(ops, channel);
        assert mine[..|mine| - 1] == Mine(ops[..n], channel);
      }
    }
  }

  /** Running only a channel's own operations gives the same channel. */
  lemma {:induction false} OthersDoNotMatter(ops: seq<Op>, channel: string)
    ensures channel in Run(ops) <==> channel in Run(Mine(ops, channel))
    ensures channel in Run(ops) ==> Run(ops)[channel] == Run(Mine(ops, channel))[channel]
  {
    RegistryIsProduct(ops, channel);
    RegistryIsProduct(Mine(ops, channel), channel);
    HistoryOfMine(ops, channel);
  }

  /** The own operations of a channel: all of them and no others, as those of a first part and of a second. */
  lemma {:induction false} MineIff(a: seq<Op>, b: seq<Op>, channel: string)
    ensures Mine(a + b, channel) == Mine(a, channel) + Mine(b, channel)
    ensures forall op :: op in Mine(b, channel) <==> op in b && op.channel == channel
  {
    if b == [] {
      assert a + b == a;
    } else {
      var n := |b| - 1;
      assert (a + b)[..|a| + n] == a + b[..n] && b == b[..n] + [b[n]];
      MineIff(a, b[..n], channel);
    }
  }

  /** The inner checks of identity never fire: a refusal always says what is wrong with the operation. */
  lemma InnerErrorsUnreachable(ops: seq<Op>, op: Op)
    ensures Apply(Run(ops), op).Failure? ==>
      && Protocol(History(ops, op.channel), op.channel)
      && Apply(Run(ops), op).error == Refuses(History(ops, op.channel), op)
      && Apply(Run(ops), op).error !in {ChannelMismatch, MissingSession}
      && (Apply(Run(ops), op).error == InvalidGeneration ==> op.kind.Opens? && op.channel !in Run(ops))
  {
    RegistryIsProduct(ops, op.channel);
    StepIsAlone(Run(ops), op, History(ops, op.channel));
  }

  // ---------------------------------------------------------------- what stays over a whole run

  lemma {:induction false} HistoryGrows(ops: seq<Op>, more: seq<Op>, channel: string)
    ensures History(ops, channel) <= History(ops + more, channel)
  {
    if more == [] {
      assert ops + more == ops;
    } else {
      var n := |more| - 1;
      HistoryGrows(ops, more[..n], channel);
      assert (ops + more)[..|ops + more| - 1] == ops + more[..n];
    }
  }

  /** A channel that is closed or failed stays as it is, whatever is tried on it. */
  lemma {:induction false} FinishedIsFinal(ops: seq<Op>, more: seq<Op>, channel: string)
    requires channel in Run(ops) && Run(ops)[channel].phase in {Closed, Failed}
    ensures channel in Run(ops + more) && Run(ops + more)[channel] == Run(ops)[channel]
  {
    RegistryIsProduct(ops, channel);
    RegistryIsProduct(ops + more, channel);
    HistoryGrows(ops, more, channel);
    FinishedHistory(History(ops, channel), History(ops + more, channel), channel);
  }

  /** After its last operation a history cannot grow. */
  lemma FinishedHistory(now: seq<Op>, later: seq<Op>, channel: string)
    requires now != [] && now <= later && Protocol(later, channel)
    requires PhaseAfter(now[|now| - 1].kind) in {Closed, Failed}
    ensures later == now
  {
    var n := |now| - 1;
    assert later[n] == now[n];
    if |later| > n + 1 {
      NotYetFinished(later, channel, n + 1);
    }
  }

  lemma NotYetFinished(history: seq<Op>, channel: string, i: nat)
    requires Protocol(history, channel) && 0 < i < |history|
    ensures PhaseAfter(history[i - 1].kind) !in {Closed, Failed}
  {
    assert Follows(Some(history[i - 1]), history[i]);
  }

  /** Identity, generation and session of a channel never change once it is opened; its opening moment once set. */
  lemma IdentityIsFixed(ops: seq<Op>, more: seq<Op>, channel: string)
    requires channel in Run(ops)
    ensures channel in Run(ops + more)
    ensures
      var now, later := Run(ops)[channel], Run(ops + more)[channel];
      && now.channelId == later.channelId == Some(channel)
      && now.generation == later.generation && now.generation.Some? && PositiveInteger(now.generation.value)
      && now.sessionId == later.sessionId && now.sessionId.Some? && now.sessionId.value != ""
      && (now.openedAt.Some? ==> later.openedAt == now.openedAt)
  {
    RegistryIsProduct(ops, channel);
    RegistryIsProduct(ops + more, channel);
    HistoryGrows(ops, more, channel);
    var now, later := History(ops, channel), History(ops + more, channel);
    assert later[0] == now[0];
    if |now| >= 2 {
      assert later[1] == now[1];
    }
  }

  /** Which moments a state records tells its phase: a closing moment if closed, a problem if failed. */
  lemma {:induction false} RecordsMatchPhase(ops: seq<Op>, channel: string)
    requires channel in Run(ops)
    ensures
      var s := Run(ops)[channel];
      && s.phase != Idle
      && (s.closedAt.Some? <==> s.phase == Closed)
      && (s.error.Some? <==> s.phase == Failed)
      && (s.phase == Opening ==> s.openedAt.None?)
      && (s.phase in {Open, Closing, Closed} ==> s.openedAt.Some?)
  {
    RegistryIsProduct(ops, channel);
    AckedSecond(History(ops, channel), channel);
    OpensOnlyFirst(History(ops, channel), channel);
  }

  lemma AckedSecond(history: seq<Op>, channel: string)
    requires Protocol(history, channel) && history != []
    ensures |history| >= 2 ==> history[1].kind.Acks? || (history[1].kind.Fails? && |history| == 2)
  {
    if |history| >= 2 {
      assert Follows(Some(history[1 - 1]), history[1]);
    }
    if |history| >= 3 {
      assert Follows(Some(history[2 - 1]), history[2]);
    }
  }
}
