// One prompt turn over the agent's JSON-RPC stream: the read loop with its two
// deadlines and mid-turn steering, and the cancellation that follows a timeout.
//
// A pass of the select loop is one record of what the environment offers: the
// clock at the deadline check, what the reader and the steer channel have ready,
// the clock when the chosen arm fires and when the frame is handled, and whether
// a write made in this pass goes through.
module AcpTurn {
  import opened Wrappers

  // Milliseconds on the monotonic clock.
  type Time = int

  const CLEANUP_MS: nat := 30_000

  datatype JsonId = NumberId(n: nat) | TextId(s: string) | OtherId(text: string)

  datatype MethodName = SessionUpdate | UsageUpdate | RequestPermission | OtherMethod(name: string)

  datatype MethodField = NoMethod | NotAString | Method(name: MethodName)

  datatype Update = ToolCall | RunStarted(run: string) | RunCleared | OtherUpdate

  datatype OptionKind = AllowOnce | RejectOnce | OtherKind

  datatype PermissionOption = PermissionOption(kind: OptionKind, optionId: Option<string>)

  datatype Outcome = Injected | StartedNewTurn | Unrecognized(reported: string)

  datatype StopReason = EndTurn | StopCancelled | MaxTokens | MaxTurnRequests | Refusal

  datatype StopField = Stop(reason: StopReason) | UnknownStop | NoStop

  datatype Payload = Payload(outcome: Outcome, stop: StopField)

  datatype Fault = Fault(code: Option<int>, message: string)

  // A parsed line: the members of it that the loop looks at.
  datatype Message = Message(
    id: Option<JsonId>,
    call: MethodField,
    error: Option<Fault>,
    result: Payload,
    update: Update,
    options: Option<seq<PermissionOption>>)
  {
    // A response has an id and no method member at all.
    predicate RespondsTo(n: nat) {
      id == Some(NumberId(n)) && call.NoMethod?
    }
  }

  datatype ReaderItem = Eof | LineTooLong | ReadFailure | Blank | Unparsable | Parsed(message: Message)

  datatype Pass = Pass(
    checkedAt: Time,
    reader: Option<ReaderItem>,
    steerWaiting: bool,
    firedAt: Time,
    handledAt: Time,
    writeOk: bool)

  datatype Transport = Goose | AcpExtension

  datatype SteerError = ExpectedRunIdMissing | SteerWriteFailed | SteerRefused(code: int) | OutcomeRejected(reported: string)

  datatype SteerAck = Success | PromptCompletedNeutral | SteerFailed(error: SteerError)

  // Steer requests are numbered in the order the loop receives them.
  datatype Ack = Ack(request: nat, ack: SteerAck)

  datatype Pending = Pending(id: nat, transport: Transport, request: nat)

  datatype Outgoing =
    | PromptRequest(id: nat)
    | SetupRequest(id: nat)
    | SteerRequest(id: nat, transport: Transport, run: Option<string>, request: nat)
    | PermissionSelected(permission: JsonId, optionId: string)
    | PermissionCancelled(permission: JsonId)
    | MethodNotFound(unknown: JsonId)
    | CancelNotification

  datatype Exit =
    | Response(payload: Payload)
    | AgentError(fault: Fault)
    | IdleTimeout
    | HardTimeout(silence: Time)
    | AgentExited
    | Oversized
    | ReadError
    | ProtocolError
    | WriteFailed
  {
    // The two exits that propagate an error out of a frame handler without
    // settling a steer request still in flight.
    predicate Propagated() {
      ProtocolError? || WriteFailed?
    }

    predicate TimedOut() {
      IdleTimeout? || HardTimeout?
    }
  }

  // ---------- the client's fields ----------

  datatype Client = Client(
    nextId: nat,
    lastPromptId: Option<nat>,
    storedDeadline: Option<Time>,
    activeRun: Option<string>,
    steeringSupported: bool,
    steerInstalled: bool,
    pendingPermission: Option<JsonId>,
    permissionResponded: bool,
    written: seq<Outgoing>)
  {
    function Wrote(line: Outgoing): Client {
      this.(written := written + [line])
    }

    function Updated(update: Update): Client {
      match update
      case RunStarted(run) => this.(activeRun := Some(run))
      case RunCleared => this.(activeRun := None)
      case _ => this
    }

    function SteerTransport(): Option<Transport> {
      if activeRun.Some? then Some(Goose) else if steeringSupported then Some(AcpExtension) else None
    }

    // Answering a permission request: the client after it, and the error it ends with.
    function Permitted(message: Message, writeOk: bool): (Client, Option<Exit>) {
      if message.id.None? then (this, Some(ProtocolError))
      else
        var asked := this.(pendingPermission := message.id, permissionResponded := false);
        match Choice(message.options)
        case None => (asked, Some(ProtocolError))
        case Some(optionId) =>
          if !writeOk then (asked, Some(WriteFailed))
          else
            (asked.Wrote(PermissionSelected(message.id.value, optionId))
             .(permissionResponded := true, pendingPermission := None), None)
    }
  }

  function FirstOfKind(options: seq<PermissionOption>, kind: OptionKind): Option<PermissionOption> {
    if options == [] then None
    else if options[0].kind == kind then Some(options[0])
    else FirstOfKind(options[1..], kind)
  }

  // The first `allow_once` option, which must carry an id; otherwise the first `reject_once`.
  function Choice(options: Option<seq<PermissionOption>>): Option<string> {
    if options.None? then None
    else
      var allow := FirstOfKind(options.value, AllowOnce);
      var reject := FirstOfKind(options.value, RejectOnce);
      if allow.Some? then allow.value.optionId
      else if reject.Some? then Some(reject.value.optionId.GetOr("reject"))
      else None
  }

  // ---------- one pass ----------

  datatype Turn = Turn(expectedId: nat, idleTimeout: nat, maxDuration: nat, steerOpen: bool)

  datatype Loop = Loop(
    client: Client,
    pending: Option<Pending>,
    idleDeadline: Time,
    hardDeadline: Time,
    lastActivity: Time,
    received: nat,
    acks: seq<Ack>,
    exit: Option<Exit>)
  {
    predicate IdleFirst() {
      idleDeadline < hardDeadline
    }

    function NextDeadline(): Time {
      if IdleFirst() then idleDeadline else hardDeadline
    }

    // Settles a steer still in flight as neutral and leaves the loop.
    function Leave(reason: Exit): Loop {
      var settled := if pending.Some? then acks + [Ack(pending.value.request, PromptCompletedNeutral)] else acks;
      this.(pending := None, acks := settled, exit := Some(reason))
    }

    function TimeOut(at: Time): Loop {
      Leave(if IdleFirst() then IdleTimeout
            else HardTimeout(if at < lastActivity then 0 else at - lastActivity))
    }

    function Active(turn: Turn, at: Time): Loop {
      this.(idleDeadline := at + turn.idleTimeout, lastActivity := at)
    }

    function OnSteer(writeOk: bool): Loop {
      var request := received;
      var counted := this.(received := received + 1);
      match client.SteerTransport()
      case None => counted.(acks := acks + [Ack(request, SteerFailed(ExpectedRunIdMissing))])
      case Some(transport) =>
        var id := client.nextId;
        var numbered := client.(nextId := id + 1);
        var run := if transport == Goose then client.activeRun else None;
        if writeOk then
          counted.(client := numbered.Wrote(SteerRequest(id, transport, run, request)),
                   pending := Some(Pending(id, transport, request)))
        else counted.(client := numbered, acks := acks + [Ack(request, SteerFailed(SteerWriteFailed))])
    }

    // The response to the steer in flight.
    function OnSteerResponse(turn: Turn, message: Message, handledAt: Time): Loop
      requires pending.Some?
    {
      var ack := Judge(pending.value.transport, message);
      var renewed := handledAt + turn.maxDuration;
      var settled := this.(pending := None, acks := acks + [Ack(pending.value.request, ack)]);
      if Renews(pending.value.transport, message) && renewed > hardDeadline then
        settled.(hardDeadline := renewed, client := client.(storedDeadline := Some(renewed)))
      else settled
    }

    function OnPromptResponse(message: Message): Loop {
      Leave(if message.error.Some? then AgentError(message.error.value) else Response(message.result))
    }

    function OnRequest(turn: Turn, message: Message, handledAt: Time, writeOk: bool): Loop {
      match message.call
      case Method(SessionUpdate) =>
        var updated := this.(client := client.Updated(message.update));
        if message.update.ToolCall? then updated.Active(turn, handledAt) else updated
      case Method(RequestPermission) =>
        var (answered, failure) := client.Permitted(message, writeOk);
        this.(client := answered, exit := failure)
      case Method(OtherMethod(_)) =>
        if message.id.None? then this
        else if writeOk then this.(client := client.Wrote(MethodNotFound(message.id.value)))
        else this.(exit := Some(WriteFailed))
      case _ => this
    }

    function OnMessage(turn: Turn, message: Message, handledAt: Time, writeOk: bool): Loop {
      if pending.Some? && message.RespondsTo(pending.value.id) then OnSteerResponse(turn, message, handledAt)
      else if message.RespondsTo(turn.expectedId) then OnPromptResponse(message)
      else OnRequest(turn, message, handledAt, writeOk)
    }

    function OnRead(turn: Turn, item: ReaderItem, pass: Pass): Loop {
      match item
      case Eof => Leave(AgentExited)
      case LineTooLong => Leave(Oversized)
      case ReadFailure => Leave(ReadError)
      case Blank | Unparsable => this
      case Parsed(message) => Active(turn, pass.firedAt).OnMessage(turn, message, pass.handledAt, pass.writeOk)
    }

    // The biased select: reader first, then the steer channel while no steer is
    // in flight, then the timer.
    function Step(turn: Turn, pass: Pass): Loop {
      if exit.Some? then this
      else if pass.checkedAt >= NextDeadline() then TimeOut(pass.checkedAt)
      else if pass.reader.Some? then OnRead(turn, pass.reader.value, pass)
      else if pass.steerWaiting && turn.steerOpen && pending.None? then OnSteer(pass.writeOk)
      else TimeOut(pass.firedAt)
    }
  }

  // What a response without a method member says about a steer.
  function Judge(transport: Transport, message: Message): SteerAck {
    if message.error.Some? then SteerFailed(SteerRefused(message.error.value.code.GetOr(-1)))
    else if transport == Goose || message.result.outcome.Injected? || message.result.outcome.StartedNewTurn? then SteerAck.Success
    else SteerFailed(OutcomeRejected(message.result.outcome.reported))
  }

  // Only a steer that landed in the awaited turn renews its clock.
  predicate Renews(transport: Transport, message: Message) {
    message.error.None? && (transport == Goose || message.result.outcome.Injected?)
  }

  function Run(turn: Turn, start: Loop, passes: seq<Pass>): Loop {
    if passes == [] then start else Run(turn, start, passes[..|passes| - 1]).Step(turn, passes[|passes| - 1])
  }

  // Entering the loop takes the steer channel out of the client.
  function Begin(client: Client, now: Time, idleTimeout: nat, hardDeadline: Time): Loop {
    Loop(client.(steerInstalled := false), None, now + idleTimeout, hardDeadline, now, 0, [], None)
  }

  // ---------- prompt and cancellation ----------

  datatype PromptResult =
    | StillRunning
    | Stopped(reason: StopReason)
    | Errored(error: Exit)
    | NoPrompt
    | DrainTimedOut(grace: nat)

  function ParseStop(payload: Payload): PromptResult {
    match payload.stop
    case Stop(reason) => Stopped(reason)
    case _ => Errored(ProtocolError)
  }

  // After the loop: timeouts keep the prompt id and the deadline for the
  // cancellation to inherit; every other outcome clears them.
  function Concluded(loop: Loop): (Client, PromptResult) {
    match loop.exit
    case None => (loop.client, StillRunning)
    case Some(Response(payload)) => (loop.client.(lastPromptId := None, storedDeadline := None), ParseStop(payload))
    case Some(exit) =>
      (if exit.TimedOut() then loop.client else loop.client.(lastPromptId := None, storedDeadline := None),
       Errored(exit))
  }

  datatype PromptEnv = PromptEnv(
    at: Time, idleTimeout: nat, maxDuration: nat, writeOk: bool, startedAt: Time, passes: seq<Pass>)

  function PromptTurn(client: Client, env: PromptEnv): Turn {
    Turn(client.nextId, env.idleTimeout, env.maxDuration, client.steerInstalled)
  }

  function Prompted(client: Client, env: PromptEnv): Client {
    client.(storedDeadline := Some(env.at + env.maxDuration),
            lastPromptId := Some(client.nextId),
            nextId := client.nextId + 1).Wrote(PromptRequest(client.nextId))
  }

  function PromptLoop(client: Client, env: PromptEnv, passes: seq<Pass>): Loop {
    Run(PromptTurn(client, env),
        Begin(Prompted(client, env), env.startedAt, env.idleTimeout, env.at + env.maxDuration),
        passes)
  }

  function SessionPrompt(client: Client, env: PromptEnv): (Client, PromptResult) {
    if !env.writeOk
    then (client.(storedDeadline := None, lastPromptId := None, nextId := client.nextId + 1), Errored(WriteFailed))
    else Concluded(PromptLoop(client, env, env.passes))
  }

  // The client a stop finds: the prompt was dropped while its own line was being
  // written (`writeOk` is false), or in the loop after `passes`.  A stop while the
  // loop writes is a last pass whose write did not succeed.
  function StopPrompt(client: Client, env: PromptEnv): Client {
    if !env.writeOk
    then client.(storedDeadline := Some(env.at + env.maxDuration), lastPromptId := Some(client.nextId),
                 nextId := client.nextId + 1)
    else PromptLoop(client, env, env.passes).client
  }

  datatype CancelEnv = CancelEnv(
    at: Time, permissionWriteOk: bool, cancelWriteOk: bool, measuredAt: Time, startedAt: Time, passes: seq<Pass>)

  // The drain shares the turn's remaining budget, but never gets less than the grace.
  function DrainDeadline(stored: Option<Time>, at: Time): Time {
    if stored.Some? && stored.value > at + CLEANUP_MS then stored.value else at + CLEANUP_MS
  }

  function AfterPermissionCancelled(client: Client): Client {
    if client.pendingPermission.None? then client
    else
      var told := if client.permissionResponded then client
                  else client.Wrote(PermissionCancelled(client.pendingPermission.value));
      told.(pendingPermission := None, permissionResponded := false)
  }

  function DrainStart(client: Client): Client {
    AfterPermissionCancelled(client.(lastPromptId := None)).Wrote(CancelNotification)
  }

  function DrainLoop(client: Client, hard: Time, env: CancelEnv, passes: seq<Pass>): Loop
    requires client.lastPromptId.Some?
  {
    var remaining := if env.measuredAt <= hard then hard - env.measuredAt else 0;
    Run(Turn(client.lastPromptId.value, CLEANUP_MS, remaining, client.steerInstalled),
        Begin(DrainStart(client), env.startedAt, CLEANUP_MS, hard),
        passes)
  }

  // Tell the agent to stop, then read on until the prompt's response or `hard`.
  function Drain(client: Client, hard: Time, env: CancelEnv): (Client, PromptResult) {
    var taken := client.(lastPromptId := None);
    if client.lastPromptId.None? then (taken, NoPrompt)
    else if client.pendingPermission.Some? && !client.permissionResponded && !env.permissionWriteOk then
      (taken, Errored(WriteFailed))
    else if !env.cancelWriteOk then (AfterPermissionCancelled(taken), Errored(WriteFailed))
    else
      var loop := DrainLoop(client, hard, env, env.passes);
      match loop.exit
      case None => (loop.client, StillRunning)
      case Some(Response(payload)) => (loop.client, ParseStop(payload))
      case Some(exit) => (loop.client, Errored(exit))
  }

  function CancelWithCleanup(client: Client, env: CancelEnv): (Client, PromptResult) {
    Drain(client.(storedDeadline := None), DrainDeadline(client.storedDeadline, env.at), env)
  }

  // A bounded drain that expires is not a hard timeout of the turn.
  function CancelWithGrace(client: Client, grace: nat, env: CancelEnv): (Client, PromptResult) {
    var (after, result) := Drain(client.(storedDeadline := None), env.at + grace, env);
    (after, if result.Errored? && result.error.HardTimeout? then DrainTimedOut(grace) else result)
  }
}
