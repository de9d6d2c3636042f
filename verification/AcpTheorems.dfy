// What every run of the read loop keeps: steer acknowledgements, response
// routing, the two deadlines, and what a cancellation inherits.
module AcpTheorems {
  import opened Wrappers
  import opened AcpTurn

  // ---------- the ledger of acknowledgements ----------

  ghost function AcksFor(acks: seq<Ack>, request: nat): nat {
    if acks == [] then 0
    else AcksFor(acks[..|acks| - 1], request) + (if acks[|acks| - 1].request == request then 1 else 0)
  }

  lemma AckAppended(acks: seq<Ack>, ack: Ack, request: nat)
    ensures AcksFor(acks + [ack], request) == AcksFor(acks, request) + (if ack.request == request then 1 else 0)
  {
    assert (acks + [ack])[..|acks|] == acks;
  }

  // How a loop starts: nothing pending, ids below `nextId` already used.
  ghost predicate Started(turn: Turn, s: Loop) {
    && s.exit.None? && s.pending.None? && s.acks == [] && s.received == 0
    && turn.expectedId < s.client.nextId
    && s.idleDeadline == s.lastActivity + turn.idleTimeout
  }

  ghost predicate LedgerFor(s: Loop, request: nat) {
    AcksFor(s.acks, request)
    == if request >= s.received || (s.pending.Some? && s.pending.value.request == request) then 0 else 1
  }

  // A steer in flight was written under its own id, above every earlier one.
  ghost predicate PendingWritten(floor: nat, s: Loop) {
    s.pending.Some? ==>
      var p := s.pending.value;
      && floor <= p.id < s.client.nextId
      && p.request < s.received
      && exists run :: SteerRequest(p.id, p.transport, run, p.request) in s.client.written
  }

  ghost predicate Inv(turn: Turn, floor: nat, s: Loop) {
    && turn.expectedId < floor <= s.client.nextId
    && PendingWritten(floor, s)
    && s.idleDeadline == s.lastActivity + turn.idleTimeout
    && (s.exit.Some? && !s.exit.value.Propagated() ==> s.pending.None?)
    && (!turn.steerOpen ==> s.received == 0 && s.pending.None?)
  }

  // The id of a line that is a request of ours.
  ghost function RequestId(line: Outgoing): Option<nat> {
    match line
    case PromptRequest(id) => Some(id)
    case SetupRequest(id) => Some(id)
    case SteerRequest(id, _, _, _) => Some(id)
    case _ => None
  }

  // What a pass can do to the steer in flight and to the ledger: nothing, settle
  // it, receive a request and settle that, or receive one and write it.
  ghost predicate AckEffect(s: Loop, t: Loop) {
    || (t.acks == s.acks && t.received == s.received && t.pending == s.pending)
    || (&& s.pending.Some? && t.pending.None? && t.received == s.received
        && exists ack :: t.acks == s.acks + [Ack(s.pending.value.request, ack)])
    || (&& s.pending.None? && t.pending.None? && t.received == s.received + 1
        && exists ack :: t.acks == s.acks + [Ack(s.received, ack)])
    || (&& s.pending.None? && t.received == s.received + 1 && t.acks == s.acks
        && t.pending.Some? && t.pending.value.id == s.client.nextId && t.pending.value.request == s.received)
  }

  // What it can do to the output: nothing, a line with no request id, or a steer
  // request with the next id, which becomes the one in flight.
  ghost predicate WriteEffect(s: Loop, t: Loop) {
    || (t.client.written == s.client.written && s.client.nextId <= t.client.nextId
        && (t.pending.Some? ==> t.pending == s.pending))
    || (t.client.nextId == s.client.nextId && (t.pending.Some? ==> t.pending == s.pending)
        && exists line :: RequestId(line).None? && t.client.written == s.client.written + [line])
    || (t.client.nextId == s.client.nextId + 1 && t.pending.Some? && t.pending.value.id == s.client.nextId
        && exists run :: t.client.written
                         == s.client.written
                            + [SteerRequest(t.pending.value.id, t.pending.value.transport, run, t.pending.value.request)])
  }

  // An outstanding permission request has not been answered.
  ghost predicate PermissionOpen(client: Client) {
    client.pendingPermission.Some? ==> !client.permissionResponded
  }

  // The stored deadline follows the live one; the other fields the prompt set stay.
  ghost predicate ClientEffect(s: Loop, t: Loop) {
    && t.client.lastPromptId == s.client.lastPromptId
    && t.client.steerInstalled == s.client.steerInstalled
    && (t.client.storedDeadline == Some(t.hardDeadline)
        || (t.client.storedDeadline == s.client.storedDeadline && t.hardDeadline == s.hardDeadline))
    && (PermissionOpen(s.client) ==> PermissionOpen(t.client))
  }

  // Leaving settles, idle time counts from the last activity, a closed channel yields no steer.
  ghost predicate ExitEffect(turn: Turn, s: Loop, t: Loop) {
    && (t.exit.None? ==> s.exit.None?)
    && (t.exit.Some? && t.exit != s.exit && !t.exit.value.Propagated() ==> t.pending.None?)
    && (s.exit.Some? ==> t == s)
    && (s.idleDeadline == s.lastActivity + turn.idleTimeout ==> t.idleDeadline == t.lastActivity + turn.idleTimeout)
    && (!turn.steerOpen && s.pending.None? ==> t.received == s.received && t.pending.None?)
  }

  ghost predicate Effect(turn: Turn, s: Loop, t: Loop) {
    AckEffect(s, t) && WriteEffect(s, t) && ClientEffect(s, t) && ExitEffect(turn, s, t)
  }

  lemma LeaveEffect(turn: Turn, s: Loop, reason: Exit)
    requires s.exit.None?
    ensures Effect(turn, s, s.Leave(reason))
  {
    if s.pending.Some? {
      assert s.Leave(reason).acks == s.acks + [Ack(s.pending.value.request, PromptCompletedNeutral)];
    }
  }

  lemma SteerEffect(turn: Turn, s: Loop, writeOk: bool)
    requires s.exit.None? && s.pending.None? && turn.steerOpen
    ensures Effect(turn, s, s.OnSteer(writeOk))
  {
    var t := s.OnSteer(writeOk);
    if t.pending.Some? {
      var run := if t.pending.value.transport == Goose then s.client.activeRun else None;
      assert t.client.written
             == s.client.written + [SteerRequest(s.client.nextId, t.pending.value.transport, run, s.received)];
    }
  }

  lemma SteerResponseEffect(turn: Turn, s: Loop, message: Message, handledAt: Time)
    requires s.exit.None? && s.pending.Some?
    ensures Effect(turn, s, s.OnSteerResponse(turn, message, handledAt))
  {
    var t := s.OnSteerResponse(turn, message, handledAt);
    assert t.acks == s.acks + [Ack(s.pending.value.request, Judge(s.pending.value.transport, message))];
  }

  lemma PermissionEffect(client: Client, message: Message, writeOk: bool)
    ensures var (answered, failure) := client.Permitted(message, writeOk);
            && answered.(pendingPermission := None, permissionResponded := false, written := [])
               == client.(pendingPermission := None, permissionResponded := false, written := [])
            && (failure.Some? ==> failure.value.Propagated())
            && (PermissionOpen(client) ==> PermissionOpen(answered))
            && (|| answered.written == client.written
                || (message.id.Some? && Choice(message.options).Some?
                    && answered.written
                       == client.written + [PermissionSelected(message.id.value, Choice(message.options).value)]))
  {
  }

  lemma RequestEffect(turn: Turn, s: Loop, message: Message, handledAt: Time, writeOk: bool)
    requires s.exit.None?
    ensures Effect(turn, s, s.OnRequest(turn, message, handledAt, writeOk))
  {
    var t := s.OnRequest(turn, message, handledAt, writeOk);
    if message.call == Method(RequestPermission) {
      PermissionEffect(s.client, message, writeOk);
      if t.client.written != s.client.written {
        assert RequestId(PermissionSelected(message.id.value, Choice(message.options).value)).None?;
      }
    } else if t.client.written != s.client.written {
      assert t.client.written == s.client.written + [MethodNotFound(message.id.value)];
    }
  }

  lemma MessageEffect(turn: Turn, s: Loop, message: Message, handledAt: Time, writeOk: bool)
    requires s.exit.None?
    ensures Effect(turn, s, s.OnMessage(turn, message, handledAt, writeOk))
  {
    if s.pending.Some? && message.RespondsTo(s.pending.value.id) {
      SteerResponseEffect(turn, s, message, handledAt);
    } else if message.RespondsTo(turn.expectedId) {
      LeaveEffect(turn, s, if message.error.Some? then AgentError(message.error.value) else Response(message.result));
    } else {
      RequestEffect(turn, s, message, handledAt, writeOk);
    }
  }

  lemma ReadEffect(turn: Turn, s: Loop, item: ReaderItem, pass: Pass)
    requires s.exit.None?
    ensures Effect(turn, s, s.OnRead(turn, item, pass))
  {
    match item
    case Eof => LeaveEffect(turn, s, AgentExited);
    case LineTooLong => LeaveEffect(turn, s, Oversized);
    case ReadFailure => LeaveEffect(turn, s, ReadError);
    case Parsed(message) =>
      MessageEffect(turn, s.Active(turn, pass.firedAt), message, pass.handledAt, pass.writeOk);
    case _ =>
  }

  // Everything the run invariants need to know of one pass.
  lemma StepEffect(turn: Turn, s: Loop, pass: Pass)
    ensures Effect(turn, s, s.Step(turn, pass))
  {
    if s.exit.None? {
      if pass.checkedAt >= s.NextDeadline() {
        LeaveEffect(turn, s, s.TimeOut(pass.checkedAt).exit.value);
      } else if pass.reader.Some? {
        ReadEffect(turn, s, pass.reader.value, pass);
      } else if pass.steerWaiting && turn.steerOpen && s.pending.None? {
        SteerEffect(turn, s, pass.writeOk);
      } else {
        LeaveEffect(turn, s, s.TimeOut(pass.firedAt).exit.value);
      }
    }
  }

  lemma PendingStaysWritten(floor: nat, s: Loop, t: Loop)
    requires PendingWritten(floor, s) && floor <= s.client.nextId && AckEffect(s, t) && WriteEffect(s, t)
    ensures PendingWritten(floor, t)
  {
    if t.pending.Some? && t.pending == s.pending {
      var p := s.pending.value;
      var run :| SteerRequest(p.id, p.transport, run, p.request) in s.client.written;
      assert SteerRequest(p.id, p.transport, run, p.request) in t.client.written;
    }
  }

  lemma EffectKeepsInv(turn: Turn, floor: nat, s: Loop, t: Loop)
    requires Inv(turn, floor, s) && Effect(turn, s, t)
    ensures Inv(turn, floor, t)
  {
    PendingStaysWritten(floor, s, t);
  }

  lemma LedgerMoves(s: Loop, t: Loop, request: nat)
    requires AckEffect(s, t) && LedgerFor(s, request)
    requires s.pending.Some? ==> s.pending.value.request < s.received
    ensures LedgerFor(t, request)
  {
    if t.acks != s.acks {
      var ack := t.acks[|t.acks| - 1];
      assert t.acks == s.acks + [ack];
      AckAppended(s.acks, ack, request);
    }
  }

  lemma {:induction false} RunKeepsInv(turn: Turn, start: Loop, passes: seq<Pass>)
    requires Started(turn, start)
    ensures Inv(turn, start.client.nextId, Run(turn, start, passes))
  {
    if passes != [] {
      var n := |passes| - 1;
      RunKeepsInv(turn, start, passes[..n]);
      StepEffect(turn, Run(turn, start, passes[..n]), passes[n]);
      EffectKeepsInv(turn, start.client.nextId, Run(turn, start, passes[..n]), Run(turn, start, passes));
    }
  }

  lemma {:induction false} RunKeepsLedger(turn: Turn, start: Loop, passes: seq<Pass>, request: nat)
    requires Started(turn, start)
    ensures LedgerFor(Run(turn, start, passes), request)
  {
    if passes != [] {
      var n := |passes| - 1;
      RunKeepsInv(turn, start, passes[..n]);
      RunKeepsLedger(turn, start, passes[..n], request);
      StepEffect(turn, Run(turn, start, passes[..n]), passes[n]);
      LedgerMoves(Run(turn, start, passes[..n]), Run(turn, start, passes), request);
    }
  }

  // Every steer request the loop received is acknowledged exactly once, except
  // the one in flight: which there is none of on leaving, unless the loop left by
  // propagating a handler's error.  Requests never received are never acknowledged.
  lemma AcknowledgedExactlyOnce(turn: Turn, start: Loop, passes: seq<Pass>, request: nat)
    requires Started(turn, start)
    ensures var s := Run(turn, start, passes);
            && AcksFor(s.acks, request) <= 1
            && (AcksFor(s.acks, request) == 1 <==>
                  request < s.received && (s.pending.None? || s.pending.value.request != request))
            && (s.exit.Some? && !s.exit.value.Propagated() ==>
                  (AcksFor(s.acks, request) == 1 <==> request < s.received))
  {
    RunKeepsInv(turn, start, passes);
    RunKeepsLedger(turn, start, passes, request);
  }

  // ---------- which frames decide what ----------

  // The pass gets to its select: the loop is running and before both deadlines.
  ghost predicate Selects(s: Loop, pass: Pass) {
    s.exit.None? && pass.checkedAt < s.idleDeadline && pass.checkedAt < s.hardDeadline
  }

  ghost predicate Reads(s: Loop, pass: Pass, message: Message) {
    Selects(s, pass) && pass.reader == Some(Parsed(message))
  }

  // A request the program cannot answer, or cannot write its answer to.
  predicate Unanswerable(message: Message, writeOk: bool) {
    || (message.call == Method(RequestPermission) && (message.id.None? || Choice(message.options).None? || !writeOk))
    || (message.call.Method? && message.call.name.OtherMethod? && message.id.Some? && !writeOk)
  }

  // The exception is real, and exact: a request that cannot be answered ends the loop by
  // propagating an error, and a steer in flight is then dropped without an acknowledgement.
  lemma PropagatedExitExactly(turn: Turn, s: Loop, pass: Pass)
    requires s.exit.None?
    ensures var t := s.Step(turn, pass);
            && (t.exit.Some? && t.exit.value.Propagated() <==>
                  exists message :: Reads(s, pass, message) && Unanswerable(message, pass.writeOk))
            && (t.exit.Some? && t.exit.value.Propagated() ==> t.pending == s.pending && t.acks == s.acks)
  {
    var t := s.Step(turn, pass);
    if t.exit.Some? && t.exit.value.Propagated() {
      assert Reads(s, pass, pass.reader.value.message);
    }
  }

  // A run that drops one: a steer is written, then the agent asks for permission in a
  // request without an id, and the loop ends with the steer never acknowledged.
  lemma SteerCanBeDropped(client: Client, turn: Turn, at: Time, question: Message)
    requires client.steeringSupported && turn.steerOpen && turn.idleTimeout > 0
    requires turn.expectedId < client.nextId
    requires question.call == Method(RequestPermission) && question.id.None?
    ensures var start := Begin(client, at, turn.idleTimeout, at + 1);
            var passes := [Pass(at, None, true, at, at, true), Pass(at, Some(Parsed(question)), false, at, at, true)];
            var end := Run(turn, start, passes);
            && Started(turn, start)
            && end.exit == Some(ProtocolError) && end.received == 1 && AcksFor(end.acks, 0) == 0
  {
    var start := Begin(client, at, turn.idleTimeout, at + 1);
    var first, second := Pass(at, None, true, at, at, true), Pass(at, Some(Parsed(question)), false, at, at, true);
    assert [first, second][..1] == [first] && [first][..0] == [];
    assert Run(turn, start, [first]) == start.Step(turn, first);
  }

  // `pass` delivers steer `request`: an error-free response, with no method, to
  // that steer's own id, whose outcome its transport recognizes.
  ghost predicate Delivers(s: Loop, pass: Pass, request: nat) {
    exists message, p ::
      && Reads(s, pass, message) && s.pending == Some(p) && p.request == request
      && message.RespondsTo(p.id) && message.error.None?
      && (p.transport == AcpExtension ==> message.result.outcome.Injected? || message.result.outcome.StartedNewTurn?)
  }

  // Some pass of the run satisfies `what` in the state it met.
  ghost predicate AtSomePass(turn: Turn, start: Loop, passes: seq<Pass>, what: (Loop, Pass) -> bool) {
    exists i | 0 <= i < |passes| :: what(Run(turn, start, passes[..i]), passes[i])
  }

  lemma LastOrEarlier(turn: Turn, start: Loop, passes: seq<Pass>, what: (Loop, Pass) -> bool)
    requires passes != []
    ensures var n := |passes| - 1;
            AtSomePass(turn, start, passes, what)
            <==> AtSomePass(turn, start, passes[..n], what) || what(Run(turn, start, passes[..n]), passes[n])
  {
    var n := |passes| - 1;
    assert forall i | 0 <= i < n :: passes[..n][..i] == passes[..i] && passes[..n][i] == passes[i];
    if AtSomePass(turn, start, passes[..n], what) {
      var i :| 0 <= i < n && what(Run(turn, start, passes[..n][..i]), passes[..n][i]);
      assert what(Run(turn, start, passes[..i]), passes[i]);
    }
    if AtSomePass(turn, start, passes, what) {
      var i :| 0 <= i < |passes| && what(Run(turn, start, passes[..i]), passes[i]);
      if i < n {
        assert what(Run(turn, start, passes[..n][..i]), passes[..n][i]);
      }
    }
  }

  // The pass reads a request that cannot be answered while a steer is in flight.
  ghost predicate Drops(s: Loop, pass: Pass) {
    s.pending.Some? && exists message :: Reads(s, pass, message) && Unanswerable(message, pass.writeOk)
  }

  ghost predicate LeftUnsettled(s: Loop) {
    s.exit.Some? && s.pending.Some?
  }

  lemma StepDropsExactly(turn: Turn, s: Loop, pass: Pass)
    ensures LeftUnsettled(s.Step(turn, pass)) <==> LeftUnsettled(s) || Drops(s, pass)
  {
    if s.exit.None? {
      PropagatedExitExactly(turn, s, pass);
      StepEffect(turn, s, pass);
    }
  }

  lemma {:induction false} UnsettledExactly(turn: Turn, start: Loop, passes: seq<Pass>)
    requires Started(turn, start)
    ensures LeftUnsettled(Run(turn, start, passes)) <==> AtSomePass(turn, start, passes, Drops)
  {
    if passes != [] {
      var n := |passes| - 1;
      UnsettledExactly(turn, start, passes[..n]);
      StepDropsExactly(turn, Run(turn, start, passes[..n]), passes[n]);
      LastOrEarlier(turn, start, passes, Drops);
    }
  }

  // Over every run that ended: some steer request received is never acknowledged
  // exactly when a request that cannot be answered was read while a steer was in
  // flight; and then it is that steer alone.
  lemma DroppedExactly(turn: Turn, start: Loop, passes: seq<Pass>, request: nat)
    requires Started(turn, start) && Run(turn, start, passes).exit.Some?
    ensures var s := Run(turn, start, passes);
            request < s.received && AcksFor(s.acks, request) == 0
            <==> AtSomePass(turn, start, passes, Drops) && s.pending.Some? && s.pending.value.request == request
    ensures AtSomePass(turn, start, passes, Drops) ==> Run(turn, start, passes).pending.Some?
  {
    AcknowledgedExactlyOnce(turn, start, passes, request);
    UnsettledExactly(turn, start, passes);
    RunKeepsInv(turn, start, passes);
  }

  ghost function Delivery(request: nat): (Loop, Pass) -> bool {
    (s, pass) => Delivers(s, pass, request)
  }

  lemma StepSucceedsExactly(turn: Turn, s: Loop, pass: Pass, request: nat)
    ensures Ack(request, SteerAck.Success) in s.Step(turn, pass).acks
            <==> Ack(request, SteerAck.Success) in s.acks || Delivers(s, pass, request)
  {
    var t := s.Step(turn, pass);
    StepEffect(turn, s, pass);
    if Delivers(s, pass, request) {
      assert t.acks == s.acks + [Ack(request, SteerAck.Success)];
    }
    if t.acks != s.acks && t.acks[|s.acks|] == Ack(request, SteerAck.Success) {
      var message := pass.reader.value.message;
      assert Reads(s, pass, message) && s.pending == Some(s.pending.value);
    }
  }

  // `Success` is acknowledged exactly for the steers some pass delivered.
  lemma {:induction false} SuccessExactlyWhenDelivered(turn: Turn, start: Loop, passes: seq<Pass>, request: nat)
    requires Started(turn, start)
    ensures Ack(request, SteerAck.Success) in Run(turn, start, passes).acks
            <==> AtSomePass(turn, start, passes, Delivery(request))
  {
    if passes != [] {
      var n := |passes| - 1;
      SuccessExactlyWhenDelivered(turn, start, passes[..n], request);
      StepSucceedsExactly(turn, Run(turn, start, passes[..n]), passes[n], request);
      LastOrEarlier(turn, start, passes, Delivery(request));
    }
  }

  // A steer never carries the prompt's id.
  lemma SteerIdIsNotThePrompts(turn: Turn, start: Loop, passes: seq<Pass>)
    requires Started(turn, start)
    ensures Run(turn, start, passes).pending.Some? ==>
              Run(turn, start, passes).pending.value.id > turn.expectedId
  {
    RunKeepsInv(turn, start, passes);
  }

  ghost predicate AnswersPrompt(turn: Turn, s: Loop, pass: Pass, payload: Payload) {
    exists message ::
      && Reads(s, pass, message) && message.RespondsTo(turn.expectedId)
      && message.error.None? && message.result == payload
  }

  ghost function Answer(turn: Turn, payload: Payload): (Loop, Pass) -> bool {
    (s, pass) => AnswersPrompt(turn, s, pass, payload)
  }

  lemma StepReturnsThePromptsResponse(turn: Turn, floor: nat, s: Loop, pass: Pass, payload: Payload)
    requires Inv(turn, floor, s)
    ensures s.Step(turn, pass).exit == Some(Response(payload))
            <==> s.exit == Some(Response(payload)) || AnswersPrompt(turn, s, pass, payload)
  {
    if s.exit.None? && s.Step(turn, pass).exit == Some(Response(payload)) {
      assert Reads(s, pass, pass.reader.value.message);
    }
  }

  // The loop returns a result exactly when a pass read the prompt's own
  // response; a steer's response is never taken for it.
  lemma {:induction false} ReturnsThePromptsResponse(turn: Turn, start: Loop, passes: seq<Pass>, payload: Payload)
    requires Started(turn, start)
    ensures Run(turn, start, passes).exit == Some(Response(payload))
            <==> AtSomePass(turn, start, passes, Answer(turn, payload))
  {
    if passes != [] {
      var n := |passes| - 1;
      ReturnsThePromptsResponse(turn, start, passes[..n], payload);
      RunKeepsInv(turn, start, passes[..n]);
      StepReturnsThePromptsResponse(turn, start.client.nextId, Run(turn, start, passes[..n]), passes[n], payload);
      LastOrEarlier(turn, start, passes, Answer(turn, payload));
    }
  }

  // ---------- request ids ----------

  // Every request written so far has its own id, and all are below `nextId`.
  ghost predicate FreshIds(client: Client) {
    && (forall i | 0 <= i < |client.written| && RequestId(client.written[i]).Some? ::
          RequestId(client.written[i]).value < client.nextId)
    && (forall i, j | 0 <= i < j < |client.written| && RequestId(client.written[i]).Some? ::
          RequestId(client.written[i]) != RequestId(client.written[j]))
  }

  lemma IdsStayFresh(s: Loop, t: Loop)
    requires FreshIds(s.client) && WriteEffect(s, t)
    ensures FreshIds(t.client) && s.client.nextId <= t.client.nextId
  {
    if t.client.written != s.client.written {
      var line := t.client.written[|t.client.written| - 1];
      assert t.client.written == s.client.written + [line];
    }
  }

  lemma {:induction false} RunKeepsFreshIds(turn: Turn, start: Loop, passes: seq<Pass>)
    requires FreshIds(start.client)
    ensures FreshIds(Run(turn, start, passes).client)
    ensures start.client.nextId <= Run(turn, start, passes).client.nextId
  {
    if passes != [] {
      var n := |passes| - 1;
      RunKeepsFreshIds(turn, start, passes[..n]);
      StepEffect(turn, Run(turn, start, passes[..n]), passes[n]);
      IdsStayFresh(Run(turn, start, passes[..n]), Run(turn, start, passes));
    }
  }

  // ---------- deadlines ----------

  // `pass` renews the hard deadline: it delivers a steer into the awaited turn.
  ghost predicate RenewsAt(s: Loop, pass: Pass) {
    exists message, p ::
      && Reads(s, pass, message) && s.pending == Some(p) && message.RespondsTo(p.id)
      && message.error.None? && (p.transport == AcpExtension ==> message.result.outcome.Injected?)
  }

  // The hard deadline moves exactly on such a frame, to a full budget from then,
  // and only ever forwards.
  lemma HardDeadlineExactly(turn: Turn, s: Loop, pass: Pass)
    ensures s.Step(turn, pass).hardDeadline
            == if RenewsAt(s, pass) && pass.handledAt + turn.maxDuration > s.hardDeadline
               then pass.handledAt + turn.maxDuration
               else s.hardDeadline
    ensures s.hardDeadline <= s.Step(turn, pass).hardDeadline
  {
    if Selects(s, pass) && pass.reader.Some? && pass.reader.value.Parsed? && s.pending.Some? {
      assert Reads(s, pass, pass.reader.value.message) && s.pending == Some(s.pending.value);
    }
  }

  lemma {:induction false} HardDeadlineNeverFalls(turn: Turn, start: Loop, passes: seq<Pass>, i: nat)
    requires i <= |passes|
    ensures Run(turn, start, passes[..i]).hardDeadline <= Run(turn, start, passes).hardDeadline
    ensures Run(turn, start, passes[..i]).exit.Some? ==> Run(turn, start, passes) == Run(turn, start, passes[..i])
  {
    if i == |passes| {
      assert passes[..i] == passes;
    } else {
      var n := |passes| - 1;
      HardDeadlineNeverFalls(turn, start, passes[..n], i);
      assert passes[..n][..i] == passes[..i];
      HardDeadlineExactly(turn, Run(turn, start, passes[..n]), passes[n]);
    }
  }

  ghost predicate ClockAdvances(passes: seq<Pass>) {
    && (forall i | 0 <= i < |passes| :: passes[i].checkedAt <= passes[i].firedAt <= passes[i].handledAt)
    && (forall i, j | 0 <= i < j < |passes| :: passes[i].handledAt <= passes[j].checkedAt)
  }

  // A loop that still runs after a prefix ran at every shorter one.
  lemma RanBefore(turn: Turn, start: Loop, passes: seq<Pass>, i: nat, j: nat)
    requires i <= j <= |passes| && Run(turn, start, passes[..j]).exit.None?
    ensures Run(turn, start, passes[..i]).exit.None?
  {
    assert passes[..j][..i] == passes[..i];
    HardDeadlineNeverFalls(turn, start, passes[..j], i);
  }

  lemma OneMorePass(turn: Turn, start: Loop, passes: seq<Pass>, i: nat)
    requires i < |passes|
    ensures Run(turn, start, passes[..i + 1]) == Run(turn, start, passes[..i]).Step(turn, passes[i])
  {
    assert passes[..i + 1][..i] == passes[..i];
  }

  lemma GoesOnInTime(turn: Turn, s: Loop, pass: Pass)
    requires s.Step(turn, pass).exit.None?
    ensures pass.checkedAt < s.hardDeadline
  {
  }

  // However fast the agent streams, at most one select ends at or past the hard
  // deadline: if any later pass still selects, that very frame renewed it.
  lemma AtMostOneOvershoot(turn: Turn, start: Loop, passes: seq<Pass>, i: nat, j: nat)
    requires i < j < |passes| && ClockAdvances(passes)
    requires Selects(Run(turn, start, passes[..j]), passes[j])
    requires passes[i].firedAt >= Run(turn, start, passes[..i]).hardDeadline
    ensures RenewsAt(Run(turn, start, passes[..i]), passes[i])
  {
    OneMorePass(turn, start, passes, i);
    HardDeadlineExactly(turn, Run(turn, start, passes[..i]), passes[i]);
    if i + 1 < j {
      RanBefore(turn, start, passes, i + 2, j);
      OneMorePass(turn, start, passes, i + 1);
      GoesOnInTime(turn, Run(turn, start, passes[..i + 1]), passes[i + 1]);
    }
  }

  // The timer arm fires no earlier than the deadline it sleeps until.
  ghost predicate TimerIsHonest(s: Loop, pass: Pass) {
    Selects(s, pass) && pass.reader.None? ==> s.NextDeadline() <= pass.firedAt
  }

  // A timeout names the deadline that came first (a tie is hard), and is not
  // early: an idle timeout means a full idle period without a parsed line.
  lemma TimeoutsAreClassified(turn: Turn, floor: nat, s: Loop, pass: Pass)
    requires Inv(turn, floor, s) && s.exit.None?
    ensures var t := s.Step(turn, pass);
            var at := if pass.checkedAt >= s.NextDeadline() then pass.checkedAt else pass.firedAt;
            && (t.exit == Some(IdleTimeout) ==>
                  && s.idleDeadline < s.hardDeadline
                  && (TimerIsHonest(s, pass) ==> at >= s.lastActivity + turn.idleTimeout))
            && (t.exit.Some? && t.exit.value.HardTimeout? ==>
                  && s.hardDeadline <= s.idleDeadline
                  && (TimerIsHonest(s, pass) ==> at >= s.hardDeadline)
                  && t.exit.value.silence == (if at >= s.lastActivity then at - s.lastActivity else 0))
            && (pass.checkedAt >= s.NextDeadline() ==> t.exit.Some? && t.exit.value.TimedOut())
  {
  }

  // ---------- the deadline a cancellation inherits ----------

  lemma {:induction false} StoredDeadlineIsLive(client: Client, env: PromptEnv, passes: seq<Pass>)
    ensures PromptLoop(client, env, passes).client.storedDeadline == Some(PromptLoop(client, env, passes).hardDeadline)
    ensures PromptLoop(client, env, passes).client.lastPromptId == Some(client.nextId)
    ensures !PromptLoop(client, env, passes).client.steerInstalled
  {
    if passes != [] {
      var n := |passes| - 1;
      StoredDeadlineIsLive(client, env, passes[..n]);
      StepEffect(PromptTurn(client, env), PromptLoop(client, env, passes[..n]), passes[n]);
    }
  }

  // A timed-out prompt leaves its id and its live hard deadline, renewals
  // included, for the cancellation; any other end of the prompt clears both.
  lemma PromptLeavesItsDeadline(client: Client, env: PromptEnv)
    ensures var (after, result) := SessionPrompt(client, env);
            var loop := PromptLoop(client, env, env.passes);
            if env.writeOk && loop.exit.Some? && loop.exit.value.TimedOut() then
              && result == Errored(loop.exit.value)
              && after.lastPromptId == Some(client.nextId) && after.storedDeadline == Some(loop.hardDeadline)
              && !after.steerInstalled
            else result == StillRunning || (after.lastPromptId.None? && after.storedDeadline.None?)
  {
    StoredDeadlineIsLive(client, env, env.passes);
  }

  lemma {:induction false} ClosedLoopKeepsDeadline(turn: Turn, start: Loop, passes: seq<Pass>)
    requires Started(turn, start) && !turn.steerOpen
    ensures Run(turn, start, passes).hardDeadline == start.hardDeadline
    ensures Run(turn, start, passes).acks == [] && Run(turn, start, passes).received == 0
  {
    if passes != [] {
      var n := |passes| - 1;
      ClosedLoopKeepsDeadline(turn, start, passes[..n]);
      RunKeepsInv(turn, start, passes[..n]);
    }
  }

  function DrainTurn(client: Client, hard: Time, env: CancelEnv): Turn
    requires client.lastPromptId.Some?
  {
    Turn(client.lastPromptId.value, CLEANUP_MS, if env.measuredAt <= hard then hard - env.measuredAt else 0,
         client.steerInstalled)
  }

  // Cancelling after a timeout drains against the turn's own remaining budget,
  // renewals included, or the grace, whichever is later.
  lemma CancellationInheritsTheDeadline(client: Client, prompt: PromptEnv, cancel: CancelEnv)
    requires prompt.writeOk
    requires var exit := PromptLoop(client, prompt, prompt.passes).exit; exit.Some? && exit.value.TimedOut()
    ensures var live := PromptLoop(client, prompt, prompt.passes).hardDeadline;
            var timedOut := SessionPrompt(client, prompt).0;
            CancelWithCleanup(timedOut, cancel)
            == Drain(timedOut.(storedDeadline := None),
                     if live > cancel.at + 30_000 then live else cancel.at + 30_000, cancel)
  {
    PromptLeavesItsDeadline(client, prompt);
  }

  // Only the prompt's own response, never a late steer's, ends the drain with a
  // result.  Unless the prompt left its steer channel behind, nothing moves the
  // drain's deadline and no steer is taken.
  lemma DrainIsClosed(client: Client, hard: Time, env: CancelEnv, payload: Payload)
    requires client.lastPromptId.Some? && client.lastPromptId.value < client.nextId
    ensures var turn := DrainTurn(client, hard, env);
            var start := Begin(DrainStart(client), env.startedAt, CLEANUP_MS, hard);
            var drain := DrainLoop(client, hard, env, env.passes);
            && (drain.exit == Some(Response(payload)) <==>
                  AtSomePass(turn, start, env.passes, Answer(turn, payload)))
            && (!client.steerInstalled ==> drain.hardDeadline == hard && drain.received == 0 && drain.acks == [])
  {
    var turn := DrainTurn(client, hard, env);
    var start := Begin(DrainStart(client), env.startedAt, CLEANUP_MS, hard);
    ReturnsThePromptsResponse(turn, start, env.passes, payload);
    if !client.steerInstalled {
      ClosedLoopKeepsDeadline(turn, start, env.passes);
    }
  }

  // Wherever a prompt is stopped, in its own write, between passes or while the loop
  // writes, the client meets what the drain asks for and has the live deadline stored;
  // only a stop in the prompt's own write leaves the steer channel behind.  The same
  // client comes out of a prompt that timed out.
  lemma InterruptedClientCanDrain(client: Client, env: PromptEnv)
    requires FreshIds(client)
    ensures var stopped, loop := StopPrompt(client, env), PromptLoop(client, env, env.passes);
            && stopped.lastPromptId == Some(client.nextId) && client.nextId < stopped.nextId
            && stopped.storedDeadline == Some(if env.writeOk then loop.hardDeadline else env.at + env.maxDuration)
            && stopped.steerInstalled == (!env.writeOk && client.steerInstalled)
            && FreshIds(stopped)
            && (env.writeOk && (loop.exit.None? || loop.exit.value.TimedOut()) ==> SessionPrompt(client, env).0 == stopped)
  {
    StoredDeadlineIsLive(client, env, env.passes);
    PromptIdUsed(client, env, env.passes);
  }

  lemma PromptIdUsed(client: Client, env: PromptEnv, passes: seq<Pass>)
    requires FreshIds(client)
    ensures client.nextId < PromptLoop(client, env, passes).client.nextId
    ensures FreshIds(PromptLoop(client, env, passes).client)
  {
    var prompted := Prompted(client, env);
    assert FreshIds(prompted);
    RunKeepsFreshIds(
      PromptTurn(client, env), Begin(prompted, env.startedAt, env.idleTimeout, env.at + env.maxDuration), passes);
  }

  // ---------- permission requests ----------

  lemma {:induction false} PermissionStaysOpen(turn: Turn, start: Loop, passes: seq<Pass>)
    requires PermissionOpen(start.client)
    ensures PermissionOpen(Run(turn, start, passes).client)
  {
    if passes != [] {
      var n := |passes| - 1;
      PermissionStaysOpen(turn, start, passes[..n]);
      StepEffect(turn, Run(turn, start, passes[..n]), passes[n]);
    }
  }

  // Reading only adds to what was written.
  lemma {:induction false} OutputGrows(turn: Turn, start: Loop, passes: seq<Pass>)
    ensures start.client.written <= Run(turn, start, passes).client.written
  {
    if passes != [] {
      var n := |passes| - 1;
      OutputGrows(turn, start, passes[..n]);
      StepEffect(turn, Run(turn, start, passes[..n]), passes[n]);
    }
  }

  // Whether a cancellation tells an open permission request is decided by the prompt
  // id.  Without a prompt in flight it writes nothing.  With one, the request is told
  // before the cancellation itself is sent and before anything is read; and it stays
  // open when it could not be told.
  lemma CancellationAnswersPermission(client: Client, hard: Time, env: CancelEnv)
    requires PermissionOpen(client)
    ensures var (after, result) := Drain(client, hard, env);
            var open := client.pendingPermission;
            var told := if open.Some? then [PermissionCancelled(open.value)] else [];
            if client.lastPromptId.None? then after == client && result == NoPrompt
            else if open.Some? && !env.permissionWriteOk then
              after == client.(lastPromptId := None) && result == Errored(WriteFailed)
            else if !env.cancelWriteOk then
              after.written == client.written + told && after.pendingPermission.None? && result == Errored(WriteFailed)
            else
              client.written + told + [CancelNotification] <= after.written
    ensures DrainStart(client).pendingPermission.None?
  {
    if client.lastPromptId.Some? {
      OutputGrows(DrainTurn(client, hard, env), Begin(DrainStart(client), env.startedAt, CLEANUP_MS, hard), env.passes);
    }
  }

  ghost predicate FirstAt(options: seq<PermissionOption>, kind: OptionKind, i: nat) {
    i < |options| && options[i].kind == kind && forall j | 0 <= j < i :: options[j].kind != kind
  }

  // The chosen option really is the first of its kind.
  lemma {:induction false} FirstOfKindIsFirst(options: seq<PermissionOption>, kind: OptionKind)
    ensures FirstOfKind(options, kind).None? <==> forall o | o in options :: o.kind != kind
    ensures FirstOfKind(options, kind).Some? ==>
              exists i: nat :: FirstAt(options, kind, i) && options[i] == FirstOfKind(options, kind).value
  {
    if options != [] {
      var rest := options[1..];
      FirstOfKindIsFirst(rest, kind);
      assert options == [options[0]] + rest;
      if options[0].kind == kind {
        assert FirstAt(options, kind, 0);
      } else if FirstOfKind(rest, kind).Some? {
        var i: nat :| FirstAt(rest, kind, i) && rest[i] == FirstOfKind(rest, kind).value;
        FirstAtShifts(options, kind, i);
      }
    }
  }

  lemma FirstAtShifts(options: seq<PermissionOption>, kind: OptionKind, i: nat)
    requires options != [] && options[0].kind != kind && FirstAt(options[1..], kind, i)
    ensures FirstAt(options, kind, i + 1) && options[i + 1] == options[1..][i]
  {
    assert forall j | 1 <= j < i + 1 :: options[j] == options[1..][j - 1];
  }
}
