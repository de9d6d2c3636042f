// The client object: its fields, and the methods that drive one prompt turn.
// Each method is proved equal to the value-level step it performs.
module AcpClientObject {
  import opened Wrappers
  import opened AcpTurn

  // The read loop's own variables.
  datatype Locals = Locals(
    pending: Option<Pending>,
    idleDeadline: Time,
    hardDeadline: Time,
    lastActivity: Time,
    received: nat,
    acks: seq<Ack>)
  {
    function Acked(ack: Ack): Locals {
      this.(acks := acks + [ack])
    }

    // Drains a steer in flight with the neutral acknowledgement.
    function Drained(): Locals {
      if pending.Some? then Acked(Ack(pending.value.request, PromptCompletedNeutral)).(pending := None) else this
    }
  }

  ghost function Assemble(client: Client, l: Locals, exit: Option<Exit>): Loop {
    Loop(client, l.pending, l.idleDeadline, l.hardDeadline, l.lastActivity, l.received, l.acks, exit)
  }

  class AcpClient {
    var nextId: nat
    var lastPromptId: Option<nat>
    var currentHardDeadline: Option<Time>
    var activeRunId: Option<string>
    var steeringSupported: bool
    var steerInstalled: bool
    var pendingPermissionId: Option<JsonId>
    var permissionResponded: bool
    // What has gone out on the agent's standard input.
    var written: seq<Outgoing>

    ghost function View(): Client
      reads this
    {
      Client(nextId, lastPromptId, currentHardDeadline, activeRunId, steeringSupported, steerInstalled,
             pendingPermissionId, permissionResponded, written)
    }

    constructor (steeringSupported: bool)
      ensures View() == Client(0, None, None, None, steeringSupported, false, None, false, [])
    {
      nextId := 0;
      lastPromptId, currentHardDeadline, activeRunId := None, None, None;
      this.steeringSupported := steeringSupported;
      steerInstalled := false;
      pendingPermissionId, permissionResponded := None, false;
      written := [];
    }

    // The program panics when a channel is already installed.
    method InstallSteerChannel()
      requires !steerInstalled
      modifies this
      ensures View() == old(View()).(steerInstalled := true)
    {
      steerInstalled := true;
    }

    method ClearSteerChannel()
      modifies this
      ensures View() == old(View()).(steerInstalled := false)
    {
      steerInstalled := false;
    }

    method HandleSessionUpdate(update: Update) returns (toolCall: bool)
      modifies this
      ensures View() == old(View()).Updated(update)
      ensures toolCall == update.ToolCall?
    {
      match update {
        case RunStarted(run) => activeRunId := Some(run);
        case RunCleared => activeRunId := None;
        case _ =>
      }
      return update.ToolCall?;
    }

    method HandlePermissionRequest(message: Message, writeOk: bool) returns (failure: Option<Exit>)
      modifies this
      ensures (View(), failure) == old(View()).Permitted(message, writeOk)
    {
      if message.id.None? {
        return Some(ProtocolError);
      }
      pendingPermissionId := message.id;
      permissionResponded := false;
      if message.options.None? {
        return Some(ProtocolError);
      }
      var allowOnce := FirstOfKind(message.options.value, AllowOnce);
      var optionId: string;
      if allowOnce.Some? {
        if allowOnce.value.optionId.None? {
          return Some(ProtocolError);
        }
        optionId := allowOnce.value.optionId.value;
      } else {
        var rejectOnce := FirstOfKind(message.options.value, RejectOnce);
        if rejectOnce.None? {
          return Some(ProtocolError);
        }
        optionId := rejectOnce.value.optionId.GetOr("reject");
      }
      if !writeOk {
        return Some(WriteFailed);
      }
      written := written + [PermissionSelected(message.id.value, optionId)];
      permissionResponded := true;
      pendingPermissionId := None;
      return None;
    }

    // The steer arm of the select.
    method SendSteer(writeOk: bool, before: Locals) returns (l: Locals)
      requires before.pending.None?
      modifies this
      ensures Assemble(View(), l, None) == old(Assemble(View(), before, None)).OnSteer(writeOk)
    {
      var request := before.received;
      l := before.(received := request + 1);
      if activeRunId.None? && !steeringSupported {
        l := l.Acked(Ack(request, SteerFailed(ExpectedRunIdMissing)));
        return;
      }
      var transport := if activeRunId.Some? then Goose else AcpExtension;
      var id := nextId;
      nextId := nextId + 1;
      if writeOk {
        written := written + [SteerRequest(id, transport, activeRunId, request)];
        l := l.(pending := Some(Pending(id, transport, request)));
      } else {
        l := l.Acked(Ack(request, SteerFailed(SteerWriteFailed)));
      }
    }

    method RouteSteerResponse(turn: Turn, message: Message, handledAt: Time, before: Locals) returns (l: Locals)
      requires before.pending.Some?
      modifies this
      ensures Assemble(View(), l, None) == old(Assemble(View(), before, None)).OnSteerResponse(turn, message, handledAt)
    {
      var steer := before.pending.value;
      l := before.(pending := None);
      var ack: SteerAck;
      if message.error.Some? {
        ack := SteerFailed(SteerRefused(message.error.value.code.GetOr(-1)));
      } else {
        var outcome := if steer.transport == Goose then Injected else message.result.outcome;
        match outcome {
          case StartedNewTurn => ack := SteerAck.Success;
          case Injected =>
            var newDeadline := handledAt + turn.maxDuration;
            if newDeadline > l.hardDeadline {
              l := l.(hardDeadline := newDeadline);
              currentHardDeadline := Some(newDeadline);
            }
            ack := SteerAck.Success;
          case Unrecognized(reported) => ack := SteerFailed(OutcomeRejected(reported));
        }
      }
      l := l.Acked(Ack(steer.request, ack));
    }

    method Dispatch(turn: Turn, message: Message, handledAt: Time, writeOk: bool, before: Locals)
      returns (l: Locals, exit: Option<Exit>)
      modifies this
      ensures Assemble(View(), l, exit)
              == old(Assemble(View(), before, None)).OnRequest(turn, message, handledAt, writeOk)
    {
      l, exit := before, None;
      match message.call {
        case Method(SessionUpdate) =>
          var toolCall := HandleSessionUpdate(message.update);
          if toolCall {
            l := l.(idleDeadline := handledAt + turn.idleTimeout, lastActivity := handledAt);
          }
        case Method(RequestPermission) =>
          exit := HandlePermissionRequest(message, writeOk);
        case Method(OtherMethod(_)) =>
          if message.id.Some? {
            if !writeOk {
              return l, Some(WriteFailed);
            }
            written := written + [MethodNotFound(message.id.value)];
          }
        case _ =>
      }
    }

    method HandleMessage(turn: Turn, message: Message, pass: Pass, before: Locals)
      returns (l: Locals, exit: Option<Exit>)
      modifies this
      ensures Assemble(View(), l, exit)
              == old(Assemble(View(), before, None)).OnMessage(turn, message, pass.handledAt, pass.writeOk)
    {
      l, exit := before, None;
      if message.id.Some? && message.call.NoMethod? {
        if l.pending.Some? && message.id.value == NumberId(l.pending.value.id) {
          l := RouteSteerResponse(turn, message, pass.handledAt, l);
          return;
        }
        if message.id.value == NumberId(turn.expectedId) {
          l := l.Drained();
          return l, Some(if message.error.Some? then AgentError(message.error.value) else Response(message.result));
        }
      }
      l, exit := Dispatch(turn, message, pass.handledAt, pass.writeOk, l);
    }

    method HandleItem(turn: Turn, item: ReaderItem, pass: Pass, before: Locals)
      returns (l: Locals, exit: Option<Exit>)
      modifies this
      ensures Assemble(View(), l, exit) == old(Assemble(View(), before, None)).OnRead(turn, item, pass)
    {
      l, exit := before, None;
      match item {
        case Eof => l, exit := l.Drained(), Some(AgentExited);
        case LineTooLong => l, exit := l.Drained(), Some(Oversized);
        case ReadFailure => l, exit := l.Drained(), Some(ReadError);
        case Blank | Unparsable =>
        case Parsed(message) =>
          l := l.(idleDeadline := pass.firedAt + turn.idleTimeout, lastActivity := pass.firedAt);
          l, exit := HandleMessage(turn, message, pass, l);
      }
    }

    // One pass of the loop: the deadline check, then the biased select.
    method TakePass(turn: Turn, pass: Pass, before: Locals) returns (l: Locals, exit: Option<Exit>)
      modifies this
      ensures Assemble(View(), l, exit) == old(Assemble(View(), before, None)).Step(turn, pass)
    {
      l, exit := before, None;
      var idleFiresFirst := l.idleDeadline < l.hardDeadline;
      var nextDeadline := if idleFiresFirst then l.idleDeadline else l.hardDeadline;
      var firedAt := pass.checkedAt;
      if pass.checkedAt < nextDeadline {
        if pass.reader.Some? {
          l, exit := HandleItem(turn, pass.reader.value, pass, l);
          return;
        }
        if pass.steerWaiting && turn.steerOpen && l.pending.None? {
          l := SendSteer(pass.writeOk, l);
          return;
        }
        firedAt := pass.firedAt;
      }
      var silence := if firedAt < l.lastActivity then 0 else firedAt - l.lastActivity;
      l, exit := l.Drained(), Some(if idleFiresFirst then IdleTimeout else HardTimeout(silence));
    }

    // Reads until the response to `expectedId`, a timeout or an error; with the
    // passes used up first, the loop is still running and `exit` is `None`.
    method ReadUntilResponse(
      expectedId: nat, idleTimeout: nat, hardDeadline: Time, maxDuration: nat, now: Time, passes: seq<Pass>)
      returns (l: Locals, exit: Option<Exit>)
      modifies this
      ensures Assemble(View(), l, exit)
              == Run(Turn(expectedId, idleTimeout, maxDuration, old(steerInstalled)),
                     Begin(old(View()), now, idleTimeout, hardDeadline), passes)
    {
      var turn := Turn(expectedId, idleTimeout, maxDuration, steerInstalled);
      ghost var start := Begin(View(), now, idleTimeout, hardDeadline);
      steerInstalled := false;
      l, exit := Locals(None, now + idleTimeout, hardDeadline, now, 0, []), None;
      for i := 0 to |passes|
        invariant Assemble(View(), l, exit) == Run(turn, start, passes[..i])
      {
        assert passes[..i + 1][..i] == passes[..i];
        if exit.None? {
          l, exit := TakePass(turn, passes[i], l);
        }
      }
      assert passes[..|passes|] == passes;
    }

    method SessionPrompt(env: PromptEnv) returns (result: PromptResult)
      modifies this
      ensures (View(), result) == AcpTurn.SessionPrompt(old(View()), env)
    {
      var hardDeadline := env.at + env.maxDuration;
      currentHardDeadline := Some(hardDeadline);
      lastPromptId := Some(nextId);
      var id := nextId;
      nextId := nextId + 1;
      if !env.writeOk {
        lastPromptId, currentHardDeadline := None, None;
        return Errored(WriteFailed);
      }
      written := written + [PromptRequest(id)];
      var l, exit := ReadUntilResponse(id, env.idleTimeout, hardDeadline, env.maxDuration, env.startedAt, env.passes);
      result := Conclude(l, exit);
    }

    // A timeout keeps the prompt id and deadline for the cancellation.
    method Conclude(ghost l: Locals, exit: Option<Exit>) returns (result: PromptResult)
      modifies this
      ensures (View(), result) == Concluded(old(Assemble(View(), l, exit)))
    {
      if exit.None? {
        return StillRunning;
      }
      if !exit.value.TimedOut() {
        lastPromptId, currentHardDeadline := None, None;
      }
      return if exit.value.Response? then ParseStop(exit.value.payload) else Errored(exit.value);
    }

    // Tells a permission request still open that it is cancelled.
    method CancelPermission(writeOk: bool) returns (ok: bool)
      modifies this
      ensures ok == (old(pendingPermissionId).None? || old(permissionResponded) || writeOk)
      ensures View() == if ok then AfterPermissionCancelled(old(View())) else old(View())
    {
      if pendingPermissionId.Some? {
        if !permissionResponded {
          if !writeOk {
            return false;
          }
          written := written + [PermissionCancelled(pendingPermissionId.value)];
        }
        pendingPermissionId := None;
        permissionResponded := false;
      }
      return true;
    }

    method CancelUntil(hardDeadline: Time, env: CancelEnv) returns (result: PromptResult)
      modifies this
      ensures (View(), result) == Drain(old(View()), hardDeadline, env)
    {
      if lastPromptId.None? {
        return NoPrompt;
      }
      var promptId := lastPromptId.value;
      lastPromptId := None;
      var told := CancelPermission(env.permissionWriteOk);
      if !told || !env.cancelWriteOk {
        return Errored(WriteFailed);
      }
      written := written + [CancelNotification];
      assert View() == DrainStart(old(View()));
      var remaining := if env.measuredAt <= hardDeadline then hardDeadline - env.measuredAt else 0;
      var l, exit := ReadUntilResponse(promptId, CLEANUP_MS, hardDeadline, remaining, env.startedAt, env.passes);
      assert Assemble(View(), l, exit) == DrainLoop(old(View()), hardDeadline, env, env.passes);
      if exit.None? {
        return StillRunning;
      }
      return if exit.value.Response? then ParseStop(exit.value.payload) else Errored(exit.value);
    }

    method CancelWithCleanup(env: CancelEnv) returns (result: PromptResult)
      modifies this
      ensures (View(), result) == AcpTurn.CancelWithCleanup(old(View()), env)
    {
      var stored := currentHardDeadline;
      currentHardDeadline := None;
      var minimum := env.at + CLEANUP_MS;
      var hardDeadline := if stored.Some? && stored.value > minimum then stored.value else minimum;
      result := CancelUntil(hardDeadline, env);
    }

    method CancelWithGrace(grace: nat, env: CancelEnv) returns (result: PromptResult)
      modifies this
      ensures (View(), result) == AcpTurn.CancelWithGrace(old(View()), grace, env)
    {
      currentHardDeadline := None;
      result := CancelUntil(env.at + grace, env);
      if result.Errored? && result.error.HardTimeout? {
        result := DrainTimedOut(grace);
      }
    }
  }
}
