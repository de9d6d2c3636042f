// The client over its whole life: one prompt after another, cancelled or not, and
// what becomes of requests and responses that outlive their turn.
module AcpLife {
  import opened Wrappers
  import opened AcpTurn
  import opened AcpTheorems

  // ---------- permission requests left open ----------

  // The pass reads permission request `id`, and cannot answer it.
  ghost function LeavesOpen(id: JsonId): (Loop, Pass) -> bool {
    (s: Loop, pass: Pass) =>
      exists message ::
        && Reads(s, pass, message) && message.call == Method(RequestPermission)
        && message.id == Some(id) && Unanswerable(message, pass.writeOk)
  }

  lemma MessageOpens(turn: Turn, s: Loop, message: Message, handledAt: Time, writeOk: bool)
    ensures var t := s.OnMessage(turn, message, handledAt, writeOk);
            t.client.pendingPermission
            == if message.call != Method(RequestPermission) || message.id.None? then s.client.pendingPermission
               else if Unanswerable(message, writeOk) then message.id
               else None
    ensures message.call == Method(RequestPermission) && Unanswerable(message, writeOk) ==>
              s.OnMessage(turn, message, handledAt, writeOk).exit.Some?
  {
  }

  lemma StepOpens(turn: Turn, s: Loop, pass: Pass, id: JsonId)
    requires s.exit.None? ==> s.client.pendingPermission.None?
    ensures var t := s.Step(turn, pass);
            && (t.exit.None? ==> t.client.pendingPermission.None?)
            && (t.client.pendingPermission == Some(id) <==>
                  s.client.pendingPermission == Some(id) || LeavesOpen(id)(s, pass))
  {
    if Selects(s, pass) && pass.reader.Some? && pass.reader.value.Parsed? {
      var message := pass.reader.value.message;
      MessageOpens(turn, s.Active(turn, pass.firedAt), message, pass.handledAt, pass.writeOk);
      assert Reads(s, pass, message);
    }
  }

  // Over every run that starts with no request open: one is open at the end exactly
  // when some pass read it and could not answer it, and the loop has then ended.
  lemma {:induction false} LeftOpenExactly(turn: Turn, start: Loop, passes: seq<Pass>, id: JsonId)
    requires start.exit.None? && start.client.pendingPermission.None?
    ensures var s := Run(turn, start, passes);
            && (s.exit.None? ==> s.client.pendingPermission.None?)
            && (s.client.pendingPermission == Some(id) <==> AtSomePass(turn, start, passes, LeavesOpen(id)))
  {
    if passes != [] {
      var n := |passes| - 1;
      LeftOpenExactly(turn, start, passes[..n], id);
      StepOpens(turn, Run(turn, start, passes[..n]), passes[n], id);
      LastOrEarlier(turn, start, passes, LeavesOpen(id));
    }
  }

  lemma StepOpensOnError(turn: Turn, s: Loop, pass: Pass)
    requires s.exit.None? && s.client.pendingPermission.None?
    ensures var t := s.Step(turn, pass);
            t.client.pendingPermission.Some? ==> t.exit.Some? && t.exit.value.Propagated()
  {
    if Selects(s, pass) && pass.reader.Some? && pass.reader.value.Parsed? {
      MessageOpens(turn, s.Active(turn, pass.firedAt), pass.reader.value.message, pass.handledAt, pass.writeOk);
    }
  }

  lemma {:induction false} OpenOnlyOnError(turn: Turn, start: Loop, passes: seq<Pass>)
    requires start.exit.None? && start.client.pendingPermission.None?
    ensures var s := Run(turn, start, passes);
            s.client.pendingPermission.Some? ==> s.exit.Some? && s.exit.value.Propagated()
  {
    if passes != [] {
      var n := |passes| - 1;
      OpenOnlyOnError(turn, start, passes[..n]);
      if Run(turn, start, passes[..n]).exit.None? {
        StepOpensOnError(turn, Run(turn, start, passes[..n]), passes[n]);
      }
    }
  }

  // The prompt that returns with a request left open has propagated an error, and has
  // given up its id for it; so no cancellation that follows tells the agent anything.
  lemma LeftOpenIsNeverTold(client: Client, env: PromptEnv, cancel: CancelEnv, grace: nat)
    requires client.pendingPermission.None?
    requires SessionPrompt(client, env).0.pendingPermission.Some?
    ensures var (after, result) := SessionPrompt(client, env);
            && result.Errored? && result.error.Propagated()
            && after.lastPromptId.None?
            && CancelWithCleanup(after, cancel) == (after, NoPrompt)
            && CancelWithGrace(after, grace, cancel) == (after, NoPrompt)
  {
    OpenOnlyOnError(
      PromptTurn(client, env),
      Begin(Prompted(client, env), env.startedAt, env.idleTimeout, env.at + env.maxDuration), env.passes);
  }

  // A prompt stopped while an answer was being written is different: the request is
  // told of the cancellation, because the prompt's id is still there.
  lemma StoppedMidAnswer(client: Client, env: PromptEnv, cancel: CancelEnv, grace: nat)
    requires PermissionOpen(client) && cancel.permissionWriteOk && cancel.cancelWriteOk
    ensures var stopped := StopPrompt(client, env);
            stopped.pendingPermission.Some? ==>
              stopped.written + [PermissionCancelled(stopped.pendingPermission.value)] + [CancelNotification]
              <= CancelWithGrace(stopped, grace, cancel).0.written
  {
    StoredDeadlineIsLive(client, env, env.passes);
    PermissionStaysOpen(
      PromptTurn(client, env),
      Begin(Prompted(client, env), env.startedAt, env.idleTimeout, env.at + env.maxDuration), env.passes);
    CancellationAnswersPermission(StopPrompt(client, env).(storedDeadline := None), cancel.at + grace, cancel);
  }

  // ---------- every call a client is put to ----------

  datatype Call =
    | InstallSteer
    | ClearSteer
    | Setup(writeOk: bool)
    | Prompt(env: PromptEnv)
    | PromptStopped(stop: PromptEnv)
    | Cleanup(cleanup: CancelEnv)
    | Grace(grace: nat, cancel: CancelEnv)

  // The program panics when a steer channel is installed over another.
  function AfterCall(client: Client, call: Call): Client {
    match call
    case InstallSteer => if client.steerInstalled then client else client.(steerInstalled := true)
    case ClearSteer => client.(steerInstalled := false)
    case Setup(writeOk) =>
      var numbered := client.(nextId := client.nextId + 1);
      if writeOk then numbered.Wrote(SetupRequest(client.nextId)) else numbered
    case Prompt(env) => AcpTurn.SessionPrompt(client, env).0
    case PromptStopped(env) => StopPrompt(client, env)
    case Cleanup(env) => CancelWithCleanup(client, env).0
    case Grace(grace, env) => CancelWithGrace(client, grace, env).0
  }

  function Life(steeringSupported: bool, calls: seq<Call>): Client {
    if calls == [] then Client(0, None, None, None, steeringSupported, false, None, false, [])
    else AfterCall(Life(steeringSupported, calls[..|calls| - 1]), calls[|calls| - 1])
  }

  ghost predicate Sound(client: Client) {
    && FreshIds(client)
    && PermissionOpen(client)
    && (client.lastPromptId.Some? ==> client.lastPromptId.value < client.nextId)
  }

  lemma PromptIsSound(client: Client, env: PromptEnv)
    requires Sound(client)
    ensures Sound(AcpTurn.SessionPrompt(client, env).0) && Sound(StopPrompt(client, env))
  {
    InterruptedClientCanDrain(client, env);
    PermissionStaysOpen(
      PromptTurn(client, env),
      Begin(Prompted(client, env), env.startedAt, env.idleTimeout, env.at + env.maxDuration), env.passes);
  }

  lemma PermissionCancelledIsSound(client: Client)
    requires Sound(client)
    ensures Sound(AfterPermissionCancelled(client.(lastPromptId := None)))
  {
  }

  lemma DrainStartIsSound(client: Client)
    requires Sound(client)
    ensures Sound(DrainStart(client))
  {
    PermissionCancelledIsSound(client);
  }

  lemma DrainLoopIsSound(client: Client, hard: Time, env: CancelEnv)
    requires Sound(client) && client.lastPromptId.Some?
    ensures Sound(DrainLoop(client, hard, env, env.passes).client)
  {
    hide Run, FreshIds;
    var start := Begin(DrainStart(client), env.startedAt, CLEANUP_MS, hard);
    DrainStartIsSound(client);
    SteerTakenIsSound(DrainStart(client));
    RunKeepsFreshIds(DrainTurn(client, hard, env), start, env.passes);
    PermissionStaysOpen(DrainTurn(client, hard, env), start, env.passes);
    NoPromptIdReturns(DrainTurn(client, hard, env), start, env.passes);
  }

  lemma SteerTakenIsSound(client: Client)
    requires Sound(client)
    ensures Sound(client.(steerInstalled := false))
  {
  }

  lemma DrainIsSound(client: Client, hard: Time, env: CancelEnv)
    requires Sound(client)
    ensures Sound(Drain(client, hard, env).0)
  {
    if client.lastPromptId.Some? {
      PermissionCancelledIsSound(client);
      DrainLoopIsSound(client, hard, env);
    }
  }

  lemma {:induction false} NoPromptIdReturns(turn: Turn, start: Loop, passes: seq<Pass>)
    ensures Run(turn, start, passes).client.lastPromptId == start.client.lastPromptId
  {
    if passes != [] {
      var n := |passes| - 1;
      NoPromptIdReturns(turn, start, passes[..n]);
      StepEffect(turn, Run(turn, start, passes[..n]), passes[n]);
    }
  }

  lemma SetupIsSound(client: Client, writeOk: bool)
    requires Sound(client)
    ensures Sound(AfterCall(client, Setup(writeOk)))
  {
    var numbered := client.(nextId := client.nextId + 1);
    assert Sound(numbered);
    assert RequestId(SetupRequest(client.nextId)) == Some(client.nextId);
  }

  lemma CallIsSound(client: Client, call: Call)
    requires Sound(client)
    ensures Sound(AfterCall(client, call))
  {
    var taken := client.(storedDeadline := None);
    match call
    case Setup(writeOk) => SetupIsSound(client, writeOk);
    case Prompt(env) => PromptIsSound(client, env);
    case PromptStopped(env) => PromptIsSound(client, env);
    case Cleanup(env) => DrainIsSound(taken, DrainDeadline(client.storedDeadline, env.at), env);
    case Grace(grace, env) => DrainIsSound(taken, env.at + grace, env);
    case _ =>
  }

  // Over a client's whole life, whatever it is put to: every request written has its
  // own id below the next one, an open permission request is unanswered, and the
  // prompt id in hand has been given out.
  lemma {:induction false} LifeIsSound(steeringSupported: bool, calls: seq<Call>)
    ensures Sound(Life(steeringSupported, calls))
  {
    hide AfterCall, Sound;
    if calls == [] {
      NewIsSound(steeringSupported);
    } else {
      var n := |calls| - 1;
      LifeIsSound(steeringSupported, calls[..n]);
      CallIsSound(Life(steeringSupported, calls[..n]), calls[n]);
    }
  }

  lemma NewIsSound(steeringSupported: bool)
    ensures Sound(Life(steeringSupported, []))
  {
  }

  // ---------- responses that come late ----------

  lemma {:induction false} LateResponseIsIgnored(turn: Turn, start: Loop, passes: seq<Pass>, pass: Pass, message: Message, n: nat)
    requires Started(turn, start) && n < start.client.nextId && n != turn.expectedId
    requires message.RespondsTo(n) && Reads(Run(turn, start, passes), pass, message)
    ensures var s := Run(turn, start, passes);
            s.Step(turn, pass) == s.Active(turn, pass.firedAt)
  {
    RunKeepsInv(turn, start, passes);
  }

  lemma WrittenIdIsUsed(client: Client, line: Outgoing)
    requires Sound(client) && line in client.written && RequestId(line).Some?
    ensures RequestId(line).value < client.nextId
  {
    var i :| 0 <= i < |client.written| && client.written[i] == line;
  }

  lemma PromptIgnores(client: Client, env: PromptEnv, passes: seq<Pass>, pass: Pass, message: Message, n: nat)
    requires n < client.nextId && message.RespondsTo(n) && Reads(PromptLoop(client, env, passes), pass, message)
    ensures var s := PromptLoop(client, env, passes);
            s.Step(PromptTurn(client, env), pass) == s.Active(PromptTurn(client, env), pass.firedAt)
  {
    hide Loop.Step, Loop.Active, Reads;
    LateResponseIsIgnored(
      PromptTurn(client, env),
      Begin(Prompted(client, env), env.startedAt, env.idleTimeout, env.at + env.maxDuration),
      passes, pass, message, n);
  }

  // At any point of a client's life, a prompt waits for an id no request was ever given;
  // and the response to any earlier request, whatever turn it belonged to, only counts
  // as activity.
  lemma EarlierResponsesDoNotCount(
    steeringSupported: bool, calls: seq<Call>, env: PromptEnv, passes: seq<Pass>, pass: Pass, message: Message, line: Outgoing)
    requires line in Life(steeringSupported, calls).written && RequestId(line).Some?
    requires message.RespondsTo(RequestId(line).value)
    requires Reads(PromptLoop(Life(steeringSupported, calls), env, passes), pass, message)
    ensures var client := Life(steeringSupported, calls);
            var s := PromptLoop(client, env, passes);
            && RequestId(line).value < client.nextId == PromptTurn(client, env).expectedId
            && s.Step(PromptTurn(client, env), pass) == s.Active(PromptTurn(client, env), pass.firedAt)
  {
    hide Life, Sound, PromptLoop, Loop.Step, Loop.Active, Reads;
    var client := Life(steeringSupported, calls);
    LifeIsSound(steeringSupported, calls);
    WrittenIdIsUsed(client, line);
    PromptIgnores(client, env, passes, pass, message, RequestId(line).value);
  }

  lemma DrainIgnores(client: Client, hard: Time, env: CancelEnv, passes: seq<Pass>, pass: Pass, message: Message, n: nat)
    requires Sound(client) && client.lastPromptId.Some? && client.lastPromptId != Some(n)
    requires n < client.nextId && message.RespondsTo(n) && Reads(DrainLoop(client, hard, env, passes), pass, message)
    ensures var s := DrainLoop(client, hard, env, passes);
            s.Step(DrainTurn(client, hard, env), pass) == s.Active(DrainTurn(client, hard, env), pass.firedAt)
  {
    hide Loop.Step, Loop.Active, Reads;
    LateResponseIsIgnored(
      DrainTurn(client, hard, env), Begin(DrainStart(client), env.startedAt, CLEANUP_MS, hard),
      passes, pass, message, n);
  }

  // The same in a drain, for the response to any request but the cancelled prompt.
  lemma OtherResponsesDoNotCount(
    steeringSupported: bool, calls: seq<Call>, hard: Time, env: CancelEnv, passes: seq<Pass>, pass: Pass,
    message: Message, line: Outgoing)
    requires Life(steeringSupported, calls).lastPromptId.Some?
    requires line in Life(steeringSupported, calls).written && RequestId(line).Some?
    requires RequestId(line) != Life(steeringSupported, calls).lastPromptId
    requires message.RespondsTo(RequestId(line).value)
    requires Reads(DrainLoop(Life(steeringSupported, calls), hard, env, passes), pass, message)
    ensures var client := Life(steeringSupported, calls);
            var s := DrainLoop(client, hard, env, passes);
            s.Step(DrainTurn(client, hard, env), pass) == s.Active(DrainTurn(client, hard, env), pass.firedAt)
  {
    hide Life, Sound, DrainLoop, Loop.Step, Loop.Active, Reads;
    var client := Life(steeringSupported, calls);
    LifeIsSound(steeringSupported, calls);
    WrittenIdIsUsed(client, line);
    DrainIgnores(client, hard, env, passes, pass, message, RequestId(line).value);
  }
}
