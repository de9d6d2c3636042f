// What each frame of the agent leads to, in terms of the frame's own members: how
// permission requests are answered, how steers are settled, and how the loop ends.
module AcpFrames {
  import opened Wrappers
  import opened AcpTurn
  import opened AcpTheorems
  import opened AcpOutput

  // ---------- the answer to a permission request ----------

  ghost predicate Offers(options: seq<PermissionOption>, kind: OptionKind) {
    exists i | 0 <= i < |options| :: options[i].kind == kind
  }

  // `answer` is the id of the first option that allows once; without such an option, of
  // the first that rejects once, "reject" when that one has no id.
  ghost predicate Answers(options: Option<seq<PermissionOption>>, answer: string) {
    exists list: seq<PermissionOption>, i: nat ::
      && options == Some(list)
      && ((FirstAt(list, AllowOnce, i) && list[i].optionId == Some(answer))
          || (!Offers(list, AllowOnce) && FirstAt(list, RejectOnce, i)
              && (list[i].optionId == Some(answer) || (list[i].optionId == None && answer == "reject"))))
  }

  // No answer exists: no options at all, an allowing option without an id, or neither kind.
  ghost predicate NothingToAnswer(options: Option<seq<PermissionOption>>) {
    forall list: seq<PermissionOption> :: options == Some(list) ==>
      || (!Offers(list, AllowOnce) && !Offers(list, RejectOnce))
      || exists i: nat :: FirstAt(list, AllowOnce, i) && list[i].optionId == None
  }

  lemma OffersExactly(list: seq<PermissionOption>, kind: OptionKind)
    ensures FirstOfKind(list, kind).Some? <==> Offers(list, kind)
    ensures forall i: nat | FirstAt(list, kind, i) :: FirstOfKind(list, kind) == Some(list[i])
  {
    FirstOfKindIsFirst(list, kind);
    if FirstOfKind(list, kind).Some? {
      var i: nat :| FirstAt(list, kind, i) && list[i] == FirstOfKind(list, kind).value;
      forall j: nat | FirstAt(list, kind, j)
        ensures j == i
      {
      }
    } else {
      forall i | 0 <= i < |list|
        ensures list[i].kind != kind
      {
        assert list[i] in list;
      }
    }
  }

  lemma ChoiceExactly(options: Option<seq<PermissionOption>>, answer: string)
    ensures Choice(options) == Some(answer) <==> Answers(options, answer)
    ensures Choice(options) == None <==> NothingToAnswer(options)
  {
    if options.Some? {
      var list := options.value;
      OffersExactly(list, AllowOnce);
      OffersExactly(list, RejectOnce);
      FirstOfKindIsFirst(list, AllowOnce);
      FirstOfKindIsFirst(list, RejectOnce);
    }
  }

  // The pass reads permission request `id`, finds `answer` for it and can write it.
  ghost function GivesAnswer(id: JsonId, answer: string): (Loop, Pass) -> bool {
    (s: Loop, pass: Pass) =>
      exists message ::
        && Reads(s, pass, message) && message.call == Method(RequestPermission) && message.id == Some(id)
        && Answers(message.options, answer) && pass.writeOk
  }

  lemma StepGivesAnswer(turn: Turn, s: Loop, pass: Pass, id: JsonId, answer: string)
    ensures Writes(turn, PermissionSelected(id, answer))(s, pass) <==> GivesAnswer(id, answer)(s, pass)
  {
    var line := PermissionSelected(id, answer);
    var t := s.Step(turn, pass);
    if Selects(s, pass) && pass.reader.Some? && pass.reader.value.Parsed? {
      var message := pass.reader.value.message;
      MessageWrites(turn, s.Active(turn, pass.firedAt), message, pass.handledAt, pass.writeOk);
      ChoiceExactly(message.options, answer);
      assert Reads(s, pass, message);
      if Writes(turn, line)(s, pass) {
        assert t.client.written[|s.client.written|] == line;
      }
    } else if t.client.written != s.client.written {
      assert t.client.written[|s.client.written|] != line;
    }
  }

  // Over every run: permission request `id` is answered with `answer` exactly when some
  // pass read it, `answer` is the one its options call for, and the write succeeded.
  lemma AnsweredAsOffered(turn: Turn, start: Loop, passes: seq<Pass>, id: JsonId, answer: string)
    ensures PermissionSelected(id, answer) in Run(turn, start, passes).client.written <==>
      || PermissionSelected(id, answer) in start.client.written
      || AtSomePass(turn, start, passes, GivesAnswer(id, answer))
  {
    LinesComeFromPasses(turn, start, passes, PermissionSelected(id, answer));
    forall i | 0 <= i < |passes|
      ensures Writes(turn, PermissionSelected(id, answer))(Run(turn, start, passes[..i]), passes[i]) <==>
        GivesAnswer(id, answer)(Run(turn, start, passes[..i]), passes[i])
    {
      StepGivesAnswer(turn, Run(turn, start, passes[..i]), passes[i], id, answer);
    }
  }

  // A request ends the loop unanswered exactly when it has no id, nothing answers it, or
  // its answer cannot be written.
  lemma UnanswerableExactly(message: Message, writeOk: bool)
    requires message.call == Method(RequestPermission)
    ensures Unanswerable(message, writeOk) <==> message.id == None || NothingToAnswer(message.options) || !writeOk
  {
    ChoiceExactly(message.options, "");
  }

  // ---------- requests nobody knows ----------

  ghost function RefusesMethod(id: JsonId): (Loop, Pass) -> bool {
    (s: Loop, pass: Pass) =>
      exists message, name ::
        && Reads(s, pass, message) && message.call == Method(OtherMethod(name)) && message.id == Some(id) && pass.writeOk
  }

  lemma StepRefusesMethod(turn: Turn, s: Loop, pass: Pass, id: JsonId)
    ensures Writes(turn, MethodNotFound(id))(s, pass) <==> RefusesMethod(id)(s, pass)
  {
    var line := MethodNotFound(id);
    var t := s.Step(turn, pass);
    if Selects(s, pass) && pass.reader.Some? && pass.reader.value.Parsed? {
      var message := pass.reader.value.message;
      MessageWrites(turn, s.Active(turn, pass.firedAt), message, pass.handledAt, pass.writeOk);
      assert Reads(s, pass, message);
      if Writes(turn, line)(s, pass) {
        assert t.client.written[|s.client.written|] == line;
      }
      if message.call.Method? && message.call.name.OtherMethod? {
        assert message.call == Method(OtherMethod(message.call.name.name));
      }
    } else if t.client.written != s.client.written {
      assert t.client.written[|s.client.written|] != line;
    }
  }

  // Over every run: "method not found" goes out exactly to the requests of unknown
  // methods that carry an id, when it can be written; notifications get nothing.
  lemma UnknownMethodsAreRefused(turn: Turn, start: Loop, passes: seq<Pass>, id: JsonId)
    ensures MethodNotFound(id) in Run(turn, start, passes).client.written <==>
      MethodNotFound(id) in start.client.written || AtSomePass(turn, start, passes, RefusesMethod(id))
  {
    LinesComeFromPasses(turn, start, passes, MethodNotFound(id));
    forall i | 0 <= i < |passes|
      ensures Writes(turn, MethodNotFound(id))(Run(turn, start, passes[..i]), passes[i]) <==>
        RefusesMethod(id)(Run(turn, start, passes[..i]), passes[i])
    {
      StepRefusesMethod(turn, Run(turn, start, passes[..i]), passes[i], id);
    }
  }

  // ---------- how a steer is settled ----------

  // The pass reads the response to the steer in flight, which is for `request`.
  ghost predicate HearsBack(s: Loop, pass: Pass, request: nat, p: Pending, message: Message) {
    && Reads(s, pass, message) && s.pending == Some(p) && p.request == request
    && message.id == Some(NumberId(p.id)) && message.call == NoMethod
  }

  // The pass takes steer request `request` off the channel.
  ghost predicate Receives(turn: Turn, s: Loop, pass: Pass, request: nat) {
    && Selects(s, pass) && pass.reader == None && pass.steerWaiting && turn.steerOpen
    && s.pending == None && s.received == request
  }

  // The pass gives `request` this acknowledgement, told from what it meets.
  ghost predicate Gives(turn: Turn, s: Loop, pass: Pass, request: nat, ack: SteerAck) {
    match ack
    case Success =>
      exists p, message :: HearsBack(s, pass, request, p, message) && message.error == None
        && (p.transport == AcpExtension ==> message.result.outcome == Injected || message.result.outcome == StartedNewTurn)
    case SteerFailed(SteerRefused(code)) =>
      exists p, message, fault :: HearsBack(s, pass, request, p, message) && message.error == Some(fault)
        && (fault.code == Some(code) || (fault.code == None && code == -1))
    case SteerFailed(OutcomeRejected(reported)) =>
      exists p, message :: HearsBack(s, pass, request, p, message) && message.error == None
        && p.transport == AcpExtension && message.result.outcome == Unrecognized(reported)
    case SteerFailed(ExpectedRunIdMissing) =>
      Receives(turn, s, pass, request) && s.client.activeRun == None && !s.client.steeringSupported
    case SteerFailed(SteerWriteFailed) =>
      Receives(turn, s, pass, request) && (s.client.activeRun != None || s.client.steeringSupported) && !pass.writeOk
    case PromptCompletedNeutral =>
      && s.exit == None && (exists p :: s.pending == Some(p) && p.request == request)
      && (!Selects(s, pass)
          || pass.reader == None
          || pass.reader == Some(Eof) || pass.reader == Some(LineTooLong) || pass.reader == Some(ReadFailure)
          || exists message, p ::
               && Reads(s, pass, message) && message.id == Some(NumberId(turn.expectedId)) && message.call == NoMethod
               && s.pending == Some(p) && p.id != turn.expectedId)
  }

  lemma SteerGives(turn: Turn, s: Loop, pass: Pass, request: nat, ack: SteerAck)
    requires Selects(s, pass) && pass.reader == None && pass.steerWaiting && turn.steerOpen && s.pending == None
    ensures Ack(request, ack) in s.Step(turn, pass).acks <==> Ack(request, ack) in s.acks || Gives(turn, s, pass, request, ack)
  {
    var t := s.Step(turn, pass);
    if t.acks != s.acks {
      assert t.acks == s.acks + [t.acks[|s.acks|]];
    }
  }

  lemma ResponseGives(turn: Turn, s: Loop, pass: Pass, message: Message, request: nat, ack: SteerAck)
    requires Reads(s, pass, message) && s.pending.Some? && message.RespondsTo(s.pending.value.id)
    ensures Ack(request, ack) in s.Step(turn, pass).acks <==> Ack(request, ack) in s.acks || Gives(turn, s, pass, request, ack)
  {
    var p := s.pending.value;
    var t := s.Step(turn, pass);
    assert t.acks == s.acks + [Ack(p.request, Judge(p.transport, message))];
    if request == p.request {
      assert HearsBack(s, pass, request, p, message);
    }
  }

  lemma LeavingGives(turn: Turn, s: Loop, pass: Pass, request: nat, ack: SteerAck)
    requires s.exit == None
    requires || !Selects(s, pass)
             || (pass.reader == None && !(pass.steerWaiting && turn.steerOpen && s.pending == None))
             || pass.reader == Some(Eof) || pass.reader == Some(LineTooLong) || pass.reader == Some(ReadFailure)
    ensures Ack(request, ack) in s.Step(turn, pass).acks <==> Ack(request, ack) in s.acks || Gives(turn, s, pass, request, ack)
  {
    var t := s.Step(turn, pass);
    if s.pending.Some? {
      assert t.acks == s.acks + [Ack(s.pending.value.request, PromptCompletedNeutral)];
    } else {
      assert t.acks == s.acks;
    }
  }

  lemma OtherMessageGives(turn: Turn, s: Loop, pass: Pass, message: Message, request: nat, ack: SteerAck)
    requires Reads(s, pass, message) && !(s.pending.Some? && message.RespondsTo(s.pending.value.id))
    ensures Ack(request, ack) in s.Step(turn, pass).acks <==> Ack(request, ack) in s.acks || Gives(turn, s, pass, request, ack)
  {
    var t := s.Step(turn, pass);
    if message.RespondsTo(turn.expectedId) && s.pending.Some? {
      assert t.acks == s.acks + [Ack(s.pending.value.request, PromptCompletedNeutral)];
      assert s.pending == Some(s.pending.value);
    } else {
      assert t.acks == s.acks;
    }
  }

  lemma StepGives(turn: Turn, s: Loop, pass: Pass, request: nat, ack: SteerAck)
    ensures Ack(request, ack) in s.Step(turn, pass).acks <==> Ack(request, ack) in s.acks || Gives(turn, s, pass, request, ack)
  {
    if s.exit.Some? {
    } else if !Selects(s, pass) {
      LeavingGives(turn, s, pass, request, ack);
    } else if pass.reader.None? {
      if pass.steerWaiting && turn.steerOpen && s.pending.None? {
        SteerGives(turn, s, pass, request, ack);
      } else {
        LeavingGives(turn, s, pass, request, ack);
      }
    } else if pass.reader.value.Parsed? {
      var message := pass.reader.value.message;
      if s.pending.Some? && message.RespondsTo(s.pending.value.id) {
        ResponseGives(turn, s, pass, message, request, ack);
      } else {
        OtherMessageGives(turn, s, pass, message, request, ack);
      }
    } else if !pass.reader.value.Blank? && !pass.reader.value.Unparsable? {
      LeavingGives(turn, s, pass, request, ack);
    }
  }

  ghost function GivesTo(turn: Turn, request: nat, ack: SteerAck): (Loop, Pass) -> bool {
    (s: Loop, pass: Pass) => Gives(turn, s, pass, request, ack)
  }

  // Over every run: each acknowledgement, of whatever kind and with whatever code or
  // text, was given exactly when some pass met what that kind stands for.
  lemma {:induction false} AcknowledgedAsMet(turn: Turn, start: Loop, passes: seq<Pass>, request: nat, ack: SteerAck)
    requires Started(turn, start)
    ensures Ack(request, ack) in Run(turn, start, passes).acks <==>
      AtSomePass(turn, start, passes, GivesTo(turn, request, ack))
  {
    hide Gives;
    if passes != [] {
      var n := |passes| - 1;
      AcknowledgedAsMet(turn, start, passes[..n], request, ack);
      StepGives(turn, Run(turn, start, passes[..n]), passes[n], request, ack);
      LastOrEarlier(turn, start, passes, GivesTo(turn, request, ack));
    }
  }

  // ---------- how the loop ends ----------

  // A pass that gets to its select ends the loop exactly on one of these.
  lemma EndsExactly(turn: Turn, s: Loop, pass: Pass)
    requires Selects(s, pass) && pass.reader.Some?
    ensures var exit := s.Step(turn, pass).exit;
            match pass.reader.value
            case Eof => exit == Some(AgentExited)
            case LineTooLong => exit == Some(Oversized)
            case ReadFailure => exit == Some(ReadError)
            case Blank => exit == None
            case Unparsable => exit == None
            case Parsed(message) =>
              var settles := s.pending.Some? && message.id == Some(NumberId(s.pending.value.id)) && message.call == NoMethod;
              var answers := !settles && message.id == Some(NumberId(turn.expectedId)) && message.call == NoMethod;
              && (answers ==> forall fault :: message.error == Some(fault) ==> exit == Some(AgentError(fault)))
              && (answers && message.error == None ==> exit == Some(Response(message.result)))
              && (message.call == Method(RequestPermission) ==>
                    exit == if message.id == None || NothingToAnswer(message.options) then Some(ProtocolError)
                            else if !pass.writeOk then Some(WriteFailed) else None)
              && (message.call.Method? && message.call.name.OtherMethod? ==>
                    exit == if message.id.Some? && !pass.writeOk then Some(WriteFailed) else None)
              && (!answers && (message.call.Method? ==> message.call.name.SessionUpdate? || message.call.name.UsageUpdate?) ==>
                    exit == None)
  {
    if pass.reader.value.Parsed? {
      ChoiceExactly(pass.reader.value.message.options, "");
    }
  }

  // What counts as activity: every line that parses, and once more, when it has been
  // handled, an update that starts a tool call.
  lemma ActivityExactly(turn: Turn, s: Loop, pass: Pass)
    requires Selects(s, pass)
    ensures var t := s.Step(turn, pass);
            && t.lastActivity ==
                 (if pass.reader.Some? && pass.reader.value.Parsed? then
                    var message := pass.reader.value.message;
                    if message.call == Method(SessionUpdate) && message.update == ToolCall then pass.handledAt else pass.firedAt
                  else s.lastActivity)
            && (t.lastActivity == s.lastActivity && !(pass.reader.Some? && pass.reader.value.Parsed?) ==>
                  t.idleDeadline == s.idleDeadline)
            && (pass.reader.Some? && pass.reader.value.Parsed? ==> t.idleDeadline == t.lastActivity + turn.idleTimeout)
  {
  }

  // ---------- how a prompt starts and what it returns ----------

  // A prompt writes one line, under the next id, and starts with a full budget of both kinds.
  lemma PromptStarts(client: Client, env: PromptEnv)
    requires env.writeOk
    ensures var loop := PromptLoop(client, env, []);
            && loop.client.written == client.written + [PromptRequest(client.nextId)]
            && loop.client.nextId == client.nextId + 1
            && loop.hardDeadline == env.at + env.maxDuration
            && loop.idleDeadline == env.startedAt + env.idleTimeout && loop.lastActivity == env.startedAt
            && loop.acks == [] && loop.received == 0 && loop.pending == None && loop.exit == None
  {
  }

  // The prompt's result, from the way its loop ended.
  lemma PromptReturns(client: Client, env: PromptEnv)
    ensures var result := AcpTurn.SessionPrompt(client, env).1;
            && (!env.writeOk ==> result == Errored(WriteFailed))
            && (env.writeOk ==>
                  match PromptLoop(client, env, env.passes).exit
                  case None => result == StillRunning
                  case Some(Response(payload)) =>
                    && (forall reason :: payload.stop == Stop(reason) ==> result == Stopped(reason))
                    && (payload.stop == UnknownStop || payload.stop == NoStop ==> result == Errored(ProtocolError))
                  case Some(exit) => result == Errored(exit))
  {
  }

  // The same for a cancellation with a prompt in flight; the bounded one never reports a
  // hard timeout but says that its own grace ran out.
  lemma CancellationReturns(client: Client, grace: nat, env: CancelEnv)
    requires client.lastPromptId.Some?
    requires client.pendingPermission == None && env.cancelWriteOk
    ensures var bounded := CancelWithGrace(client, grace, env).1;
            match DrainLoop(client.(storedDeadline := None), env.at + grace, env, env.passes).exit
            case None => bounded == StillRunning
            case Some(HardTimeout(_)) => bounded == DrainTimedOut(grace)
            case Some(Response(payload)) =>
              && (forall reason :: payload.stop == Stop(reason) ==> bounded == Stopped(reason))
              && (payload.stop == UnknownStop || payload.stop == NoStop ==> bounded == Errored(ProtocolError))
            case Some(exit) => bounded == Errored(exit)
  {
  }
}
