// What the read loop writes over whole runs: steer requests and answers to
// permission requests.
module AcpOutput {
  import opened Wrappers
  import opened AcpTurn
  import opened AcpTheorems

  // What is written in reply to a message.
  ghost function Reply(message: Message, writeOk: bool): seq<Outgoing> {
    if !writeOk || message.id.None? then []
    else if message.call == Method(RequestPermission) && Choice(message.options).Some? then
      [PermissionSelected(message.id.value, Choice(message.options).value)]
    else if message.call.Method? && message.call.name.OtherMethod? then [MethodNotFound(message.id.value)]
    else []
  }

  lemma RequestWrites(turn: Turn, s: Loop, message: Message, handledAt: Time, writeOk: bool)
    ensures s.OnRequest(turn, message, handledAt, writeOk).client.written == s.client.written + Reply(message, writeOk)
  {
  }

  lemma MessageWrites(turn: Turn, s: Loop, message: Message, handledAt: Time, writeOk: bool)
    ensures s.OnMessage(turn, message, handledAt, writeOk).client.written == s.client.written + Reply(message, writeOk)
  {
    RequestWrites(turn, s, message, handledAt, writeOk);
  }

  // ---------- steer requests ----------

  ghost function SteersFor(written: seq<Outgoing>, request: nat): nat {
    if written == [] then 0
    else
      var n := |written| - 1;
      SteersFor(written[..n], request) + (if written[n].SteerRequest? && written[n].request == request then 1 else 0)
  }

  lemma LineAppended(written: seq<Outgoing>, line: Outgoing, request: nat)
    ensures SteersFor(written + [line], request)
            == SteersFor(written, request) + (if line.SteerRequest? && line.request == request then 1 else 0)
  {
    assert (written + [line])[..|written|] == written;
  }

  // The steer was refused before anything was sent: no way to steer, or no way to write.
  ghost predicate Unsent(acks: seq<Ack>, request: nat) {
    Ack(request, SteerFailed(ExpectedRunIdMissing)) in acks || Ack(request, SteerFailed(SteerWriteFailed)) in acks
  }

  ghost predicate OnlyReceivedAcked(s: Loop) {
    && (forall a | a in s.acks :: a.request < s.received)
    && (s.pending.Some? ==> s.pending.value.request < s.received)
  }

  // What a pass adds: nothing a steer could be, or one steer or refusal for a new request.
  ghost predicate SendEffect(s: Loop, t: Loop, request: nat) {
    && OnlyReceivedAcked(t)
    && s.received <= t.received <= s.received + 1
    && (request != s.received || t.received == s.received ==>
          && SteersFor(t.client.written, request) == SteersFor(s.client.written, request)
          && (Unsent(t.acks, request) <==> Unsent(s.acks, request)))
    && (request == s.received < t.received ==>
          SteersFor(t.client.written, request)
          == SteersFor(s.client.written, request) + (if Unsent(t.acks, request) then 0 else 1))
  }

  lemma LeaveSends(s: Loop, reason: Exit, request: nat)
    requires OnlyReceivedAcked(s)
    ensures SendEffect(s, s.Leave(reason), request)
  {
  }

  lemma SteerSends(s: Loop, writeOk: bool, request: nat)
    requires OnlyReceivedAcked(s) && s.pending.None?
    ensures SendEffect(s, s.OnSteer(writeOk), request)
  {
    var t := s.OnSteer(writeOk);
    if t.client.written != s.client.written {
      LineAppended(s.client.written, t.client.written[|s.client.written|], request);
    }
    if t.acks != s.acks {
      var ack := t.acks[|s.acks|];
      assert t.acks == s.acks + [ack] && ack in t.acks;
    }
  }

  lemma RequestSends(turn: Turn, s: Loop, message: Message, handledAt: Time, writeOk: bool, request: nat)
    requires OnlyReceivedAcked(s)
    ensures SendEffect(s, s.OnRequest(turn, message, handledAt, writeOk), request)
  {
    RequestWrites(turn, s, message, handledAt, writeOk);
    if Reply(message, writeOk) != [] {
      LineAppended(s.client.written, Reply(message, writeOk)[0], request);
    }
  }

  lemma ResponseSends(turn: Turn, s: Loop, message: Message, handledAt: Time, request: nat)
    requires OnlyReceivedAcked(s) && s.pending.Some?
    ensures SendEffect(s, s.OnSteerResponse(turn, message, handledAt), request)
  {
  }

  lemma MessageSends(turn: Turn, s: Loop, message: Message, handledAt: Time, writeOk: bool, request: nat)
    requires OnlyReceivedAcked(s)
    ensures SendEffect(s, s.OnMessage(turn, message, handledAt, writeOk), request)
  {
    if s.pending.Some? && message.RespondsTo(s.pending.value.id) {
      ResponseSends(turn, s, message, handledAt, request);
    } else if message.RespondsTo(turn.expectedId) {
      LeaveSends(s, s.OnPromptResponse(message).exit.value, request);
    } else {
      RequestSends(turn, s, message, handledAt, writeOk, request);
    }
  }

  lemma StepSends(turn: Turn, s: Loop, pass: Pass, request: nat)
    requires OnlyReceivedAcked(s)
    ensures SendEffect(s, s.Step(turn, pass), request)
  {
    if s.exit.None? {
      if pass.checkedAt >= s.NextDeadline() {
        LeaveSends(s, s.TimeOut(pass.checkedAt).exit.value, request);
      } else if pass.reader.Some? {
        var item := pass.reader.value;
        if item.Parsed? {
          MessageSends(turn, s.Active(turn, pass.firedAt), item.message, pass.handledAt, pass.writeOk, request);
        } else if !item.Blank? && !item.Unparsable? {
          LeaveSends(s, s.Step(turn, pass).exit.value, request);
        }
      } else if pass.steerWaiting && turn.steerOpen && s.pending.None? {
        SteerSends(s, pass.writeOk, request);
      } else {
        LeaveSends(s, s.TimeOut(pass.firedAt).exit.value, request);
      }
    }
  }

  // Over every run: each steer request received is written exactly once, unless it
  // was refused for want of a transport or its write failed, and then never;
  // nothing is written for a request not received.
  lemma {:induction false} SteersAreWrittenOnce(turn: Turn, start: Loop, passes: seq<Pass>, request: nat)
    requires Started(turn, start)
    ensures OnlyReceivedAcked(Run(turn, start, passes))
    ensures var s := Run(turn, start, passes);
            && (request >= s.received ==> !Unsent(s.acks, request))
            && SteersFor(s.client.written, request)
               == SteersFor(start.client.written, request)
                  + (if request < s.received && !Unsent(s.acks, request) then 1 else 0)
  {
    if passes != [] {
      var n := |passes| - 1;
      SteersAreWrittenOnce(turn, start, passes[..n], request);
      StepSends(turn, Run(turn, start, passes[..n]), passes[n], request);
    }
  }

  // ---------- how a steer is addressed ----------

  // The pass writes `line`.
  ghost function Writes(turn: Turn, line: Outgoing): (Loop, Pass) -> bool {
    (s: Loop, pass: Pass) => s.Step(turn, pass).client.written == s.client.written + [line]
  }

  lemma {:induction false} LinesComeFromPasses(turn: Turn, start: Loop, passes: seq<Pass>, line: Outgoing)
    ensures line in Run(turn, start, passes).client.written
            <==> line in start.client.written || AtSomePass(turn, start, passes, Writes(turn, line))
  {
    if passes != [] {
      var n := |passes| - 1;
      var s, t := Run(turn, start, passes[..n]), Run(turn, start, passes);
      LinesComeFromPasses(turn, start, passes[..n], line);
      LastOrEarlier(turn, start, passes, Writes(turn, line));
      StepEffect(turn, s, passes[n]);
      if t.client.written != s.client.written {
        var last := t.client.written[|s.client.written|];
        assert t.client.written == s.client.written + [last];
      }
    }
  }

  // What a line the agent sent says about its run: a new run id, or none any more.
  ghost function RunNews(s: Loop, pass: Pass): Option<Option<string>> {
    if !Selects(s, pass) || pass.reader.None? || !pass.reader.value.Parsed? then None
    else
      var message := pass.reader.value.message;
      if message.call != Method(SessionUpdate) then None
      else match message.update
        case RunStarted(run) => Some(Some(run))
        case RunCleared => Some(None)
        case _ => None
  }

  lemma MessageRun(turn: Turn, s: Loop, message: Message, handledAt: Time, writeOk: bool)
    ensures var t := s.OnMessage(turn, message, handledAt, writeOk);
            && t.client.steeringSupported == s.client.steeringSupported
            && t.client.activeRun
               == if message.call == Method(SessionUpdate) then s.client.Updated(message.update).activeRun
                  else s.client.activeRun
  {
    if message.call == Method(RequestPermission) {
      PermissionEffect(s.client, message, writeOk);
    }
  }

  lemma StepRun(turn: Turn, s: Loop, pass: Pass)
    ensures s.Step(turn, pass).client.activeRun == RunNews(s, pass).GetOr(s.client.activeRun)
    ensures s.Step(turn, pass).client.steeringSupported == s.client.steeringSupported
  {
    if Selects(s, pass) && pass.reader.Some? && pass.reader.value.Parsed? {
      MessageRun(turn, s.Active(turn, pass.firedAt), pass.reader.value.message, pass.handledAt, pass.writeOk);
    }
  }

  // The run id is the one last announced: by the latest pass with news, or from before the loop.
  lemma {:induction false} RunIdIsTheLatest(turn: Turn, start: Loop, passes: seq<Pass>)
    ensures Run(turn, start, passes).client.steeringSupported == start.client.steeringSupported
    ensures var run := Run(turn, start, passes).client.activeRun;
            || (run == start.client.activeRun && Silent(turn, start, passes, 0))
            || exists i | 0 <= i < |passes| ::
                 RunNews(Run(turn, start, passes[..i]), passes[i]) == Some(run) && Silent(turn, start, passes, i + 1)
  {
    if passes != [] {
      var n := |passes| - 1;
      var before := passes[..n];
      RunIdIsTheLatest(turn, start, before);
      StepRun(turn, Run(turn, start, before), passes[n]);
      var run := Run(turn, start, passes).client.activeRun;
      if RunNews(Run(turn, start, before), passes[n]).Some? {
        assert RunNews(Run(turn, start, passes[..n]), passes[n]) == Some(run) && Silent(turn, start, passes, n + 1);
      } else if run == start.client.activeRun && Silent(turn, start, before, 0) {
        StaysSilent(turn, start, passes, 0);
      } else {
        var i :| 0 <= i < n && RunNews(Run(turn, start, before[..i]), before[i]) == Some(run)
                 && Silent(turn, start, before, i + 1);
        StaysSilent(turn, start, passes, i + 1);
        assert before[..i] == passes[..i] && before[i] == passes[i];
      }
    }
  }

  // No pass from the `from`-th on has news about the run.
  ghost predicate Silent(turn: Turn, start: Loop, passes: seq<Pass>, from: nat) {
    forall j | from <= j < |passes| :: RunNews(Run(turn, start, passes[..j]), passes[j]).None?
  }

  lemma StaysSilent(turn: Turn, start: Loop, passes: seq<Pass>, from: nat)
    requires passes != [] && from < |passes|
    requires Silent(turn, start, passes[..|passes| - 1], from)
    requires RunNews(Run(turn, start, passes[..|passes| - 1]), passes[|passes| - 1]).None?
    ensures Silent(turn, start, passes, from)
  {
    var n := |passes| - 1;
    forall j | from <= j < |passes|
      ensures RunNews(Run(turn, start, passes[..j]), passes[j]).None?
    {
      if j < n {
        assert passes[..n][..j] == passes[..j] && passes[..n][j] == passes[j];
      }
    }
  }

  // Every steer request a run writes goes, at the pass that writes it, to the run
  // then active, when there is one; and otherwise by the extension method, which
  // was advertised.
  lemma SteersAreAddressed(turn: Turn, start: Loop, passes: seq<Pass>, line: Outgoing)
    requires line in Run(turn, start, passes).client.written && line !in start.client.written && line.SteerRequest?
    ensures exists i | 0 <= i < |passes| ::
              var s := Run(turn, start, passes[..i]);
              && Writes(turn, line)(s, passes[i])
              && line.run == s.client.activeRun && line.id == s.client.nextId && line.request == s.received
              && line.transport == (if line.run.Some? then Goose else AcpExtension)
              && (line.run.None? ==> start.client.steeringSupported)
  {
    LinesComeFromPasses(turn, start, passes, line);
    var i :| 0 <= i < |passes| && Writes(turn, line)(Run(turn, start, passes[..i]), passes[i]);
    RunIdIsTheLatest(turn, start, passes[..i]);
    OnlySteersWriteSteers(turn, Run(turn, start, passes[..i]), passes[i], line);
  }

  lemma OnlySteersWriteSteers(turn: Turn, s: Loop, pass: Pass, line: Outgoing)
    requires Writes(turn, line)(s, pass) && line.SteerRequest?
    ensures line.run == s.client.activeRun && line.id == s.client.nextId && line.request == s.received
    ensures line.transport == (if line.run.Some? then Goose else AcpExtension)
    ensures line.run.None? ==> s.client.steeringSupported
  {
    var t := s.Step(turn, pass);
    assert t.client.written[|s.client.written|] == line;
    if pass.reader.Some? && pass.reader.value.Parsed? {
      MessageWrites(turn, s.Active(turn, pass.firedAt), pass.reader.value.message, pass.handledAt, pass.writeOk);
    }
  }

  // ---------- answers to permission requests ----------

  ghost function Selections(written: seq<Outgoing>): seq<Outgoing> {
    if written == [] then []
    else
      var n := |written| - 1;
      Selections(written[..n]) + (if written[n].PermissionSelected? then [written[n]] else [])
  }

  // The answer a pass owes: to a permission request with an id, an option to choose, and
  // a way to write it.
  ghost function AnswerOwed(s: Loop, pass: Pass): seq<Outgoing> {
    if !Selects(s, pass) || pass.reader.None? || !pass.reader.value.Parsed? then []
    else
      var message := pass.reader.value.message;
      if message.call == Method(RequestPermission) && !Unanswerable(message, pass.writeOk)
      then [PermissionSelected(message.id.value, Choice(message.options).value)]
      else []
  }

  ghost function AnswersOwed(turn: Turn, start: Loop, passes: seq<Pass>): seq<Outgoing> {
    if passes == [] then []
    else
      var n := |passes| - 1;
      AnswersOwed(turn, start, passes[..n]) + AnswerOwed(Run(turn, start, passes[..n]), passes[n])
  }

  lemma SelectionAppended(written: seq<Outgoing>, line: Outgoing)
    ensures Selections(written + [line]) == Selections(written) + (if line.PermissionSelected? then [line] else [])
  {
    assert (written + [line])[..|written|] == written;
  }

  lemma MessageAnswers(turn: Turn, s: Loop, message: Message, handledAt: Time, writeOk: bool)
    ensures Selections(s.OnMessage(turn, message, handledAt, writeOk).client.written)
            == Selections(s.client.written)
               + (if message.call == Method(RequestPermission) && !Unanswerable(message, writeOk)
                  then [PermissionSelected(message.id.value, Choice(message.options).value)] else [])
  {
    hide Loop.OnMessage;
    var reply := Reply(message, writeOk);
    MessageWrites(turn, s, message, handledAt, writeOk);
    if reply == [] {
      assert s.client.written + reply == s.client.written;
    } else {
      assert reply == [reply[0]];
      SelectionAppended(s.client.written, reply[0]);
    }
  }

  lemma StepAnswers(turn: Turn, s: Loop, pass: Pass)
    ensures Selections(s.Step(turn, pass).client.written) == Selections(s.client.written) + AnswerOwed(s, pass)
  {
    var t := s.Step(turn, pass);
    if Selects(s, pass) && pass.reader.Some? && pass.reader.value.Parsed? {
      MessageAnswers(turn, s.Active(turn, pass.firedAt), pass.reader.value.message, pass.handledAt, pass.writeOk);
    } else if t.client.written != s.client.written {
      SelectionAppended(s.client.written, t.client.written[|s.client.written|]);
    }
  }

  // Over every run: the permission answers written are, in order, exactly one for
  // each permission request read that could be answered.
  lemma {:induction false} PermissionsAreAnsweredInOrder(turn: Turn, start: Loop, passes: seq<Pass>)
    ensures Selections(Run(turn, start, passes).client.written)
            == Selections(start.client.written) + AnswersOwed(turn, start, passes)
  {
    if passes != [] {
      var n := |passes| - 1;
      PermissionsAreAnsweredInOrder(turn, start, passes[..n]);
      StepAnswers(turn, Run(turn, start, passes[..n]), passes[n]);
    }
  }
}
