// The lease gate in front of parent-facing turns (crates/buzz-acp/src/airhop.rs,
// `ParentSupervisorGate`). What the server, the classifier and the disk answer is input.
module ParentSupervisor {
  import opened Wrappers
  import opened Calendar

  // Anything that is not an HTTP response with a status: time-outs, transport, unreadable JSON.
  datatype ServerError = HttpResponse(status: nat) | OtherError

  datatype Lease = Lease(id: Uuid, leaseToken: Uuid)

  datatype Scope = Scope(conversationId: Uuid, threaded: Option<bool>)

  datatype Decision = Run(scope: Option<Scope>) | Retry | Drop

  // Event identifiers, oldest first.
  datatype Batch = Batch(channelId: Uuid, events: seq<string>, cancelledEvents: seq<string>)

  datatype Claim = Claim(token: string, turn: Lease, scope: Scope)

  datatype Candidate = Unreadable | Candidate(eventId: string, controlVersion: int)

  // A reply to a claim: the control candidate it carries, if any, and the claim it reads as.
  datatype ClaimReply = ClaimReply(controlCandidate: Option<Candidate>, claim: Option<Claim>)

  type Posted<T> = Result<T, ServerError>

  // What a claim meets: the first reply, whether the candidate could be classified, the
  // reply to the second request, and whether the grant file could be written.
  datatype ClaimAnswers = ClaimAnswers(
    first: Posted<ClaimReply>, classified: bool, second: Posted<ClaimReply>, grantWritten: bool)

  // A reply to a finish request: its status field.
  type FinishAnswer = Posted<Option<string>>

  type Leases = map<Uuid, Lease>

  // --- which events a claim names ---------------------------------------------------

  function Reversed(ids: seq<string>): seq<string> {
    if ids == [] then [] else Reversed(ids[1..]) + [ids[0]]
  }

  // The first occurrence of each, in order.
  function FirstOccurrences(ids: seq<string>, seen: set<string>): seq<string>
    decreases |ids|
  {
    if ids == [] then []
    else if ids[0] in seen then FirstOccurrences(ids[1..], seen)
    else [ids[0]] + FirstOccurrences(ids[1..], seen + {ids[0]})
  }

  function SourceIds(batch: Batch): seq<string> {
    FirstOccurrences(Reversed(batch.events) + Reversed(batch.cancelledEvents), {})
  }

  lemma {:induction false} ReversedHolds(ids: seq<string>)
    ensures |Reversed(ids)| == |ids|
    ensures forall id :: id in Reversed(ids) <==> id in ids
    ensures ids != [] ==> Reversed(ids)[0] == ids[|ids| - 1]
  {
    if ids != [] {
      ReversedHolds(ids[1..]);
    }
  }

  ghost predicate Distinct(ids: seq<string>) {
    forall i, j :: 0 <= i < j < |ids| ==> ids[i] != ids[j]
  }

  lemma {:induction false} FirstOccurrencesHolds(ids: seq<string>, seen: set<string>)
    ensures forall id :: id in FirstOccurrences(ids, seen) <==> id in ids && id !in seen
    ensures Distinct(FirstOccurrences(ids, seen))
    decreases |ids|
  {
    if ids != [] {
      FirstOccurrencesHolds(ids[1..], if ids[0] in seen then seen else seen + {ids[0]});
    }
  }

  // Each event of the batch once, and the newest triggering event first: a claim goes by a
  // cancelled event only when nothing else is in the batch.
  lemma ClaimNamesEveryEventOnce(batch: Batch)
    ensures forall id :: id in SourceIds(batch) <==> id in batch.events || id in batch.cancelledEvents
    ensures Distinct(SourceIds(batch))
    ensures batch.events != [] ==> SourceIds(batch)[..1] == [batch.events[|batch.events| - 1]]
    ensures batch.events == [] && batch.cancelledEvents != [] ==>
      SourceIds(batch)[..1] == [batch.cancelledEvents[|batch.cancelledEvents| - 1]]
  {
    ReversedHolds(batch.events);
    ReversedHolds(batch.cancelledEvents);
    FirstOccurrencesHolds(Reversed(batch.events) + Reversed(batch.cancelledEvents), {});
  }

  // --- the server's authority -----------------------------------------------------------

  function ErrorDecision(error: ServerError): Decision {
    if error.HttpResponse? && error.status in {400, 401, 403, 404, 410, 422} then Drop else Retry
  }

  function Read(reply: Posted<ClaimReply>): Posted<Claim> {
    match reply
    case Failure(error) => Failure(error)
    case Success(value) => if value.claim.Some? then Success(value.claim.value) else Failure(OtherError)
  }

  function Refusal(candidate: Candidate, classify: bool, sources: seq<string>): Option<ServerError> {
    if !classify then Some(HttpResponse(422))
    else if candidate.Unreadable? then Some(OtherError)
    else if candidate.eventId !in sources || candidate.controlVersion < 0 then Some(HttpResponse(422))
    else None
  }

  function Authorize(classify: bool, sources: seq<string>, answers: ClaimAnswers): Posted<Claim> {
    if answers.first.Success? && answers.first.value.controlCandidate.Some? then
      var refused := Refusal(answers.first.value.controlCandidate.value, classify, sources);
      if refused.Some? then Failure(refused.value)
      else if !answers.classified then Failure(OtherError)
      else Read(answers.second)
    else Read(answers.first)
  }

  function TerminalStatus(status: Option<string>): bool {
    status in {Some("completed"), Some("cancelled"), Some("failed")}
  }

  // A finish request releases the lease it names.
  predicate Releases(answer: FinishAnswer) {
    match answer
    case Success(status) => TerminalStatus(status)
    case Failure(error) => error.HttpResponse? && error.status in {403, 404, 409}
  }

  // The input has to be dispatched again.
  predicate Redispatches(answer: FinishAnswer) {
    match answer
    case Success(status) => !TerminalStatus(status) || status == Some("failed")
    case Failure(error) => error != HttpResponse(404)
  }

  function AnswerFor(answers: map<Uuid, FinishAnswer>, channel: Uuid): FinishAnswer {
    if channel in answers then answers[channel] else Failure(OtherError)
  }

  // --- the gate --------------------------------------------------------------------------

  class ParentSupervisorGate {
    const enabled: bool
    const classifyStaffControl: bool
    const hasContextFile: bool
    var leases: Leases

    constructor (enabled: bool, classifyStaffControl: bool, hasContextFile: bool)
      ensures this.enabled == enabled
      ensures this.classifyStaffControl == classifyStaffControl && this.hasContextFile == hasContextFile
      ensures leases == map[]
    {
      this.enabled := enabled;
      this.classifyStaffControl := classifyStaffControl;
      this.hasContextFile := hasContextFile;
      leases := map[];
    }

    function GateSettings(): Settings {
      Settings(enabled, classifyStaffControl, hasContextFile)
    }

    method ClaimBatch(batch: Batch, answers: ClaimAnswers) returns (decision: Decision)
      modifies this
      ensures (leases, decision) == Claimed(GateSettings(), old(leases), batch, answers)
    {
      if !enabled {
        return Run(None);
      }
      if leases != map[] {
        return Retry;
      }
      if !hasContextFile {
        return Drop;
      }
      var sourceEventIds := SourceIds(batch);
      if sourceEventIds == [] {
        return Drop;
      }
      var response := RequestClaim(sourceEventIds, answers);
      if response.Failure? {
        return ErrorDecision(response.error);
      }
      leases := leases[batch.channelId := response.value.turn];
      decision := if answers.grantWritten then Run(Some(response.value.scope)) else Retry;
    }

    // The request, and the second one a staff control candidate calls for.
    method RequestClaim(sourceEventIds: seq<string>, answers: ClaimAnswers) returns (response: Posted<Claim>)
      ensures response == Authorize(classifyStaffControl, sourceEventIds, answers)
    {
      if answers.first.Failure? {
        return Failure(answers.first.error);
      }
      var value := answers.first.value;
      if value.controlCandidate.Some? {
        if !classifyStaffControl {
          return Failure(HttpResponse(422));
        }
        var candidate := value.controlCandidate.value;
        if candidate.Unreadable? {
          return Failure(OtherError);
        }
        if candidate.eventId !in sourceEventIds || candidate.controlVersion < 0 {
          return Failure(HttpResponse(422));
        }
        if !answers.classified {
          return Failure(OtherError);
        }
        if answers.second.Failure? {
          return Failure(answers.second.error);
        }
        value := answers.second.value;
      }
      response := if value.claim.Some? then Success(value.claim.value) else Failure(OtherError);
    }

    // Asks; the lease stays.
    method NeedsReply(channel: Uuid, answer: Posted<Option<bool>>) returns (needed: bool)
      ensures needed <==> channel in leases && answer == Success(Some(true))
    {
      if channel !in leases {
        return false;
      }
      match answer {
        case Success(needsReply) => needed := needsReply == Some(true);
        case Failure(_) => needed := false;
      }
    }

    method FinishChannel(channel: Uuid, answer: FinishAnswer) returns (again: bool)
      modifies this
      ensures leases == Finished(old(leases), channel, answer)
      ensures again <==> channel in old(leases) && Redispatches(answer)
    {
      if channel !in leases {
        return false;
      }
      if answer.Success? {
        var status := answer.value;
        if status != Some("completed") && status != Some("cancelled") && status != Some("failed") {
          return true;
        }
        leases := leases - {channel};
        again := status == Some("failed");
      } else if answer.error.HttpResponse? && answer.error.status in {403, 404, 409} {
        leases := leases - {channel};
        again := answer.error.status != 404;
      } else {
        again := true;
      }
    }

    method FinishIdleChannels(active: set<Uuid>, answers: map<Uuid, FinishAnswer>)
      modifies this
      ensures leases == IdleFinished(old(leases), active, answers)
    {
      var channels := leases.Keys - active;
      while channels != {}
        invariant channels !! active
        invariant IdleFinished(leases, active, answers) == IdleFinished(old(leases), active, answers)
        invariant forall ch :: ch in leases && ch !in active && ch !in channels ==> !Releases(AnswerFor(answers, ch))
        decreases channels
      {
        var channel :| channel in channels;
        channels := channels - {channel};
        var _ := FinishChannel(channel, AnswerFor(answers, channel));
      }
      assert leases == IdleFinished(leases, active, answers);
    }
  }

  // --- one call as a function of the map ---------------------------------------------------

  datatype Settings = Settings(enabled: bool, classifyStaffControl: bool, hasContextFile: bool)

  function Claimed(gate: Settings, leases: Leases, batch: Batch, answers: ClaimAnswers): (Leases, Decision) {
    if !gate.enabled then (leases, Run(None))
    else if leases != map[] then (leases, Retry)
    else if !gate.hasContextFile || SourceIds(batch) == [] then (leases, Drop)
    else match Authorize(gate.classifyStaffControl, SourceIds(batch), answers)
      case Failure(error) => (leases, ErrorDecision(error))
      case Success(claim) =>
        (leases[batch.channelId := claim.turn], if answers.grantWritten then Run(Some(claim.scope)) else Retry)
  }

  function Finished(leases: Leases, channel: Uuid, answer: FinishAnswer): Leases {
    if channel in leases && Releases(answer) then leases - {channel} else leases
  }

  // Every lease goes whose channel is idle and whose own request releases it.
  function IdleFinished(leases: Leases, active: set<Uuid>, answers: map<Uuid, FinishAnswer>): Leases {
    map ch | ch in leases && (ch in active || !Releases(AnswerFor(answers, ch))) :: leases[ch]
  }

  // A control candidate leads to a claim only when classification is on, the candidate names
  // an event of the batch with a version that is not negative, and it could be classified.
  lemma CandidatesAreChecked(classify: bool, sources: seq<string>, answers: ClaimAnswers)
    requires answers.first.Success? && answers.first.value.controlCandidate.Some?
    ensures Authorize(classify, sources, answers).Success? <==>
      && classify && answers.classified
      && answers.first.value.controlCandidate.value.Candidate?
      && answers.first.value.controlCandidate.value.eventId in sources
      && answers.first.value.controlCandidate.value.controlVersion >= 0
      && answers.second.Success? && answers.second.value.claim.Some?
  {
  }

  // --- runs: one call at a time ---------------------------------------------------------------

  datatype Step =
    | ClaimStep(batch: Batch, claimAnswers: ClaimAnswers)
    | CheckStep(checked: Uuid)
    | FinishStep(channel: Uuid, answer: FinishAnswer)
    | FinishIdleStep(active: set<Uuid>, answers: map<Uuid, FinishAnswer>)

  function StepLeases(gate: Settings, leases: Leases, step: Step): Leases {
    match step
    case ClaimStep(batch, answers) => Claimed(gate, leases, batch, answers).0
    case CheckStep(_) => leases
    case FinishStep(channel, answer) => Finished(leases, channel, answer)
    case FinishIdleStep(active, answers) => IdleFinished(leases, active, answers)
  }

  function After(gate: Settings, steps: seq<Step>): Leases {
    if steps == [] then map[]
    else StepLeases(gate, After(gate, steps[..|steps| - 1]), steps[|steps| - 1])
  }

  // The step asks the server about the lease of `channel`, and the server lets it go.
  predicate Frees(step: Step, channel: Uuid) {
    || (step.FinishStep? && step.channel == channel && Releases(step.answer))
    || (step.FinishIdleStep? && channel !in step.active && Releases(AnswerFor(step.answers, channel)))
  }

  // A lease leaves the map exactly when the server lets that lease go; until then it is
  // neither dropped nor replaced.
  lemma LeaseLeavesExactly(gate: Settings, leases: Leases, step: Step, channel: Uuid)
    requires channel in leases
    ensures channel !in StepLeases(gate, leases, step) <==> Frees(step, channel)
    ensures !Frees(step, channel) ==> StepLeases(gate, leases, step)[channel] == leases[channel]
  {
    if step.ClaimStep? && gate.enabled {
      assert leases != map[] by {
        assert channel in leases;
      }
    }
  }

  // A lease enters only an empty map of an enabled gate, for the claimed channel, when the
  // server grants the claim.
  lemma LeaseEntersExactly(gate: Settings, leases: Leases, step: Step, channel: Uuid)
    requires channel !in leases
    ensures channel in StepLeases(gate, leases, step) <==>
      && step.ClaimStep? && step.batch.channelId == channel
      && gate.enabled && leases == map[] && gate.hasContextFile && SourceIds(step.batch) != []
      && Authorize(gate.classifyStaffControl, SourceIds(step.batch), step.claimAnswers).Success?
  {
  }

  // An enabled gate lets a turn run only from an empty map, and then the map holds the lease
  // of that turn and no other. A gate that is off lets everything run and keeps no lease.
  lemma RunHoldsTheOnlyLease(gate: Settings, leases: Leases, batch: Batch, answers: ClaimAnswers)
    requires Claimed(gate, leases, batch, answers).1.Run?
    ensures gate.enabled ==>
      && leases == map[]
      && Authorize(gate.classifyStaffControl, SourceIds(batch), answers).Success?
      && answers.grantWritten
      && (var claim := Authorize(gate.classifyStaffControl, SourceIds(batch), answers).value;
         && Claimed(gate, leases, batch, answers).0 == map[batch.channelId := claim.turn]
         && Claimed(gate, leases, batch, answers).1 == Run(Some(claim.scope)))
    ensures !gate.enabled ==> Claimed(gate, leases, batch, answers) == (leases, Run(None))
  {
  }

  // A batch is given up exactly when it can never be claimed: no grant file, nothing that
  // triggers a turn, or a refusal the server will not take back.
  lemma DropExactly(gate: Settings, leases: Leases, batch: Batch, answers: ClaimAnswers)
    ensures Claimed(gate, leases, batch, answers).1 == Drop <==>
      && gate.enabled && leases == map[]
      && (|| !gate.hasContextFile
          || (batch.events == [] && batch.cancelledEvents == [])
          || (var r := Authorize(gate.classifyStaffControl, SourceIds(batch), answers);
              r.Failure? && r.error.HttpResponse? && r.error.status in {400, 401, 403, 404, 410, 422}))
  {
    ClaimNamesEveryEventOnce(batch);
    if SourceIds(batch) != [] {
      assert SourceIds(batch)[0] in SourceIds(batch);
    }
  }

  // --- grants and releases over a run -----------------------------------------------------------

  datatype Entry = Granted(channel: Uuid, lease: Lease) | Released(channel: Uuid, lease: Lease)

  // What a step did to the map.
  ghost function Change(before: Leases, after: Leases): seq<Entry> {
    if after.Keys - before.Keys != {} then
      var ch :| ch in after.Keys - before.Keys; [Granted(ch, after[ch])]
    else if before.Keys - after.Keys != {} then
      var ch :| ch in before.Keys - after.Keys; [Released(ch, before[ch])]
    else []
  }

  ghost function History(gate: Settings, steps: seq<Step>): seq<Entry> {
    if steps == [] then []
    else
      History(gate, steps[..|steps| - 1]) + Change(After(gate, steps[..|steps| - 1]), After(gate, steps))
  }

  // Grants and releases take turns, and each release gives back the lease granted just before.
  ghost predicate TakesTurns(history: seq<Entry>) {
    forall i :: 0 <= i < |history| ==> Follows(history[..i], history[i])
  }

  ghost predicate Follows(history: seq<Entry>, e: Entry) {
    if |history| % 2 == 0 then e.Granted?
    else e == Released(history[|history| - 1].channel, history[|history| - 1].lease)
  }

  ghost function Held(history: seq<Entry>): Leases {
    if |history| % 2 == 0 then map[]
    else map[history[|history| - 1].channel := history[|history| - 1].lease]
  }

  lemma TurnTaken(history: seq<Entry>, e: Entry)
    requires TakesTurns(history) && Follows(history, e)
    ensures TakesTurns(history + [e])
    ensures Held(history + [e]) == if |history| % 2 == 0 then map[e.channel := e.lease] else map[]
  {
    var h := history + [e];
    assert TakesTurns(h) by {
      hide Follows;
      forall i | 0 <= i < |h|
        ensures Follows(h[..i], h[i])
      {
        if i < |history| {
          assert h[..i] == history[..i] && h[i] == history[i];
        } else {
          assert h[..i] == history && h[i] == e;
        }
      }
    }
  }

  lemma HeldStep(gate: Settings, leases: Leases, step: Step, history: seq<Entry>)
    requires TakesTurns(history) && leases == Held(history)
    ensures TakesTurns(history + Change(leases, StepLeases(gate, leases, step)))
    ensures StepLeases(gate, leases, step) == Held(history + Change(leases, StepLeases(gate, leases, step)))
  {
    var after := StepLeases(gate, leases, step);
    var change := Change(leases, after);
    if |history| % 2 == 0 {
      StepFromEmpty(gate, step);
    } else {
      StepFromOne(gate, step, history[|history| - 1].channel, history[|history| - 1].lease);
    }
    if change == [] {
      assert history + change == history;
    } else {
      TurnTaken(history, change[0]);
    }
  }

  lemma StepFromEmpty(gate: Settings, step: Step)
    ensures var after := StepLeases(gate, map[], step);
      || (after == map[] && Change(map[], after) == [])
      || exists ch, lease :: after == map[ch := lease] && Change(map[], after) == [Granted(ch, lease)]
  {
    var after := StepLeases(gate, map[], step);
    if after != map[] {
      var ch := step.batch.channelId;
      assert after == map[ch := after[ch]];
      assert after.Keys == {ch};
    }
  }

  lemma StepFromOne(gate: Settings, step: Step, ch: Uuid, lease: Lease)
    ensures var after := StepLeases(gate, map[ch := lease], step);
      || (after == map[ch := lease] && Change(map[ch := lease], after) == [])
      || (after == map[] && Change(map[ch := lease], after) == [Released(ch, lease)])
  {
    var before := map[ch := lease];
    var after := StepLeases(gate, before, step);
    assert ch in before;
    LeaseLeavesExactly(gate, before, step, ch);
    forall other | other != ch
      ensures other !in after
    {
      LeaseEntersExactly(gate, before, step, other);
    }
    if Frees(step, ch) {
      assert after == map[];
      assert before.Keys - after.Keys == {ch};
    } else {
      assert after == before;
    }
  }

  // Over every run at most one lease is held: the one granted last and not yet released.
  lemma {:induction false} OneLeaseAtATime(gate: Settings, steps: seq<Step>)
    ensures TakesTurns(History(gate, steps))
    ensures After(gate, steps) == Held(History(gate, steps))
    ensures |After(gate, steps)| <= 1
  {
    if steps != [] {
      var before := steps[..|steps| - 1];
      OneLeaseAtATime(gate, before);
      HeldStep(gate, After(gate, before), steps[|steps| - 1], History(gate, before));
    }
  }

  // A lease is held, unchanged, until the server lets it go.
  lemma {:induction false} HeldUntilFreed(gate: Settings, first: seq<Step>, between: seq<Step>, channel: Uuid)
    requires channel in After(gate, first)
    requires forall i :: 0 <= i < |between| ==> !Frees(between[i], channel)
    ensures channel in After(gate, first + between)
    ensures After(gate, first + between)[channel] == After(gate, first)[channel]
  {
    if between == [] {
      assert first + between == first;
    } else {
      var last := |between| - 1;
      assert (first + between)[..|first| + last] == first + between[..last];
      HeldUntilFreed(gate, first, between[..last], channel);
      LeaseLeavesExactly(gate, After(gate, first + between[..last]), between[last], channel);
    }
  }

  // Between two turns an enabled gate lets run, the server let the lease of the first go.
  lemma NoSecondTurnBeforeRelease(gate: Settings, first: seq<Step>, between: seq<Step>, batch: Batch, answers: ClaimAnswers, channel: Uuid)
    requires gate.enabled && channel in After(gate, first)
    requires Claimed(gate, After(gate, first + between), batch, answers).1.Run?
    ensures exists i :: 0 <= i < |between| && Frees(between[i], channel)
  {
    if forall i :: 0 <= i < |between| ==> !Frees(between[i], channel) {
      HeldUntilFreed(gate, first, between, channel);
      RunHoldsTheOnlyLease(gate, After(gate, first + between), batch, answers);
    }
  }

  // --- what the server's answers mean, in figures -------------------------------------------

  // Without a control candidate the first reply is the claim, or the reason there is none.
  lemma PlainClaims(classify: bool, sources: seq<string>, answers: ClaimAnswers)
    requires answers.first.Success? ==> answers.first.value.controlCandidate == None
    ensures var claim := Authorize(classify, sources, answers);
      && (forall error :: answers.first == Failure(error) ==> claim == Failure(error))
      && (answers.first.Success? && answers.first.value.claim == None ==> claim == Failure(OtherError))
      && (forall c | answers.first.Success? && answers.first.value.claim == Some(c) :: claim == Success(c))
  {
  }

  // With one, every way it can fail, in order, and what the second reply then says.
  lemma CandidateClaims(classify: bool, sources: seq<string>, answers: ClaimAnswers, candidate: Candidate)
    requires answers.first.Success? && answers.first.value.controlCandidate == Some(candidate)
    ensures var claim := Authorize(classify, sources, answers);
      && (!classify ==> claim == Failure(HttpResponse(422)))
      && (classify && candidate == Unreadable ==> claim == Failure(OtherError))
      && (forall id, version | classify && candidate == Candidate.Candidate(id, version) ::
            if id !in sources || version < 0 then claim == Failure(HttpResponse(422))
            else if !answers.classified then claim == Failure(OtherError)
            else
              && (forall error :: answers.second == Failure(error) ==> claim == Failure(error))
              && (answers.second.Success? && answers.second.value.claim == None ==> claim == Failure(OtherError))
              && (forall c | answers.second.Success? && answers.second.value.claim == Some(c) :: claim == Success(c)))
  {
  }

  // Which answers to a finish request release the lease, and after which the input has to
  // be dispatched again.
  lemma FinishAnswersExactly(answer: FinishAnswer)
    ensures Releases(answer) <==>
      answer in {Success(Some("completed")), Success(Some("cancelled")), Success(Some("failed")),
                 Failure(HttpResponse(403)), Failure(HttpResponse(404)), Failure(HttpResponse(409))}
    ensures Redispatches(answer) <==>
      answer !in {Success(Some("completed")), Success(Some("cancelled")), Failure(HttpResponse(404))}
  {
  }

  // A batch is kept for another try exactly while a lease is held, when the server could
  // not be asked or may answer otherwise later, and when the grant could not be written.
  lemma RetryExactly(gate: Settings, leases: Leases, batch: Batch, answers: ClaimAnswers)
    ensures Claimed(gate, leases, batch, answers).1 == Retry <==>
      && gate.enabled
      && (|| leases != map[]
          || (&& gate.hasContextFile && (batch.events != [] || batch.cancelledEvents != [])
              && match Authorize(gate.classifyStaffControl, SourceIds(batch), answers)
                 case Success(_) => !answers.grantWritten
                 case Failure(OtherError) => true
                 case Failure(HttpResponse(status)) => status !in {400, 401, 403, 404, 410, 422}))
  {
    ClaimNamesEveryEventOnce(batch);
    if SourceIds(batch) != [] {
      assert SourceIds(batch)[0] in SourceIds(batch);
    }
  }
}
