// Which events a team of Welcome gates does answer: from the event's tags, the gate's
// settings and the server's answers alone, over every interleaving.
module WelcomeAnswers {
  import opened Wrappers
  import opened WelcomeRoute

  // ---------- texts and tags ----------

  ghost predicate SameLetter(a: char, b: char) {
    a == b || ('A' <= a <= 'Z' && b as int == a as int + 32) || ('A' <= b <= 'Z' && a as int == b as int + 32)
  }

  // Two texts are the same when they differ in the case of ASCII letters only.
  lemma SameTextExactly(a: string, b: string)
    ensures SameText(a, b) <==> |a| == |b| && forall i | 0 <= i < |a| :: SameLetter(a[i], b[i])
  {
    if SameText(a, b) {
      assert |Lower(a)| == |Lower(b)|;
      forall i | 0 <= i < |a|
        ensures SameLetter(a[i], b[i])
      {
        assert Lower(a)[i] == Lower(b)[i];
      }
    }
    if |a| == |b| && forall i | 0 <= i < |a| :: SameLetter(a[i], b[i]) {
      assert forall i | 0 <= i < |a| :: Lower(a)[i] == Lower(b)[i];
    }
  }

  ghost predicate Tagged(event: Event, name: string) {
    exists i | 0 <= i < |event.tags| :: |event.tags[i]| >= 1 && event.tags[i][0] == name
  }

  ghost predicate TaggedWith(event: Event, name: string, value: string) {
    exists i | 0 <= i < |event.tags| ::
      |event.tags[i]| >= 2 && event.tags[i][0] == name && SameText(event.tags[i][1], value)
  }

  lemma TagsExactly(event: Event, name: string, value: string)
    ensures HasTag(event, name, None) <==> Tagged(event, name)
    ensures HasTag(event, name, Some(value)) <==> TaggedWith(event, name, value)
  {
    if HasTag(event, name, None) {
      var tag :| tag in event.tags && TagIs(tag, name, None);
      var i :| 0 <= i < |event.tags| && event.tags[i] == tag;
    }
    if Tagged(event, name) {
      var i :| 0 <= i < |event.tags| && |event.tags[i]| >= 1 && event.tags[i][0] == name;
      assert TagIs(event.tags[i], name, None);
    }
    if HasTag(event, name, Some(value)) {
      var tag :| tag in event.tags && TagIs(tag, name, Some(value));
      var i :| 0 <= i < |event.tags| && event.tags[i] == tag;
    }
    if TaggedWith(event, name, value) {
      var i :| 0 <= i < |event.tags| && |event.tags[i]| >= 2 && event.tags[i][0] == name && SameText(event.tags[i][1], value);
      assert TagIs(event.tags[i], name, Some(value));
    }
  }

  ghost predicate Starts(event: Event) {
    event.kind == 21021 && Tagged(event, "airhop-task") && Tagged(event, "airhop-kickoff-stage")
  }

  ghost predicate HandsOver(event: Event) {
    !Starts(event) && Tagged(event, "airhop-handoff")
  }

  ghost predicate Ordinary(event: Event) {
    !Starts(event) && !Tagged(event, "airhop-handoff")
  }

  // ---------- what a gate demands ----------

  ghost predicate Works(config: Config) {
    config.enabled && config.role != Some(ParentAdministrator)
  }

  ghost predicate Addressed(config: Config, event: Event) {
    && event.channelId in config.flatChannels
    && TaggedWith(event, "p", config.agentPubkey)
    && TaggedWith(event, "h", event.channelId)
  }

  ghost predicate StartsMine(config: Config, event: Event) {
    && Addressed(config, event)
    && exists owner :: config.ownerPubkey == Some(owner) && SameText(event.pubkey, owner)
  }

  ghost predicate HandsOverToMe(config: Config, event: Event) {
    && Addressed(config, event)
    && config.role.Some?
    && (config.role == Some(Fizz) ==> TaggedWith(event, "airhop-handoff", "fizz"))
    && (config.role == Some(Administrator) ==> TaggedWith(event, "airhop-handoff", "administrator"))
    && (config.role == Some(Analyst) ==> TaggedWith(event, "airhop-handoff", "analyst"))
    && (config.role == Some(ContentMarketer) ==> TaggedWith(event, "airhop-handoff", "content_marketer"))
    && (config.role == Some(ParentAdministrator) ==> TaggedWith(event, "airhop-handoff", "parent_administrator"))
  }

  ghost predicate LeadsTo(manifest: Manifest, role: Role, pubkey: string) {
    role in manifest.members && SameText(pubkey, manifest.members[role])
  }

  ghost predicate IsMember(config: Config, manifest: Manifest, event: Event) {
    manifest.channelId == event.channelId
    && exists role :: config.role == Some(role) && LeadsTo(manifest, role, config.agentPubkey)
  }

  ghost predicate ForMe(config: Config, event: Event, decision: Decision) {
    && SameText(decision.eventId, event.id) && decision.channelId == event.channelId
    && SameText(decision.targetPubkey, config.agentPubkey) && config.role == Some(decision.targetRole)
  }

  // What an accepted kickoff or a claimable handoff needs of the manifest.
  ghost predicate Backed(config: Config, manifest: Manifest, event: Event) {
    IsMember(config, manifest, event) && (HandsOver(event) ==> LeadsTo(manifest, Fizz, event.pubkey))
  }

  ghost predicate Credible(config: Config, event: Event) {
    (Starts(event) ==> StartsMine(config, event)) && (HandsOver(event) ==> HandsOverToMe(config, event))
  }

  lemma DemandsExactly(config: Config, event: Event)
    ensures IsKickoff(event) <==> Starts(event)
    ensures IsHandoff(event) <==> HandsOver(event)
    ensures event.channelId in config.flatChannels && config.Plausible(event, Kickoff) <==> StartsMine(config, event)
    ensures event.channelId in config.flatChannels && config.Plausible(event, Handoff) <==> HandsOverToMe(config, event)
  {
    TagsExactly(event, "airhop-task", "");
    TagsExactly(event, "airhop-kickoff-stage", "");
    TagsExactly(event, "airhop-handoff", if config.role.Some? then config.role.value.AsStr() else "");
    TagsExactly(event, "p", config.agentPubkey);
    TagsExactly(event, "h", event.channelId);
  }

  lemma BackingExactly(config: Config, manifest: Manifest, event: Event, purpose: Purpose)
    requires (purpose == Kickoff <==> Starts(event)) && (purpose == Handoff <==> HandsOver(event))
    ensures config.Registered(manifest, event, purpose) <==> Backed(config, manifest, event)
  {
  }

  // ---------- the three moves of an evaluation ----------

  // What an evaluation comes to before it waits.
  lemma BeginsExactly(config: Config, gate: GateState, event: Event)
    ensures var (after, phase) := gate.Begin(config, event);
            && (!Works(config) ==> after == gate && phase == Finished(Bypass))
            && (Works(config) && event.id in gate.seen ==> after == gate && phase == Finished(DropDuplicate))
            && (Works(config) && event.id !in gate.seen ==>
                  && (Ordinary(event) ==> after == gate && phase == AwaitClaim(event))
                  && (!Credible(config, event) ==> after == gate && phase == Finished(Drop))
                  && (!Ordinary(event) && Credible(config, event) ==>
                        match gate.manifest
                        case None => after == gate && phase == AwaitManifest(event, if Starts(event) then Kickoff else Handoff)
                        case Some(manifest) =>
                          if !Backed(config, manifest, event) then after == gate && phase == Finished(Drop)
                          else if Starts(event) then
                            after == gate.(seen := gate.seen + {event.id}) && phase == Finished(Accept)
                          else after == gate && phase == AwaitClaim(event)))
  {
    DemandsExactly(config, event);
    if gate.manifest.Some? && !Ordinary(event) {
      BackingExactly(config, gate.manifest.value, event, if Starts(event) then Kickoff else Handoff);
    }
  }

  lemma ManifestExactly(config: Config, gate: GateState, event: Event, purpose: Purpose, reply: Reply<Manifest>)
    requires (purpose == Kickoff <==> Starts(event)) && (purpose == Handoff <==> HandsOver(event))
    ensures var (after, phase) := gate.OnManifest(config, event, purpose, reply);
            match reply
            case NoAnswer => after == gate && phase == Finished(Drop)
            case Answer(manifest) =>
              && after.manifest == Some(manifest)
              && (!Backed(config, manifest, event) ==> after.seen == gate.seen && phase == Finished(Drop))
              && (Backed(config, manifest, event) && HandsOver(event) ==> after.seen == gate.seen && phase == AwaitClaim(event))
              && (Backed(config, manifest, event) && Starts(event) ==>
                    && after.seen == gate.seen + {event.id}
                    && phase == Finished(if event.id in gate.seen then DropDuplicate else Accept))
  {
    if reply.Answer? {
      BackingExactly(config, reply.value, event, purpose);
    }
  }

  lemma ClaimExactly(config: Config, gate: GateState, event: Event, reply: Reply<Decision>)
    ensures var (after, phase) := gate.OnClaim(config, event, reply);
            && after.manifest == gate.manifest
            && (reply.NoAnswer? ==> after == gate && phase == Finished(Drop))
            && (reply.Answer? && !ForMe(config, event, reply.value) ==> after == gate && phase == Finished(Drop))
            && (reply.Answer? && ForMe(config, event, reply.value) ==>
                  && after.seen == gate.seen + {event.id}
                  && phase == Finished(if event.id in gate.seen then DropDuplicate
                                       else if reply.value.communicationConfigured then AcceptConfigured else Accept))
  {
  }

  // ---------- over a team's play ----------

  ghost predicate AcceptedBy(accepted: seq<Acceptance>, g: nat, id: string) {
    exists a | a in accepted :: a.gate == g && a.event.id == id
  }

  // What a gate has recorded is what it accepted.
  ghost predicate SeenIsAccepted(configs: seq<Config>, team: Team)
    requires |team.gates| == |configs|
  {
    && (forall g, id | 0 <= g < |configs| :: id in team.gates[g].seen <==> AcceptedBy(team.accepted, g, id))
    && (forall task | task in team.tasks :: task.gate < |configs|)
  }

  lemma LogRecords(
    configs: seq<Config>, team: Team, g: nat, after: GateState, phase: Phase, event: Event, byClaim: bool, tasks: seq<Task>)
    requires |team.gates| == |configs| && g < |configs| && SeenIsAccepted(configs, team)
    requires GateStep(team.gates[g], after, phase, event)
    requires forall task | task in tasks :: task.gate < |configs|
    ensures SeenIsAccepted(configs, Team(team.gates[g := after], tasks, team.accepted + Log(phase, g, event, byClaim)))
  {
    var log := Log(phase, g, event, byClaim);
    forall h, id | 0 <= h < |configs|
      ensures id in team.gates[g := after][h].seen <==> AcceptedBy(team.accepted + log, h, id)
    {
      LogAdds(team.accepted, phase, g, event, byClaim, h, id);
    }
  }

  lemma LogAdds(accepted: seq<Acceptance>, phase: Phase, g: nat, event: Event, byClaim: bool, h: nat, id: string)
    ensures AcceptedBy(accepted + Log(phase, g, event, byClaim), h, id) <==>
      AcceptedBy(accepted, h, id) || (phase.Finished? && phase.verdict.Accepts() && h == g && id == event.id)
  {
    var log := Log(phase, g, event, byClaim);
    if AcceptedBy(accepted, h, id) {
      var a :| a in accepted && a.gate == h && a.event.id == id;
      assert a in accepted + log;
    }
    if log != [] {
      assert log[0] in accepted + log;
    }
  }

  lemma MoveRecords(configs: seq<Config>, team: Team, move: Move)
    requires |team.gates| == |configs| && SeenIsAccepted(configs, team)
    ensures SeenIsAccepted(configs, Next(configs, team, move))
  {
    match move
    case Evaluate(g, event) =>
      if g < |configs| {
        var (gate, phase) := team.gates[g].Begin(configs[g], event);
        BeginRecords(configs[g], team.gates[g], event);
        LogRecords(configs, team, g, gate, phase, event, false, team.tasks + [Task(g, phase)]);
      }
    case ManifestArrives(k, reply) =>
      if k < |team.tasks| && team.tasks[k].phase.AwaitManifest? {
        assert team.tasks[k] in team.tasks;
        var g, p := team.tasks[k].gate, team.tasks[k].phase;
        var (gate, phase) := team.gates[g].OnManifest(configs[g], p.event, p.purpose, reply);
        ManifestRecords(configs[g], team.gates[g], p.event, p.purpose, reply);
        LogRecords(configs, team, g, gate, phase, p.event, false, team.tasks[k := Task(g, phase)]);
      }
    case ClaimArrives(k, reply) =>
      if k < |team.tasks| && team.tasks[k].phase.AwaitClaim? {
        assert team.tasks[k] in team.tasks;
        var g, p := team.tasks[k].gate, team.tasks[k].phase;
        var (gate, phase) := team.gates[g].OnClaim(configs[g], p.event, reply);
        ClaimStep(configs[g], team.gates[g], p.event, reply);
        LogRecords(configs, team, g, gate, phase, p.event, true, team.tasks[k := Task(g, phase)]);
      }
  }

  lemma {:induction false} PlayRecords(configs: seq<Config>, moves: seq<Move>)
    ensures SeenIsAccepted(configs, Play(configs, moves))
  {
    if moves != [] {
      var n := |moves| - 1;
      PlayRecords(configs, moves[..n]);
      MoveRecords(configs, Play(configs, moves[..n]), moves[n]);
    }
  }

  // No answer for the `k`-th evaluation is among the moves.
  ghost predicate Unanswered(moves: seq<Move>, k: nat) {
    forall i | 0 <= i < |moves| ::
      (moves[i].ManifestArrives? ==> moves[i].task != k) && (moves[i].ClaimArrives? ==> moves[i].task != k)
  }

  lemma OneMove(configs: seq<Config>, moves: seq<Move>, move: Move)
    ensures Play(configs, moves + [move]) == Next(configs, Play(configs, moves), move)
  {
    assert (moves + [move])[..|moves|] == moves;
  }

  lemma MoveKeepsTask(configs: seq<Config>, team: Team, move: Move, k: nat)
    requires |team.gates| == |configs| && k < |team.tasks|
    requires (move.ManifestArrives? ==> move.task != k) && (move.ClaimArrives? ==> move.task != k)
    ensures k < |Next(configs, team, move).tasks| && Next(configs, team, move).tasks[k] == team.tasks[k]
  {
  }

  // An evaluation waits for its own answer, whatever the others do.
  lemma {:induction false} EvaluationWaits(configs: seq<Config>, before: seq<Move>, between: seq<Move>, k: nat)
    requires k < |Play(configs, before).tasks| && Unanswered(between, k)
    ensures var team := Play(configs, before + between);
            k < |team.tasks| && team.tasks[k] == Play(configs, before).tasks[k]
  {
    hide Next;
    if between == [] {
      assert before + between == before;
    } else {
      var n := |between| - 1;
      assert before + between == (before + between[..n]) + [between[n]];
      EvaluationWaits(configs, before, between[..n], k);
      OneMove(configs, before + between[..n], between[n]);
      MoveKeepsTask(configs, Play(configs, before + between[..n]), between[n], k);
    }
  }

  lemma {:induction false} AcceptedStays(configs: seq<Config>, before: seq<Move>, more: seq<Move>, g: nat, id: string)
    requires AcceptedBy(Play(configs, before).accepted, g, id)
    ensures AcceptedBy(Play(configs, before + more).accepted, g, id)
  {
    if more == [] {
      assert before + more == before;
    } else {
      var n := |more| - 1;
      assert (before + more)[..|before| + n] == before + more[..n];
      AcceptedStays(configs, before, more[..n], g, id);
      var a :| a in Play(configs, before + more[..n]).accepted && a.gate == g && a.event.id == id;
      assert a in Play(configs, before + more).accepted;
    }
  }

  // The evaluation of an event waits for a claim: the claim then decides.
  lemma ClaimAnswers(configs: seq<Config>, moves: seq<Move>, k: nat, g: nat, event: Event, reply: Reply<Decision>)
    requires g < |configs| && k < |Play(configs, moves).tasks|
    requires Play(configs, moves).tasks[k] == Task(g, AwaitClaim(event))
    ensures AcceptedBy(Play(configs, moves + [ClaimArrives(k, reply)]).accepted, g, event.id) <==>
      || AcceptedBy(Play(configs, moves).accepted, g, event.id)
      || (reply.Answer? && ForMe(configs[g], event, reply.value))
  {
    var team := Play(configs, moves);
    OneMove(configs, moves, ClaimArrives(k, reply));
    PlayRecords(configs, moves);
    ClaimExactly(configs[g], team.gates[g], event, reply);
    LogAdds(team.accepted, team.gates[g].OnClaim(configs[g], event, reply).1, g, event, true, g, event.id);
  }

  // An ordinary event that a working gate evaluates is answered exactly when the server
  // decides for that gate: whatever the rest of the team does meanwhile, after the
  // decision arrives the gate has accepted the event if the decision is for it, and
  // otherwise only if it had accepted that event already.
  lemma OrdinaryIsAnswered(
    configs: seq<Config>, before: seq<Move>, between: seq<Move>, g: nat, event: Event, reply: Reply<Decision>)
    requires g < |configs| && Works(configs[g]) && Ordinary(event)
    requires !AcceptedBy(Play(configs, before).accepted, g, event.id)
    requires Unanswered(between, |Play(configs, before).tasks|)
    ensures var k := |Play(configs, before).tasks|;
            var waiting := before + [Evaluate(g, event)] + between;
            AcceptedBy(Play(configs, waiting + [ClaimArrives(k, reply)]).accepted, g, event.id) <==>
              || AcceptedBy(Play(configs, waiting).accepted, g, event.id)
              || (reply.Answer? && ForMe(configs[g], event, reply.value))
  {
    var team := Play(configs, before);
    var k := |team.tasks|;
    PlayRecords(configs, before);
    OneMove(configs, before, Evaluate(g, event));
    BeginsExactly(configs[g], team.gates[g], event);
    EvaluationWaits(configs, before + [Evaluate(g, event)], between, k);
    ClaimAnswers(configs, before + [Evaluate(g, event)] + between, k, g, event, reply);
  }

  // The gate holds no manifest: the one it is then given decides a kickoff, and
  // whether a handoff goes on to a claim.
  lemma ManifestAnswers(configs: seq<Config>, moves: seq<Move>, k: nat, g: nat, event: Event, reply: Reply<Manifest>)
    requires g < |configs| && k < |Play(configs, moves).tasks| && !Ordinary(event)
    requires Play(configs, moves).tasks[k] == Task(g, AwaitManifest(event, if Starts(event) then Kickoff else Handoff))
    ensures var team := Play(configs, moves + [ManifestArrives(k, reply)]);
            && (AcceptedBy(team.accepted, g, event.id) <==>
                  || AcceptedBy(Play(configs, moves).accepted, g, event.id)
                  || (Starts(event) && reply.Answer? && Backed(configs[g], reply.value, event)))
            && k < |team.tasks|
            && (team.tasks[k] == Task(g, AwaitClaim(event)) <==>
                  HandsOver(event) && reply.Answer? && Backed(configs[g], reply.value, event))
  {
    var team := Play(configs, moves);
    var purpose := if Starts(event) then Kickoff else Handoff;
    OneMove(configs, moves, ManifestArrives(k, reply));
    PlayRecords(configs, moves);
    ManifestExactly(configs[g], team.gates[g], event, purpose, reply);
    LogAdds(team.accepted, team.gates[g].OnManifest(configs[g], event, purpose, reply).1, g, event, false, g, event.id);
  }

  // A kickoff or handoff that a working gate evaluates for the first time: without a
  // manifest in hand it waits for one when it is credible; with one, a kickoff is
  // accepted, and a handoff goes on to a claim, exactly when it is credible and backed.
  lemma EvaluationAnswers(configs: seq<Config>, moves: seq<Move>, g: nat, event: Event)
    requires g < |configs| && Works(configs[g]) && !Ordinary(event)
    requires !AcceptedBy(Play(configs, moves).accepted, g, event.id)
    ensures var k := |Play(configs, moves).tasks|;
            var team := Play(configs, moves + [Evaluate(g, event)]);
            && k < |team.tasks|
            && match Play(configs, moves).gates[g].manifest
               case None =>
                 && !AcceptedBy(team.accepted, g, event.id)
                 && (team.tasks[k] == Task(g, AwaitManifest(event, if Starts(event) then Kickoff else Handoff)) <==>
                       Credible(configs[g], event))
               case Some(manifest) =>
                 && (AcceptedBy(team.accepted, g, event.id) <==>
                       Starts(event) && Credible(configs[g], event) && Backed(configs[g], manifest, event))
                 && (team.tasks[k] == Task(g, AwaitClaim(event)) <==>
                       HandsOver(event) && Credible(configs[g], event) && Backed(configs[g], manifest, event))
  {
    var team := Play(configs, moves);
    OneMove(configs, moves, Evaluate(g, event));
    PlayRecords(configs, moves);
    BeginsExactly(configs[g], team.gates[g], event);
    LogAdds(team.accepted, team.gates[g].Begin(configs[g], event).1, g, event, false, g, event.id);
  }

  // A kickoff evaluated by a gate without a manifest, whatever the team does until the
  // manifest arrives: accepted then exactly when it is credible and the manifest backs it.
  lemma KickoffIsAnswered(
    configs: seq<Config>, before: seq<Move>, between: seq<Move>, g: nat, event: Event, reply: Reply<Manifest>)
    requires g < |configs| && Works(configs[g]) && Starts(event) && Play(configs, before).gates[g].manifest.None?
    requires !AcceptedBy(Play(configs, before).accepted, g, event.id)
    requires Unanswered(between, |Play(configs, before).tasks|)
    ensures var k := |Play(configs, before).tasks|;
            var waiting := before + [Evaluate(g, event)] + between;
            AcceptedBy(Play(configs, waiting + [ManifestArrives(k, reply)]).accepted, g, event.id) <==>
              || AcceptedBy(Play(configs, waiting).accepted, g, event.id)
              || (Credible(configs[g], event) && reply.Answer? && Backed(configs[g], reply.value, event))
  {
    var k := |Play(configs, before).tasks|;
    var waiting := before + [Evaluate(g, event)] + between;
    EvaluationAnswers(configs, before, g, event);
    EvaluationWaits(configs, before + [Evaluate(g, event)], between, k);
    if Credible(configs[g], event) {
      ManifestAnswers(configs, waiting, k, g, event, reply);
    } else {
      PlayRecords(configs, before);
      OneMove(configs, before, Evaluate(g, event));
      BeginsExactly(configs[g], Play(configs, before).gates[g], event);
      OneMove(configs, waiting, ManifestArrives(k, reply));
    }
  }

  // A handoff evaluated by a gate without a manifest: accepted in the end exactly when
  // it is credible, the manifest backs it and the claim that follows decides for the gate.
  lemma HandoffIsAnswered(
    configs: seq<Config>, before: seq<Move>, first: seq<Move>, second: seq<Move>, g: nat, event: Event,
    manifest: Reply<Manifest>, claim: Reply<Decision>)
    requires g < |configs| && Works(configs[g]) && HandsOver(event) && Play(configs, before).gates[g].manifest.None?
    requires !AcceptedBy(Play(configs, before).accepted, g, event.id)
    requires Unanswered(first, |Play(configs, before).tasks|) && Unanswered(second, |Play(configs, before).tasks|)
    requires Credible(configs[g], event) && manifest.Answer? && Backed(configs[g], manifest.value, event)
    ensures var k := |Play(configs, before).tasks|;
            var waiting := before + [Evaluate(g, event)] + first + [ManifestArrives(k, manifest)] + second;
            AcceptedBy(Play(configs, waiting + [ClaimArrives(k, claim)]).accepted, g, event.id) <==>
              || AcceptedBy(Play(configs, waiting).accepted, g, event.id)
              || (claim.Answer? && ForMe(configs[g], event, claim.value))
  {
    var k := |Play(configs, before).tasks|;
    var asked := before + [Evaluate(g, event)] + first;
    EvaluationAnswers(configs, before, g, event);
    EvaluationWaits(configs, before + [Evaluate(g, event)], first, k);
    ManifestAnswers(configs, asked, k, g, event, manifest);
    EvaluationWaits(configs, asked + [ManifestArrives(k, manifest)], second, k);
    ClaimAnswers(configs, asked + [ManifestArrives(k, manifest)] + second, k, g, event, claim);
  }

  lemma SameKeySameGate(configs: seq<Config>, i: nat, j: nat)
    requires DistinctKeys(configs) && i < |configs| && j < |configs|
    ensures configs[i].agentPubkey == configs[j].agentPubkey ==> i == j
  {
  }

  // Exactly one responder: when the claims of each event name one key and the gate with
  // that key evaluates an ordinary event and is told so, that gate accepts it, and it is
  // the only gate that a claim ever lets accept it.
  lemma ExactlyOneResponder(
    configs: seq<Config>, before: seq<Move>, between: seq<Move>, after: seq<Move>, g: nat, event: Event, decision: Decision,
    target: string -> string)
    requires DistinctKeys(configs) && g < |configs| && Works(configs[g]) && Ordinary(event)
    requires !AcceptedBy(Play(configs, before).accepted, g, event.id)
    requires Unanswered(between, |Play(configs, before).tasks|) && ForMe(configs[g], event, decision)
    requires var moves := before + [Evaluate(g, event)] + between
                          + [ClaimArrives(|Play(configs, before).tasks|, Answer(decision))] + after;
             ClaimsConsistent(configs, moves, target) && configs[g].agentPubkey == target(event.id)
    ensures var moves := before + [Evaluate(g, event)] + between
                         + [ClaimArrives(|Play(configs, before).tasks|, Answer(decision))] + after;
            var accepted := Play(configs, moves).accepted;
            && AcceptedBy(accepted, g, event.id)
            && forall a | a in accepted && a.byClaim && a.event.id == event.id :: a.gate == g
  {
    var told := before + [Evaluate(g, event)] + between + [ClaimArrives(|Play(configs, before).tasks|, Answer(decision))];
    OrdinaryIsAnswered(configs, before, between, g, event, Answer(decision));
    AcceptedStays(configs, told, after, g, event.id);
    PlayIsSingle(configs, told + after, target);
    forall a | a in Play(configs, told + after).accepted && a.byClaim && a.event.id == event.id
      ensures a.gate == g
    {
      assert EntryCounted(configs, Play(configs, told + after), target, a);
      SameKeySameGate(configs, a.gate, g);
    }
  }
}
