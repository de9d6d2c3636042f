// The Welcome route gate: which agent of a team answers an event.
//
// `evaluate` waits for the server in the middle, so several evaluations can be
// under way at once.  It is modelled as phases: what happens up to the first
// wait, when the manifest arrives, and when the route claim arrives.
module WelcomeRoute {
  import opened Wrappers

  datatype Role = Fizz | Administrator | Analyst | ContentMarketer | ParentAdministrator
  {
    function AsStr(): string {
      match this
      case Fizz => "fizz"
      case Administrator => "administrator"
      case Analyst => "analyst"
      case ContentMarketer => "content_marketer"
      case ParentAdministrator => "parent_administrator"
    }
  }

  function LowerChar(c: char): char {
    if 'A' <= c <= 'Z' then (c as int + 32) as char else c
  }

  function Lower(s: string): string {
    seq(|s|, i requires 0 <= i < |s| => LowerChar(s[i]))
  }

  // Equality ignoring ASCII case.
  predicate SameText(a: string, b: string) {
    Lower(a) == Lower(b)
  }

  const AGENT_TASK_KIND := 21021

  datatype Event = Event(id: string, kind: nat, pubkey: string, tags: seq<seq<string>>, channelId: string)

  predicate TagIs(tag: seq<string>, name: string, value: Option<string>) {
    && |tag| > 0 && tag[0] == name
    && (value.Some? ==> |tag| > 1 && SameText(tag[1], value.value))
  }

  predicate HasTag(event: Event, name: string, value: Option<string>) {
    exists tag | tag in event.tags :: TagIs(tag, name, value)
  }

  predicate IsKickoff(event: Event) {
    event.kind == AGENT_TASK_KIND && HasTag(event, "airhop-task", None) && HasTag(event, "airhop-kickoff-stage", None)
  }

  predicate IsHandoff(event: Event) {
    !IsKickoff(event) && HasTag(event, "airhop-handoff", None)
  }

  datatype Decision = Decision(
    eventId: string, channelId: string, targetRole: Role, targetPubkey: string, communicationConfigured: bool)

  datatype Manifest = Manifest(channelId: string, members: map<Role, string>)

  // A server answer, or any transport or decoding error.
  datatype Reply<+T> = Answer(value: T) | NoAnswer

  datatype Verdict = Accept | AcceptConfigured | Drop | DropDuplicate | Bypass
  {
    predicate Accepts() {
      Accept? || AcceptConfigured?
    }
  }

  datatype Purpose = Kickoff | Handoff

  datatype Phase =
    | Finished(verdict: Verdict)
    | AwaitManifest(event: Event, purpose: Purpose)
    | AwaitClaim(event: Event)

  // Keys are stored lower-case.
  datatype Config = Config(
    enabled: bool,
    flatChannels: set<string>,
    role: Option<Role>,
    agentPubkey: string,
    ownerPubkey: Option<string>)
  {
    predicate MatchesMember(manifest: Manifest, channelId: string) {
      && role.Some?
      && manifest.channelId == channelId
      && role.value in manifest.members
      && SameText(manifest.members[role.value], agentPubkey)
    }

    predicate AddressedToMe(event: Event) {
      HasTag(event, "p", Some(agentPubkey)) && HasTag(event, "h", Some(event.channelId))
    }

    // What a kickoff or handoff must show before the manifest is consulted.
    predicate Plausible(event: Event, purpose: Purpose) {
      && AddressedToMe(event)
      && match purpose
         case Kickoff => ownerPubkey.Some? && SameText(event.pubkey, ownerPubkey.value)
         case Handoff => role.Some? && HasTag(event, "airhop-handoff", Some(role.value.AsStr()))
    }

    // What the manifest must say.
    predicate Registered(manifest: Manifest, event: Event, purpose: Purpose) {
      && MatchesMember(manifest, event.channelId)
      && (purpose.Handoff? ==> Fizz in manifest.members && SameText(event.pubkey, manifest.members[Fizz]))
    }

    predicate ClaimIsMine(event: Event, decision: Decision) {
      && SameText(decision.eventId, event.id)
      && decision.channelId == event.channelId
      && SameText(decision.targetPubkey, agentPubkey)
      && role == Some(decision.targetRole)
    }
  }

  datatype GateState = GateState(seen: set<string>, manifest: Option<Manifest>)
  {
    function AcceptOnce(id: string): (GateState, Verdict) {
      if id in seen then (this, DropDuplicate) else (this.(seen := seen + {id}), Accept)
    }

    function WithManifest(config: Config, event: Event, purpose: Purpose, registered: Manifest): (GateState, Phase) {
      if !config.Registered(registered, event, purpose) then (this, Finished(Drop))
      else if purpose == Handoff then (this, AwaitClaim(event))
      else var (next, verdict) := AcceptOnce(event.id); (next, Finished(verdict))
    }

    function Begin(config: Config, event: Event): (GateState, Phase) {
      if !config.enabled || config.role == Some(ParentAdministrator) then (this, Finished(Bypass))
      else if event.id in seen then (this, Finished(DropDuplicate))
      else if !IsKickoff(event) && !IsHandoff(event) then (this, AwaitClaim(event))
      else
        var purpose := if IsKickoff(event) then Kickoff else Handoff;
        if event.channelId !in config.flatChannels || !config.Plausible(event, purpose) then (this, Finished(Drop))
        else if manifest.None? then (this, AwaitManifest(event, purpose))
        else WithManifest(config, event, purpose, manifest.value)
    }

    function OnManifest(config: Config, event: Event, purpose: Purpose, reply: Reply<Manifest>): (GateState, Phase) {
      if reply.NoAnswer? then (this, Finished(Drop))
      else this.(manifest := Some(reply.value)).WithManifest(config, event, purpose, reply.value)
    }

    function OnClaim(config: Config, event: Event, reply: Reply<Decision>): (GateState, Phase) {
      if reply.NoAnswer? || !config.ClaimIsMine(event, reply.value) then (this, Finished(Drop))
      else
        var (next, verdict) := AcceptOnce(event.id);
        (next,
         Finished(if verdict.Accept? && reply.value.communicationConfigured then AcceptConfigured else verdict))
    }
  }

  // ---------- the gate object ----------

  class WelcomeRouteGate {
    const config: Config
    var seen: set<string>
    var manifest: Option<Manifest>

    ghost function View(): GateState
      reads this
    {
      GateState(seen, manifest)
    }

    constructor (
      enabled: bool, flatChannels: set<string>, role: Option<Role>, agentPubkey: string, ownerPubkey: Option<string>)
      ensures View() == GateState({}, None)
      ensures config == Config(enabled, flatChannels, role, Lower(agentPubkey),
                               if ownerPubkey.Some? then Some(Lower(ownerPubkey.value)) else None)
    {
      config := Config(enabled, flatChannels, role, Lower(agentPubkey),
                       if ownerPubkey.Some? then Some(Lower(ownerPubkey.value)) else None);
      seen := {};
      manifest := None;
    }

    method AcceptOnce(id: string) returns (verdict: Verdict)
      modifies this
      ensures (View(), verdict) == old(View()).AcceptOnce(id)
    {
      if id in seen {
        return DropDuplicate;
      }
      seen := seen + {id};
      return Accept;
    }

    method Begin(event: Event) returns (phase: Phase)
      modifies this
      ensures (View(), phase) == old(View()).Begin(config, event)
    {
      if !config.enabled || config.role == Some(ParentAdministrator) {
        return Finished(Bypass);
      }
      if event.id in seen {
        return Finished(DropDuplicate);
      }
      var purpose: Purpose;
      if IsKickoff(event) {
        purpose := Kickoff;
      } else if HasTag(event, "airhop-handoff", None) {
        purpose := Handoff;
      } else {
        return AwaitClaim(event);
      }
      if event.channelId !in config.flatChannels {
        return Finished(Drop);
      }
      if !config.Plausible(event, purpose) {
        return Finished(Drop);
      }
      if manifest.None? {
        return AwaitManifest(event, purpose);
      }
      phase := Decide(event, purpose, manifest.value);
    }

    method Decide(event: Event, purpose: Purpose, registered: Manifest) returns (phase: Phase)
      modifies this
      ensures (View(), phase) == old(View()).WithManifest(config, event, purpose, registered)
    {
      if !config.Registered(registered, event, purpose) {
        return Finished(Drop);
      }
      if purpose == Handoff {
        return AwaitClaim(event);
      }
      var verdict := AcceptOnce(event.id);
      return Finished(verdict);
    }

    method ManifestArrived(event: Event, purpose: Purpose, reply: Reply<Manifest>) returns (phase: Phase)
      modifies this
      ensures (View(), phase) == old(View()).OnManifest(config, event, purpose, reply)
    {
      if reply.NoAnswer? {
        return Finished(Drop);
      }
      manifest := Some(reply.value);
      phase := Decide(event, purpose, reply.value);
    }

    method ClaimArrived(event: Event, reply: Reply<Decision>) returns (phase: Phase)
      modifies this
      ensures (View(), phase) == old(View()).OnClaim(config, event, reply)
    {
      if reply.NoAnswer? {
        return Finished(Drop);
      }
      var decision := reply.value;
      if !SameText(decision.eventId, event.id) || decision.channelId != event.channelId {
        return Finished(Drop);
      }
      if !SameText(decision.targetPubkey, config.agentPubkey) || config.role != Some(decision.targetRole) {
        return Finished(Drop);
      }
      var verdict := AcceptOnce(event.id);
      if verdict == Accept && decision.communicationConfigured {
        verdict := AcceptConfigured;
      }
      return Finished(verdict);
    }
  }

  // ---------- a team of gates, interleaved ----------

  datatype Task = Task(gate: nat, phase: Phase)

  // An accepted event: by which gate, and whether a route claim decided it.
  datatype Acceptance = Acceptance(gate: nat, event: Event, byClaim: bool)

  datatype Team = Team(gates: seq<GateState>, tasks: seq<Task>, accepted: seq<Acceptance>)

  datatype Move =
    | Evaluate(gate: nat, event: Event)
    | ManifestArrives(task: nat, manifest: Reply<Manifest>)
    | ClaimArrives(task: nat, claim: Reply<Decision>)

  ghost function Log(phase: Phase, gate: nat, event: Event, byClaim: bool): seq<Acceptance> {
    if phase.Finished? && phase.verdict.Accepts() then [Acceptance(gate, event, byClaim)] else []
  }

  // One move of some evaluation.  Moves that do not fit the state change nothing.
  ghost function Next(configs: seq<Config>, team: Team, move: Move): Team
    requires |team.gates| == |configs|
  {
    match move
    case Evaluate(g, event) =>
      if g >= |configs| then team
      else
        var (gate, phase) := team.gates[g].Begin(configs[g], event);
        Team(team.gates[g := gate], team.tasks + [Task(g, phase)], team.accepted + Log(phase, g, event, false))
    case ManifestArrives(k, reply) =>
      if k >= |team.tasks| || !team.tasks[k].phase.AwaitManifest? || team.tasks[k].gate >= |configs| then team
      else
        var g, p := team.tasks[k].gate, team.tasks[k].phase;
        var (gate, phase) := team.gates[g].OnManifest(configs[g], p.event, p.purpose, reply);
        Team(team.gates[g := gate], team.tasks[k := Task(g, phase)], team.accepted + Log(phase, g, p.event, false))
    case ClaimArrives(k, reply) =>
      if k >= |team.tasks| || !team.tasks[k].phase.AwaitClaim? || team.tasks[k].gate >= |configs| then team
      else
        var g, p := team.tasks[k].gate, team.tasks[k].phase;
        var (gate, phase) := team.gates[g].OnClaim(configs[g], p.event, reply);
        Team(team.gates[g := gate], team.tasks[k := Task(g, phase)], team.accepted + Log(phase, g, p.event, true))
  }

  ghost function Play(configs: seq<Config>, moves: seq<Move>): (team: Team)
    ensures |team.gates| == |configs|
  {
    if moves == [] then Team(seq(|configs|, _ => GateState({}, None)), [], [])
    else Next(configs, Play(configs, moves[..|moves| - 1]), moves[|moves| - 1])
  }

  // The server answers a claim for one event id with one target key.
  ghost predicate ClaimsConsistent(configs: seq<Config>, moves: seq<Move>, target: string -> string) {
    forall i | 0 <= i < |moves| :: NamesTarget(Play(configs, moves[..i]), moves[i], target)
  }

  ghost predicate NamesTarget(team: Team, move: Move, target: string -> string) {
    match move
    case ClaimArrives(k, Answer(decision)) =>
      k < |team.tasks| && team.tasks[k].phase.AwaitClaim? ==>
        Lower(decision.targetPubkey) == target(team.tasks[k].phase.event.id)
    case _ => true
  }

  ghost predicate DistinctKeys(configs: seq<Config>) {
    && (forall i | 0 <= i < |configs| :: Lower(configs[i].agentPubkey) == configs[i].agentPubkey)
    && (forall i, j | 0 <= i < j < |configs| :: configs[i].agentPubkey != configs[j].agentPubkey)
  }

  // What a gate's step may do: record at most one new event, exactly when it accepts it.
  ghost predicate GateStep(before: GateState, after: GateState, phase: Phase, event: Event) {
    && after.seen == before.seen + (if phase.Finished? && phase.verdict.Accepts() then {event.id} else {})
    && (phase.Finished? && phase.verdict.Accepts() ==> event.id !in before.seen)
    && (phase.AwaitManifest? || phase.AwaitClaim? ==> phase.event == event)
  }

  // ---------- at most one responder ----------

  ghost predicate EntryCounted(configs: seq<Config>, team: Team, target: string -> string, a: Acceptance)
    requires |team.gates| == |configs|
  {
    && a.gate < |configs|
    && a.event.id in team.gates[a.gate].seen
    && (a.byClaim ==> configs[a.gate].agentPubkey == target(a.event.id))
  }

  ghost predicate Single(configs: seq<Config>, team: Team, target: string -> string) {
    && |team.gates| == |configs|
    && (forall a | a in team.accepted :: EntryCounted(configs, team, target, a))
    && (forall i, j | 0 <= i < j < |team.accepted| ::
          team.accepted[i].gate == team.accepted[j].gate ==> team.accepted[i].event.id != team.accepted[j].event.id)
  }

  lemma BeginRecords(config: Config, gate: GateState, event: Event)
    ensures var (after, phase) := gate.Begin(config, event); GateStep(gate, after, phase, event)
  {
  }

  lemma ManifestRecords(config: Config, gate: GateState, event: Event, purpose: Purpose, reply: Reply<Manifest>)
    ensures var (after, phase) := gate.OnManifest(config, event, purpose, reply); GateStep(gate, after, phase, event)
  {
  }

  // A claimed event is accepted exactly when the decision is this gate's and the event is new.
  lemma ClaimStep(config: Config, gate: GateState, event: Event, reply: Reply<Decision>)
    ensures var (after, phase) := gate.OnClaim(config, event, reply);
            && GateStep(gate, after, phase, event)
            && phase.Finished? && after.manifest == gate.manifest
            && (phase.verdict.Accepts() <==>
                  reply.Answer? && config.ClaimIsMine(event, reply.value) && event.id !in gate.seen)
            && (phase.verdict == AcceptConfigured <==>
                  phase.verdict.Accepts() && reply.value.communicationConfigured)
  {
  }

  // Extending a team by one gate step.
  lemma ExtendSingle(
    configs: seq<Config>, team: Team, target: string -> string,
    g: nat, after: GateState, phase: Phase, event: Event, byClaim: bool, tasks: seq<Task>)
    requires Single(configs, team, target) && g < |configs|
    requires GateStep(team.gates[g], after, phase, event)
    requires byClaim && phase.Finished? && phase.verdict.Accepts() ==> configs[g].agentPubkey == target(event.id)
    ensures Single(configs, Team(team.gates[g := after], tasks, team.accepted + Log(phase, g, event, byClaim)), target)
  {
    var next := Team(team.gates[g := after], tasks, team.accepted + Log(phase, g, event, byClaim));
    forall a | a in next.accepted
      ensures EntryCounted(configs, next, target, a)
    {
      if a in team.accepted {
        assert EntryCounted(configs, team, target, a);
      }
    }
    forall i, j | 0 <= i < j < |next.accepted| && next.accepted[i].gate == next.accepted[j].gate
      ensures next.accepted[i].event.id != next.accepted[j].event.id
    {
      assert next.accepted[i] in team.accepted;
      assert EntryCounted(configs, team, target, team.accepted[i]);
    }
  }

  lemma MoveIsSingle(configs: seq<Config>, team: Team, move: Move, target: string -> string)
    requires DistinctKeys(configs) && Single(configs, team, target) && NamesTarget(team, move, target)
    ensures Single(configs, Next(configs, team, move), target)
  {
    match move
    case Evaluate(g, event) =>
      if g < |configs| {
        var (gate, phase) := team.gates[g].Begin(configs[g], event);
        BeginRecords(configs[g], team.gates[g], event);
        ExtendSingle(configs, team, target, g, gate, phase, event, false, team.tasks + [Task(g, phase)]);
      }
    case ManifestArrives(k, reply) =>
      if k < |team.tasks| && team.tasks[k].phase.AwaitManifest? && team.tasks[k].gate < |configs| {
        var g, p := team.tasks[k].gate, team.tasks[k].phase;
        var (gate, phase) := team.gates[g].OnManifest(configs[g], p.event, p.purpose, reply);
        ManifestRecords(configs[g], team.gates[g], p.event, p.purpose, reply);
        ExtendSingle(configs, team, target, g, gate, phase, p.event, false, team.tasks[k := Task(g, phase)]);
      }
    case ClaimArrives(k, reply) =>
      if k < |team.tasks| && team.tasks[k].phase.AwaitClaim? && team.tasks[k].gate < |configs| {
        var g, p := team.tasks[k].gate, team.tasks[k].phase;
        var (gate, phase) := team.gates[g].OnClaim(configs[g], p.event, reply);
        ClaimStep(configs[g], team.gates[g], p.event, reply);
        ExtendSingle(configs, team, target, g, gate, phase, p.event, true, team.tasks[k := Task(g, phase)]);
      }
  }

  lemma {:induction false} PlayIsSingle(configs: seq<Config>, moves: seq<Move>, target: string -> string)
    requires DistinctKeys(configs) && ClaimsConsistent(configs, moves, target)
    ensures Single(configs, Play(configs, moves), target)
  {
    if moves != [] {
      var n := |moves| - 1;
      assert ClaimsConsistent(configs, moves[..n], target) by {
        assert forall i | 0 <= i < n :: moves[..n][..i] == moves[..i] && moves[..n][i] == moves[i];
      }
      PlayIsSingle(configs, moves[..n], target);
      MoveIsSingle(configs, Play(configs, moves[..n]), moves[n], target);
    }
  }

  // One responder.  However the evaluations of a team interleave, and whatever
  // manifests its gates are given, an event that a route claim decides is accepted
  // by at most one gate, the one the claim names, and there at most once; and no
  // gate accepts any event, kickoffs included, twice.
  lemma OneResponder(configs: seq<Config>, moves: seq<Move>, target: string -> string, i: nat, j: nat)
    requires DistinctKeys(configs) && ClaimsConsistent(configs, moves, target)
    requires i < j < |Play(configs, moves).accepted|
    ensures var accepted := Play(configs, moves).accepted;
            && (accepted[i].byClaim && accepted[j].byClaim ==> accepted[i].event.id != accepted[j].event.id)
            && (accepted[i].gate == accepted[j].gate ==> accepted[i].event.id != accepted[j].event.id)
            && accepted[i].gate < |configs|
            && (accepted[i].byClaim ==> configs[accepted[i].gate].agentPubkey == target(accepted[i].event.id))
  {
    PlayIsSingle(configs, moves, target);
    var team := Play(configs, moves);
    assert EntryCounted(configs, team, target, team.accepted[i]);
    assert EntryCounted(configs, team, target, team.accepted[j]);
  }

  // ---------- what was checked before accepting ----------

  // What the server told one gate so far.
  datatype Told = Told(manifests: set<Manifest>, decisions: set<Decision>)

  ghost function ToldTo(configs: seq<Config>, moves: seq<Move>, g: nat): Told {
    if moves == [] then Told({}, {})
    else
      var n := |moves| - 1;
      var tasks, before := Play(configs, moves[..n]).tasks, ToldTo(configs, moves[..n], g);
      match moves[n]
      case ManifestArrives(k, Answer(manifest)) =>
        if k < |tasks| && tasks[k].gate == g && tasks[k].phase.AwaitManifest?
        then before.(manifests := before.manifests + {manifest}) else before
      case ClaimArrives(k, Answer(decision)) =>
        if k < |tasks| && tasks[k].gate == g && tasks[k].phase.AwaitClaim?
        then before.(decisions := before.decisions + {decision}) else before
      case _ => before
  }

  ghost predicate RegisteredIn(config: Config, told: Told, event: Event, purpose: Purpose) {
    exists manifest | manifest in told.manifests :: config.Registered(manifest, event, purpose)
  }

  ghost predicate ClaimedIn(config: Config, told: Told, event: Event) {
    exists decision | decision in told.decisions :: config.ClaimIsMine(event, decision)
  }

  // What a kickoff or handoff has been checked for.
  ghost predicate Checked(config: Config, told: Told, event: Event, purpose: Purpose) {
    && event.channelId in config.flatChannels
    && config.Plausible(event, purpose)
    && RegisteredIn(config, told, event, purpose)
  }

  // What an accepted event has been checked for.
  ghost predicate Authorized(config: Config, told: Told, event: Event, byClaim: bool) {
    && config.enabled && config.role.Some? && config.role != Some(ParentAdministrator)
    && (byClaim <==> !IsKickoff(event))
    && (byClaim ==> ClaimedIn(config, told, event))
    && (IsKickoff(event) ==> Checked(config, told, event, Kickoff))
    && (IsHandoff(event) ==> Checked(config, told, event, Handoff))
  }

  // What an evaluation under way has been checked for.
  ghost predicate PhaseChecked(config: Config, told: Told, phase: Phase) {
    match phase
    case Finished(_) => true
    case AwaitManifest(event, purpose) =>
      && config.enabled && config.role != Some(ParentAdministrator)
      && (purpose == Kickoff <==> IsKickoff(event)) && (purpose == Handoff <==> IsHandoff(event))
      && event.channelId in config.flatChannels && config.Plausible(event, purpose)
    case AwaitClaim(event) =>
      && config.enabled && config.role != Some(ParentAdministrator) && !IsKickoff(event)
      && (IsHandoff(event) ==> Checked(config, told, event, Handoff))
  }

  ghost predicate GateChecked(gate: GateState, told: Told) {
    gate.manifest.Some? ==> gate.manifest.value in told.manifests
  }

  ghost predicate Vetted(configs: seq<Config>, team: Team, told: seq<Told>) {
    && |team.gates| == |configs| == |told|
    && (forall g | 0 <= g < |configs| :: GateChecked(team.gates[g], told[g]))
    && (forall task | task in team.tasks :: task.gate < |configs| && PhaseChecked(configs[task.gate], told[task.gate], task.phase))
    && (forall a | a in team.accepted :: a.gate < |configs| && Authorized(configs[a.gate], told[a.gate], a.event, a.byClaim))
  }

  lemma BeginIsChecked(config: Config, gate: GateState, event: Event, told: Told)
    requires GateChecked(gate, told)
    ensures var (after, phase) := gate.Begin(config, event);
            && GateChecked(after, told) && PhaseChecked(config, told, phase)
            && (phase.Finished? && phase.verdict.Accepts() ==> Authorized(config, told, event, false))
  {
    if gate.manifest.Some? && IsKickoff(event) {
      assert config.Registered(gate.manifest.value, event, Kickoff) ==> RegisteredIn(config, told, event, Kickoff);
    } else if gate.manifest.Some? {
      assert config.Registered(gate.manifest.value, event, Handoff) ==> RegisteredIn(config, told, event, Handoff);
    }
  }

  lemma ManifestIsChecked(
    config: Config, gate: GateState, event: Event, purpose: Purpose, reply: Reply<Manifest>, told: Told)
    requires PhaseChecked(config, told, AwaitManifest(event, purpose)) && GateChecked(gate, told)
    requires reply.Answer? ==> reply.value in told.manifests
    ensures var (after, phase) := gate.OnManifest(config, event, purpose, reply);
            && GateChecked(after, told) && PhaseChecked(config, told, phase)
            && (phase.Finished? && phase.verdict.Accepts() ==> Authorized(config, told, event, false))
  {
    if reply.Answer? {
      assert config.Registered(reply.value, event, purpose) ==> RegisteredIn(config, told, event, purpose);
    }
  }

  lemma ClaimIsChecked(config: Config, gate: GateState, event: Event, reply: Reply<Decision>, told: Told)
    requires PhaseChecked(config, told, AwaitClaim(event)) && GateChecked(gate, told)
    requires reply.Answer? ==> reply.value in told.decisions
    ensures var (after, phase) := gate.OnClaim(config, event, reply);
            && GateChecked(after, told) && PhaseChecked(config, told, phase)
            && (phase.Finished? && phase.verdict.Accepts() ==> Authorized(config, told, event, true))
  {
    ClaimStep(config, gate, event, reply);
  }

  // Being told more takes nothing back.
  ghost predicate ToldMore(told: Told, more: Told) {
    told.manifests <= more.manifests && told.decisions <= more.decisions
  }

  lemma StaysChecked(config: Config, told: Told, more: Told, phase: Phase)
    requires ToldMore(told, more) && PhaseChecked(config, told, phase)
    ensures PhaseChecked(config, more, phase)
  {
  }

  lemma StaysAuthorized(config: Config, told: Told, more: Told, event: Event, byClaim: bool)
    requires ToldMore(told, more) && Authorized(config, told, event, byClaim)
    ensures Authorized(config, more, event, byClaim)
  {
  }

  lemma VettedWithMore(configs: seq<Config>, team: Team, told: seq<Told>, more: seq<Told>)
    requires Vetted(configs, team, told) && |more| == |told|
    requires forall g | 0 <= g < |told| :: ToldMore(told[g], more[g])
    ensures Vetted(configs, team, more)
  {
    forall task | task in team.tasks
      ensures PhaseChecked(configs[task.gate], more[task.gate], task.phase)
    {
      StaysChecked(configs[task.gate], told[task.gate], more[task.gate], task.phase);
    }
    forall a | a in team.accepted
      ensures Authorized(configs[a.gate], more[a.gate], a.event, a.byClaim)
    {
      StaysAuthorized(configs[a.gate], told[a.gate], more[a.gate], a.event, a.byClaim);
    }
  }

  ghost function AllTold(configs: seq<Config>, moves: seq<Move>): seq<Told> {
    seq(|configs|, g requires 0 <= g < |configs| => ToldTo(configs, moves, g))
  }

  lemma MoveIsVetted(configs: seq<Config>, team: Team, move: Move, told: seq<Told>)
    requires Vetted(configs, team, told)
    requires match move
             case ManifestArrives(k, Answer(manifest)) =>
               k < |team.tasks| && team.tasks[k].phase.AwaitManifest? ==> manifest in told[team.tasks[k].gate].manifests
             case ClaimArrives(k, Answer(decision)) =>
               k < |team.tasks| && team.tasks[k].phase.AwaitClaim? ==> decision in told[team.tasks[k].gate].decisions
             case _ => true
    ensures Vetted(configs, Next(configs, team, move), told)
  {
    match move
    case Evaluate(g, event) =>
      if g < |configs| {
        BeginIsChecked(configs[g], team.gates[g], event, told[g]);
      }
    case ManifestArrives(k, reply) =>
      if k < |team.tasks| && team.tasks[k].phase.AwaitManifest? {
        var g, p := team.tasks[k].gate, team.tasks[k].phase;
        assert team.tasks[k] in team.tasks;
        ManifestIsChecked(configs[g], team.gates[g], p.event, p.purpose, reply, told[g]);
      }
    case ClaimArrives(k, reply) =>
      if k < |team.tasks| && team.tasks[k].phase.AwaitClaim? {
        var g, p := team.tasks[k].gate, team.tasks[k].phase;
        assert team.tasks[k] in team.tasks;
        ClaimIsChecked(configs[g], team.gates[g], p.event, reply, told[g]);
      }
  }

  lemma {:induction false} PlayIsVetted(configs: seq<Config>, moves: seq<Move>)
    ensures Vetted(configs, Play(configs, moves), AllTold(configs, moves))
  {
    if moves != [] {
      var n := |moves| - 1;
      PlayIsVetted(configs, moves[..n]);
      VettedWithMore(configs, Play(configs, moves[..n]), AllTold(configs, moves[..n]), AllTold(configs, moves));
      MoveIsVetted(configs, Play(configs, moves[..n]), moves[n], AllTold(configs, moves));
    }
  }

  // Whatever a gate accepts was authorized, in every run and under any server: a
  // kickoff comes from the owner, a handoff from the Fizz of a manifest the server
  // gave this gate, each addressed to this gate's member of that manifest in an
  // allowed channel; and everything but a kickoff was claimed for it.
  lemma OnlyAuthorizedEventsAreAccepted(configs: seq<Config>, moves: seq<Move>, a: Acceptance)
    requires a in Play(configs, moves).accepted
    ensures a.gate < |configs| && Authorized(configs[a.gate], ToldTo(configs, moves, a.gate), a.event, a.byClaim)
  {
    PlayIsVetted(configs, moves);
  }

  // A gate forgets nothing: an event it has accepted is a duplicate from then on.
  lemma {:induction false} AcceptedStaysSeen(configs: seq<Config>, moves: seq<Move>, i: nat, g: nat, event: Event)
    requires i <= |moves| && g < |configs|
    requires event.id in Play(configs, moves[..i]).gates[g].seen
    ensures event.id in Play(configs, moves).gates[g].seen
    ensures configs[g].enabled && configs[g].role != Some(ParentAdministrator) ==>
              Play(configs, moves).gates[g].Begin(configs[g], event).1 == Finished(DropDuplicate)
  {
    if i == |moves| {
      assert moves[..i] == moves;
    } else {
      var n := |moves| - 1;
      assert moves[..n][..i] == moves[..i];
      AcceptedStaysSeen(configs, moves[..n], i, g, event);
    }
  }
}
