// The filters the program asks the relay for (crates/buzz-acp/src/config.rs), against the
// events its matcher accepts.
module ChannelFilters {
  import opened Wrappers
  import opened Subscriptions
  import opened SubscriptionFilter

  const KIND_STREAM_MESSAGE: nat := 9
  const KIND_STREAM_REMINDER: nat := 40007
  const KIND_WORKFLOW_APPROVAL_REQUESTED: nat := 46010
  const DEFAULT_KINDS: seq<nat> := [KIND_STREAM_MESSAGE, KIND_WORKFLOW_APPROVAL_REQUESTED, KIND_STREAM_REMINDER]

  datatype SubscribeMode = Mentions | AllMessages | FromRules

  // `flatChannels` is a set; the sequence is the order in which it is walked.
  datatype Config = Config(
    subscribeMode: SubscribeMode,
    kindsOverride: Option<seq<nat>>,
    channelsOverride: Option<seq<ChannelText>>,
    noMentionFilter: bool,
    airhopRouteGate: bool,
    flatChannels: seq<ChannelId>)

  // `kinds` is None for every kind.
  datatype ChannelFilter = ChannelFilter(kinds: Option<seq<nat>>, requireMention: bool)
  {
    // What a relay delivers under the filter (NIP-01, "Communication between clients and relays").
    predicate Admits(event: Event, pubkey: string) {
      && (kinds.Some? ==> event.kind in kinds.value)
      && (requireMention ==> event.Mentions(pubkey))
    }
  }

  // --- merging the rules of a channel -----------------------------------------------

  function AddKinds(kinds: seq<nat>, more: seq<nat>): seq<nat>
    decreases |more|
  {
    if more == [] then kinds
    else AddKinds(if more[0] in kinds then kinds else kinds + [more[0]], more[1..])
  }

  datatype Merging = Merging(kinds: Option<seq<nat>>, requireMention: bool, hasRule: bool)

  const NOTHING_MERGED := Merging(Some([]), true, false)

  function MergeRule(m: Merging, rule: Rule, channel: ChannelId): Merging {
    if !rule.channels.AppliesTo(channel) then m
    else Merging(
      if rule.kinds == [] then None else if m.kinds.None? then None else Some(AddKinds(m.kinds.value, rule.kinds)),
      m.requireMention && rule.requireMention,
      true)
  }

  function MergeRules(m: Merging, rules: seq<Rule>, channel: ChannelId): Merging
    decreases |rules|
  {
    if rules == [] then m else MergeRules(MergeRule(m, rules[0], channel), rules[1..], channel)
  }

  function Merge(rules: seq<Rule>, channel: ChannelId): Option<ChannelFilter> {
    var m := MergeRules(NOTHING_MERGED, rules, channel);
    if m.hasRule then Some(ChannelFilter(m.kinds, m.requireMention)) else None
  }

  // --- the filter a channel should get -------------------------------------------------

  predicate Names(texts: seq<ChannelText>, channel: ChannelId) {
    exists i :: 0 <= i < |texts| && texts[i].Parse() == Some(channel)
  }

  function Wanted(config: Config, rules: seq<Rule>, channel: ChannelId): Option<ChannelFilter> {
    if config.subscribeMode == FromRules then Merge(rules, channel)
    else if config.channelsOverride.Some? && !Names(config.channelsOverride.value, channel) then None
    else if config.subscribeMode == AllMessages then Some(ChannelFilter(config.kindsOverride, false))
    else Some(ChannelFilter(
      Some(config.kindsOverride.GetOr(DEFAULT_KINDS)),
      !config.noMentionFilter && !(config.airhopRouteGate && channel in config.flatChannels)))
  }

  // --- the two resolvers -----------------------------------------------------------------

  // Overrides that parse to a discovered channel.
  function Discovered(texts: seq<ChannelText>, discovered: seq<ChannelId>): seq<ChannelId> {
    if texts == [] then []
    else
      var id := texts[0].Parse();
      (if id.Some? && id.value in discovered then [id.value] else []) + Discovered(texts[1..], discovered)
  }

  lemma {:induction false} DiscoveredContains(texts: seq<ChannelText>, discovered: seq<ChannelId>, channel: ChannelId)
    ensures channel in Discovered(texts, discovered) <==> channel in discovered && Names(texts, channel)
  {
    if texts != [] {
      DiscoveredContains(texts[1..], discovered, channel);
      if Names(texts[1..], channel) {
        var i :| 0 <= i < |texts[1..]| && texts[1..][i].Parse() == Some(channel);
        assert texts[i + 1].Parse() == Some(channel);
      }
      if Names(texts, channel) && texts[0].Parse() != Some(channel) {
        var i :| 0 <= i < |texts| && texts[i].Parse() == Some(channel);
        assert texts[1..][i - 1].Parse() == Some(channel);
      }
    }
  }

  // The filters of `channels`, and nothing else, are in `filters`.
  ghost predicate Resolved(config: Config, rules: seq<Rule>, channels: seq<ChannelId>, filters: map<ChannelId, ChannelFilter>) {
    && (forall ch :: ch in filters <==> ch in channels && Wanted(config, rules, ch).Some?)
    && (forall ch :: ch in filters ==> Some(filters[ch]) == Wanted(config, rules, ch))
  }

  lemma ResolvedOneMore(config: Config, rules: seq<Rule>, channels: seq<ChannelId>, i: nat,
                        was: map<ChannelId, ChannelFilter>, now: map<ChannelId, ChannelFilter>)
    requires i < |channels| && Resolved(config, rules, channels[..i], was)
    requires match Wanted(config, rules, channels[i])
             case Some(f) => now == was[channels[i] := f]
             case None => now == was
    ensures Resolved(config, rules, channels[..i + 1], now)
  {
    assert channels[..i + 1] == channels[..i] + [channels[i]];
  }

  method ResolveChannelFilters(config: Config, discovered: seq<ChannelId>, rules: seq<Rule>)
    returns (filters: map<ChannelId, ChannelFilter>)
    ensures forall ch :: ch in filters <==> ch in discovered && Wanted(config, rules, ch).Some?
    ensures forall ch :: ch in filters ==> Some(filters[ch]) == Wanted(config, rules, ch)
  {
    var targets :=
      if config.channelsOverride.Some? then Discovered(config.channelsOverride.value, discovered) else discovered;
    if config.subscribeMode != FromRules {
      TargetsAreAllowed(config, rules, discovered);
    }
    filters := map[];
    if config.subscribeMode == Mentions {
      var kinds := config.kindsOverride.GetOr(DEFAULT_KINDS);
      var requireMention := !config.noMentionFilter;
      for i := 0 to |targets|
        invariant Resolved(config, rules, targets[..i], filters)
      {
        var ch := targets[i];
        var flat := config.airhopRouteGate && ch in config.flatChannels;
        ghost var was := filters;
        filters := filters[ch := ChannelFilter(Some(kinds), requireMention && !flat)];
        assert ch in targets;
        ResolvedOneMore(config, rules, targets, i, was, filters);
      }
      assert targets[..|targets|] == targets;
    } else if config.subscribeMode == AllMessages {
      for i := 0 to |targets|
        invariant Resolved(config, rules, targets[..i], filters)
      {
        ghost var was := filters;
        filters := filters[targets[i] := ChannelFilter(config.kindsOverride, false)];
        assert targets[i] in targets;
        ResolvedOneMore(config, rules, targets, i, was, filters);
      }
      assert targets[..|targets|] == targets;
    } else {
      for i := 0 to |discovered|
        invariant Resolved(config, rules, discovered[..i], filters)
      {
        var ch := discovered[i];
        var mergedKinds: Option<seq<nat>> := Some([]);
        var requireMention, hasRule := true, false;
        for r := 0 to |rules|
          invariant MergeRules(Merging(mergedKinds, requireMention, hasRule), rules[r..], ch) ==
                    MergeRules(NOTHING_MERGED, rules, ch)
        {
          if !rules[r].channels.AppliesTo(ch) {
            continue;
          }
          hasRule := true;
          if rules[r].kinds == [] {
            mergedKinds := None;
          } else if mergedKinds.Some? {
            mergedKinds := PushMissing(mergedKinds, rules[r].kinds);
          }
          if !rules[r].requireMention {
            requireMention := false;
          }
        }
        ghost var was := filters;
        if hasRule {
          filters := filters[ch := ChannelFilter(mergedKinds, requireMention)];
        }
        ResolvedOneMore(config, rules, discovered, i, was, filters);
      }
      assert discovered[..|discovered|] == discovered;
    }
  }

  // Outside rule mode the channels looked at are the discovered ones that are allowed.
  lemma TargetsAreAllowed(config: Config, rules: seq<Rule>, discovered: seq<ChannelId>)
    requires config.subscribeMode != FromRules
    ensures var targets :=
        if config.channelsOverride.Some? then Discovered(config.channelsOverride.value, discovered) else discovered;
      forall ch :: ch in targets <==> ch in discovered && Wanted(config, rules, ch).Some?
  {
    if config.channelsOverride.Some? {
      forall ch
        ensures ch in Discovered(config.channelsOverride.value, discovered) <==>
          ch in discovered && Names(config.channelsOverride.value, ch)
      {
        DiscoveredContains(config.channelsOverride.value, discovered, ch);
      }
    }
  }

  method ResolveDynamicChannelFilter(config: Config, channel: ChannelId, rules: seq<Rule>)
    returns (filter: Option<ChannelFilter>)
    ensures filter == Wanted(config, rules, channel)
  {
    if config.subscribeMode != FromRules && config.channelsOverride.Some? {
      var allowed := Names(config.channelsOverride.value, channel);
      if !allowed {
        return None;
      }
    }
    match config.subscribeMode {
      case Mentions =>
        filter := Some(ChannelFilter(
          Some(config.kindsOverride.GetOr(DEFAULT_KINDS)),
          !(config.noMentionFilter || (config.airhopRouteGate && channel in config.flatChannels))));
      case AllMessages =>
        filter := Some(ChannelFilter(config.kindsOverride, false));
      case FromRules =>
        var mergedKinds: Option<seq<nat>> := Some([]);
        var requireMention, hasRule := true, false;
        for r := 0 to |rules|
          invariant MergeRules(Merging(mergedKinds, requireMention, hasRule), rules[r..], channel) ==
                    MergeRules(NOTHING_MERGED, rules, channel)
        {
          if !rules[r].channels.AppliesTo(channel) {
            continue;
          }
          hasRule := true;
          if rules[r].kinds == [] {
            mergedKinds := None;
          } else if mergedKinds.Some? {
            mergedKinds := PushMissing(mergedKinds, rules[r].kinds);
          }
          if !rules[r].requireMention {
            requireMention := false;
          }
        }
        if !hasRule {
          return None;
        }
        filter := Some(ChannelFilter(mergedKinds, requireMention));
    }
  }

  // The loop both resolvers run over the kinds of a rule.
  method PushMissing(kinds: Option<seq<nat>>, more: seq<nat>) returns (merged: Option<seq<nat>>)
    requires kinds.Some?
    ensures merged == Some(AddKinds(kinds.value, more))
  {
    var ks := kinds.value;
    for i := 0 to |more|
      invariant AddKinds(ks, more[i..]) == AddKinds(kinds.value, more)
    {
      if more[i] !in ks {
        ks := ks + [more[i]];
      }
    }
    merged := Some(ks);
  }

  // --- what the merged filter is --------------------------------------------------------

  predicate Distinct(kinds: seq<nat>) {
    forall i, j :: 0 <= i < j < |kinds| ==> kinds[i] != kinds[j]
  }

  lemma {:induction false} AddKindsContains(kinds: seq<nat>, more: seq<nat>, k: nat)
    ensures k in AddKinds(kinds, more) <==> k in kinds || k in more
    ensures Distinct(kinds) ==> Distinct(AddKinds(kinds, more))
    decreases |more|
  {
    if more != [] {
      AddKindsContains(if more[0] in kinds then kinds else kinds + [more[0]], more[1..], k);
    }
  }

  // A rule of the list whose scope names the channel.
  predicate Subscribes(rules: seq<Rule>, channel: ChannelId, rule: Rule) {
    rule in rules && rule.channels.AppliesTo(channel)
  }

  lemma {:induction false} MergesExactly(m: Merging, rules: seq<Rule>, channel: ChannelId, k: nat)
    ensures var r := MergeRules(m, rules, channel);
      && (r.hasRule <==> m.hasRule || exists rule :: Subscribes(rules, channel, rule))
      && (r.requireMention <==> m.requireMention && forall rule :: Subscribes(rules, channel, rule) ==> rule.requireMention)
      && (r.kinds.None? <==> m.kinds.None? || exists rule :: Subscribes(rules, channel, rule) && rule.kinds == [])
      && (r.kinds.Some? ==>
            && (k in r.kinds.value <==> k in m.kinds.value || exists rule :: Subscribes(rules, channel, rule) && k in rule.kinds)
            && (Distinct(m.kinds.value) ==> Distinct(r.kinds.value)))
    decreases |rules|
  {
    if rules != [] {
      var next := MergeRule(m, rules[0], channel);
      MergesExactly(next, rules[1..], channel, k);
      if m.kinds.Some? {
        AddKindsContains(m.kinds.value, rules[0].kinds, k);
      }
      forall rule
        ensures Subscribes(rules, channel, rule) <==>
          Subscribes(rules[1..], channel, rule) || (rule == rules[0] && rule.channels.AppliesTo(channel))
      {
      }
    }
  }

  // A channel is subscribed to exactly when some rule names it. Its filter is then the union
  // of the rules': all kinds as soon as one of them takes all kinds, otherwise each kind some
  // rule lists, once; and mentions only when every one of them wants mentions only.
  lemma MergedFilterIsTheUnion(rules: seq<Rule>, channel: ChannelId)
    ensures Merge(rules, channel).Some? <==> exists rule :: Subscribes(rules, channel, rule)
    ensures Merge(rules, channel).Some? ==> var f := Merge(rules, channel).value;
      && (f.requireMention <==> forall rule :: Subscribes(rules, channel, rule) ==> rule.requireMention)
      && (f.kinds.None? <==> exists rule :: Subscribes(rules, channel, rule) && rule.kinds == [])
      && (f.kinds.Some? ==>
            && Distinct(f.kinds.value)
            && forall k: nat :: k in f.kinds.value <==> exists rule :: Subscribes(rules, channel, rule) && k in rule.kinds)
  {
    MergesExactly(NOTHING_MERGED, rules, channel, 0);
    forall k: nat
      ensures var r := MergeRules(NOTHING_MERGED, rules, channel);
        r.kinds.Some? ==>
          (k in r.kinds.value <==> exists rule :: Subscribes(rules, channel, rule) && k in rule.kinds)
    {
      MergesExactly(NOTHING_MERGED, rules, channel, k);
    }
  }

  // --- no event is lost at the relay -----------------------------------------------------

  // With rules from the configuration, whatever the matcher accepts on a channel its filter
  // lets through.
  lemma NoEventIsLost(rules: seq<Rule>, timeouts: seq<nat>, call: Call, pubkey: string, m: MatchedRule)
    requires Fits(rules, timeouts, call)
    requires IsAnswer(rules, timeouts, call, pubkey, Some(m))
    ensures Merge(rules, call.channel).Some? && Merge(rules, call.channel).value.Admits(call.event, pubkey)
  {
    var rule := rules[m.ruleIndex];
    ScopesDiffer(rule.channels, call.channel);
    assert Subscribes(rules, call.channel, rule);
    MergedFilterIsTheUnion(rules, call.channel);
  }

  // --- the rules the program starts with -----------------------------------------------------

  // The rule for registered Welcome channels, when the route gate is on.
  function WelcomeRules(config: Config): seq<Rule> {
    if !config.airhopRouteGate || config.flatChannels == [] then []
    else
      var listed := seq(|config.flatChannels|, i requires 0 <= i < |config.flatChannels| => Print(config.flatChannels[i]));
      [Rule("airhop-welcome-owner-messages", List(listed), [KIND_STREAM_MESSAGE], false, None, Some("airhop-welcome"))]
  }

  function StartupRules(config: Config, loaded: seq<Rule>): seq<Rule> {
    (match config.subscribeMode
     case Mentions =>
       [Rule("mentions", ChannelScope.All("all"), config.kindsOverride.GetOr(DEFAULT_KINDS), !config.noMentionFilter, None, Some("@mention"))]
     case AllMessages =>
       [Rule("all", ChannelScope.All("all"), config.kindsOverride.GetOr([]), false, None, Some("all"))]
     case FromRules => loaded) + WelcomeRules(config)
  }

  // Nothing overrides the kinds outside rule mode, or the override is not empty and keeps
  // stream messages for a Welcome channel.
  predicate Lossless(config: Config, channel: ChannelId) {
    config.subscribeMode == FromRules || config.kindsOverride.None? ||
    (config.kindsOverride.value != [] &&
     (config.airhopRouteGate && channel in config.flatChannels ==> KIND_STREAM_MESSAGE in config.kindsOverride.value))
  }

  ghost predicate EveryAnswerIsAdmitted(rules: seq<Rule>, channel: ChannelId, filter: ChannelFilter) {
    forall timeouts, call, pubkey, m | Fits(rules, timeouts, call) && call.channel == channel ::
      IsAnswer(rules, timeouts, call, pubkey, Some(m)) ==> filter.Admits(call.event, pubkey)
  }

  lemma WelcomeRuleMatches(config: Config, channel: ChannelId)
    ensures forall rule :: rule in WelcomeRules(config) ==>
      && rule.kinds == [KIND_STREAM_MESSAGE]
      && (rule.channels.Matches(channel) <==> channel in config.flatChannels)
    ensures config.airhopRouteGate && channel in config.flatChannels ==> |WelcomeRules(config)| == 1
  {
    if config.airhopRouteGate && channel in config.flatChannels {
      var i :| 0 <= i < |config.flatChannels| && config.flatChannels[i] == channel;
      assert WelcomeRules(config)[0].channels.ids[i] == Print(channel);
    }
  }

  lemma LosslessSuffices(config: Config, loaded: seq<Rule>, timeouts: seq<nat>, call: Call, pubkey: string, m: MatchedRule)
    requires Lossless(config, call.channel)
    requires Fits(StartupRules(config, loaded), timeouts, call)
    requires IsAnswer(StartupRules(config, loaded), timeouts, call, pubkey, Some(m))
    requires Wanted(config, StartupRules(config, loaded), call.channel).Some?
    ensures Wanted(config, StartupRules(config, loaded), call.channel).value.Admits(call.event, pubkey)
  {
    var rules := StartupRules(config, loaded);
    if config.subscribeMode == FromRules {
      NoEventIsLost(rules, timeouts, call, pubkey, m);
    } else {
      WelcomeRuleMatches(config, call.channel);
      if m.ruleIndex == 0 {
      } else {
        assert rules[m.ruleIndex] in WelcomeRules(config);
      }
    }
  }

  // The event a lossy configuration drops: one with a mention of a kind nobody listed.
  lemma LossyDrops(config: Config, loaded: seq<Rule>, channel: ChannelId, pubkey: string)
    returns (timeouts: seq<nat>, call: Call, m: MatchedRule)
    requires !Lossless(config, channel)
    requires Wanted(config, StartupRules(config, loaded), channel).Some?
    ensures call.channel == channel
    ensures Fits(StartupRules(config, loaded), timeouts, call)
    ensures IsAnswer(StartupRules(config, loaded), timeouts, call, pubkey, Some(m))
    ensures !Wanted(config, StartupRules(config, loaded), channel).value.Admits(call.event, pubkey)
  {
    var rules := StartupRules(config, loaded);
    WelcomeRuleMatches(config, channel);
    var event := Event(KIND_STREAM_MESSAGE, [["p", pubkey]]);
    assert IsMention(event.tags[0], pubkey);
    timeouts := Zeros(|rules|);
    call := Call(event, channel, seq(|rules|, _ => Holds));
    var i := if config.kindsOverride.value == [] then 0 else 1;
    m := MatchedRule(i, rules[i].promptTag.GetOr(rules[i].name));
    assert Decides(rules, timeouts, call, pubkey, i);
  }

  // Every accepted event of a subscribed channel is one the relay delivers exactly when the
  // configuration is lossless. The condition covers all three modes.
  lemma NothingLostExactly(config: Config, loaded: seq<Rule>, channel: ChannelId)
    requires Wanted(config, StartupRules(config, loaded), channel).Some?
    ensures Lossless(config, channel) <==>
      EveryAnswerIsAdmitted(StartupRules(config, loaded), channel, Wanted(config, StartupRules(config, loaded), channel).value)
  {
    var rules := StartupRules(config, loaded);
    if Lossless(config, channel) {
      forall timeouts, call, pubkey, m | Fits(rules, timeouts, call) && call.channel == channel && IsAnswer(rules, timeouts, call, pubkey, Some(m))
        ensures Wanted(config, rules, channel).value.Admits(call.event, pubkey)
      {
        LosslessSuffices(config, loaded, timeouts, call, pubkey, m);
      }
    } else {
      var timeouts, call, m := LossyDrops(config, loaded, channel, "");
    }
  }

  // --- outside rule mode, in terms of the configuration ------------------------------------

  // The filter of a channel when the mode fixes it: none outside the allowed channels;
  // otherwise the kinds asked for, and mentions unless they are waived or the channel is a
  // Welcome channel behind the route gate.
  lemma FixedFilterExactly(config: Config, rules: seq<Rule>, channel: ChannelId)
    requires config.subscribeMode != FromRules
    ensures var filter := Wanted(config, rules, channel);
      && (filter == None <==>
            exists texts :: config.channelsOverride == Some(texts) &&
              Canonical(channel) !in texts && OtherSpelling(channel) !in texts)
      && (filter.Some? && config.subscribeMode == AllMessages ==>
            filter.value.kinds == config.kindsOverride && !filter.value.requireMention)
      && (filter.Some? && config.subscribeMode == Mentions ==>
            && (config.kindsOverride == None ==> filter.value.kinds == Some([9, 46010, 40007]))
            && (config.kindsOverride.Some? ==> filter.value.kinds == config.kindsOverride)
            && (filter.value.requireMention <==>
                  !config.noMentionFilter && (!config.airhopRouteGate || channel !in config.flatChannels)))
  {
    if config.channelsOverride.Some? {
      NamesExactly(config.channelsOverride.value, channel);
    }
  }

  lemma NamesExactly(texts: seq<ChannelText>, channel: ChannelId)
    ensures Names(texts, channel) <==> Canonical(channel) in texts || OtherSpelling(channel) in texts
  {
    if Canonical(channel) in texts {
      var i :| 0 <= i < |texts| && texts[i] == Canonical(channel);
      assert texts[i].Parse() == Some(channel);
    }
    if OtherSpelling(channel) in texts {
      var i :| 0 <= i < |texts| && texts[i] == OtherSpelling(channel);
      assert texts[i].Parse() == Some(channel);
    }
  }

  // What the program's own rules answer outside rule mode: an event of a kind asked for,
  // with a mention where mentions are asked for; and any stream message of a Welcome
  // channel behind the route gate.
  lemma StartupAnswersExactly(
    config: Config, loaded: seq<Rule>, timeouts: seq<nat>, call: Call, pubkey: string, matched: Option<MatchedRule>)
    requires config.subscribeMode != FromRules
    requires Fits(StartupRules(config, loaded), timeouts, call)
    requires IsAnswer(StartupRules(config, loaded), timeouts, call, pubkey, matched)
    ensures var asked := if config.subscribeMode == Mentions && config.kindsOverride == None then [9, 46010, 40007]
                         else config.kindsOverride.GetOr([]);
      var plain := (asked == [] || call.event.kind in asked)
                   && (config.subscribeMode == Mentions && !config.noMentionFilter ==> call.event.Mentions(pubkey));
      var welcome := config.airhopRouteGate && call.channel in config.flatChannels && call.event.kind == 9;
      && (matched.Some? <==> plain || welcome)
      && (plain ==> matched == Some(MatchedRule(0, if config.subscribeMode == Mentions then "@mention" else "all")))
      && (!plain && welcome ==> matched == Some(MatchedRule(1, "airhop-welcome")))
  {
    var rules := StartupRules(config, loaded);
    WelcomeRuleMatches(config, call.channel);
    AnsweredExactly(rules, timeouts, call, pubkey, matched, 0);
    VerdictExactly(rules, timeouts, call, pubkey, 0);
    if |rules| > 1 {
      AnsweredExactly(rules, timeouts, call, pubkey, matched, 1);
      VerdictExactly(rules, timeouts, call, pubkey, 1);
      assert rules[1] in WelcomeRules(config);
    }
  }
}
