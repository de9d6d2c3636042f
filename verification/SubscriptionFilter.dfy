// Matching an event against ordered rules (crates/buzz-acp/src/filter.rs, `match_event`).
//
// Evaluating an expression is foreign code: a call brings, for every rule, the outcome its
// expression would have.
module SubscriptionFilter {
  import opened Wrappers
  import opened Subscriptions

  const MAX_CONSECUTIVE_TIMEOUTS: nat := 5

  datatype Evaluation = Holds | DoesNotHold | TimedOut | Broken

  datatype Call = Call(event: Event, channel: ChannelId, outcomes: seq<Evaluation>)

  datatype MatchedRule = MatchedRule(ruleIndex: nat, promptTag: string)

  // The three checks that come before the expression.
  predicate Applies(rule: Rule, event: Event, channel: ChannelId, pubkey: string) {
    && rule.channels.Matches(channel)
    && (rule.kinds == [] || event.kind in rule.kinds)
    && (rule.requireMention ==> event.Mentions(pubkey))
  }

  // Calls that bring an outcome for every rule, and a timeout count for each.
  predicate Fits(rules: seq<Rule>, timeouts: seq<nat>, call: Call) {
    |timeouts| == |rules| == |call.outcomes|
  }

  // --- what one rule says -------------------------------------------------------

  datatype Verdict = Skips | Wins | Closes

  function RuleVerdict(rules: seq<Rule>, timeouts: seq<nat>, call: Call, pubkey: string, i: nat): Verdict
    requires Fits(rules, timeouts, call) && i < |rules|
  {
    if !Applies(rules[i], call.event, call.channel, pubkey) then Skips
    else if rules[i].filter.None? then Wins
    else if timeouts[i] >= MAX_CONSECUTIVE_TIMEOUTS then Closes
    else match call.outcomes[i]
      case Holds => Wins
      case DoesNotHold => Skips
      case _ => Closes
  }

  // No rule before `i` has decided.
  ghost predicate Reached(rules: seq<Rule>, timeouts: seq<nat>, call: Call, pubkey: string, i: nat)
    requires Fits(rules, timeouts, call) && i <= |rules|
  {
    forall j :: 0 <= j < i ==> RuleVerdict(rules, timeouts, call, pubkey, j).Skips?
  }

  // The expression of rule `i` is evaluated.
  ghost predicate Evaluates(rules: seq<Rule>, timeouts: seq<nat>, call: Call, pubkey: string, i: nat)
    requires Fits(rules, timeouts, call) && i < |rules|
  {
    && Reached(rules, timeouts, call, pubkey, i)
    && Applies(rules[i], call.event, call.channel, pubkey)
    && rules[i].filter.Some?
    && timeouts[i] < MAX_CONSECUTIVE_TIMEOUTS
  }

  ghost predicate Decides(rules: seq<Rule>, timeouts: seq<nat>, call: Call, pubkey: string, i: nat)
    requires Fits(rules, timeouts, call)
  {
    && i < |rules|
    && Reached(rules, timeouts, call, pubkey, i)
    && !RuleVerdict(rules, timeouts, call, pubkey, i).Skips?
  }

  // The answer: the first rule that decides, when it is one that wins.
  ghost predicate IsAnswer(rules: seq<Rule>, timeouts: seq<nat>, call: Call, pubkey: string, matched: Option<MatchedRule>)
    requires Fits(rules, timeouts, call)
  {
    match matched
    case Some(m) =>
      && Decides(rules, timeouts, call, pubkey, m.ruleIndex)
      && RuleVerdict(rules, timeouts, call, pubkey, m.ruleIndex).Wins?
      && m.promptTag == rules[m.ruleIndex].promptTag.GetOr(rules[m.ruleIndex].name)
    case None =>
      forall i :: Decides(rules, timeouts, call, pubkey, i) ==> RuleVerdict(rules, timeouts, call, pubkey, i).Closes?
  }

  function Counted(count: nat, outcome: Evaluation): nat {
    match outcome
    case TimedOut => count + 1
    case Broken => count
    case _ => 0
  }

  ghost function CountAfter(rules: seq<Rule>, timeouts: seq<nat>, call: Call, pubkey: string, i: nat): nat
    requires Fits(rules, timeouts, call) && i < |rules|
  {
    if Evaluates(rules, timeouts, call, pubkey, i) then Counted(timeouts[i], call.outcomes[i]) else timeouts[i]
  }

  ghost function TimeoutsAfter(rules: seq<Rule>, timeouts: seq<nat>, call: Call, pubkey: string): (t: seq<nat>)
    requires Fits(rules, timeouts, call)
    ensures |t| == |rules|
  {
    seq(|rules|, i requires 0 <= i < |rules| => CountAfter(rules, timeouts, call, pubkey, i))
  }

  function Zeros(n: nat): (t: seq<nat>)
    ensures |t| == n && forall i :: 0 <= i < n ==> t[i] == 0
  {
    seq(n, _ => 0)
  }

  // At most one rule decides, and those behind it are not evaluated.
  lemma OneDecides(rules: seq<Rule>, timeouts: seq<nat>, call: Call, pubkey: string, i: nat)
    requires Fits(rules, timeouts, call)
    requires Decides(rules, timeouts, call, pubkey, i)
    ensures forall k :: Decides(rules, timeouts, call, pubkey, k) ==> k == i
    ensures forall j :: i < j < |rules| ==> !Evaluates(rules, timeouts, call, pubkey, j)
  {
  }

  lemma DecidedAt(rules: seq<Rule>, was: seq<nat>, now: seq<nat>, call: Call, pubkey: string, i: nat)
    requires Fits(rules, was, call) && |now| == |rules|
    requires Decides(rules, was, call, pubkey, i)
    requires forall j :: 0 <= j <= i ==> now[j] == CountAfter(rules, was, call, pubkey, j)
    requires forall j :: i < j < |rules| ==> now[j] == was[j]
    ensures now == TimeoutsAfter(rules, was, call, pubkey)
    ensures forall k :: Decides(rules, was, call, pubkey, k) ==> k == i
  {
    OneDecides(rules, was, call, pubkey, i);
  }

  // --- the matcher ----------------------------------------------------------------

  class SubscriptionMatcher {
    const rules: seq<Rule>
    const pubkey: string
    // Timeouts in a row, rule by rule.
    var timeouts: seq<nat>

    constructor (rules: seq<Rule>, pubkey: string)
      ensures this.rules == rules && this.pubkey == pubkey
      ensures timeouts == Zeros(|rules|)
    {
      this.rules := rules;
      this.pubkey := pubkey;
      timeouts := Zeros(|rules|);
    }

    method MatchEvent(call: Call) returns (matched: Option<MatchedRule>)
      requires Fits(rules, timeouts, call)
      modifies this
      ensures timeouts == TimeoutsAfter(rules, old(timeouts), call, pubkey)
      ensures IsAnswer(rules, old(timeouts), call, pubkey, matched)
    {
      ghost var was := timeouts;
      var index := 0;
      while index < |rules|
        invariant index <= |rules| == |timeouts|
        invariant Reached(rules, was, call, pubkey, index)
        invariant forall j :: 0 <= j < index ==> timeouts[j] == CountAfter(rules, was, call, pubkey, j)
        invariant forall j :: index <= j < |rules| ==> timeouts[j] == was[j]
      {
        var rule := rules[index];
        if !rule.channels.Matches(call.channel) {
          index := index + 1;
          continue;
        }
        if rule.kinds != [] && call.event.kind !in rule.kinds {
          index := index + 1;
          continue;
        }
        if rule.requireMention {
          if !call.event.Mentions(pubkey) {
            index := index + 1;
            continue;
          }
        }
        if rule.filter.Some? {
          if timeouts[index] >= MAX_CONSECUTIVE_TIMEOUTS {
            DecidedAt(rules, was, timeouts, call, pubkey, index);
            return None;
          }
          match call.outcomes[index] {
            case Holds =>
              timeouts := timeouts[index := 0];
            case DoesNotHold =>
              timeouts := timeouts[index := 0];
              index := index + 1;
              continue;
            case TimedOut =>
              timeouts := timeouts[index := timeouts[index] + 1];
              DecidedAt(rules, was, timeouts, call, pubkey, index);
              return None;
            case Broken =>
              DecidedAt(rules, was, timeouts, call, pubkey, index);
              return None;
          }
        }
        DecidedAt(rules, was, timeouts, call, pubkey, index);
        return Some(MatchedRule(index, rule.promptTag.GetOr(rule.name)));
      }
      matched := None;
    }
  }

  // --- one answer -------------------------------------------------------------------

  lemma AnswerIsUnique(rules: seq<Rule>, timeouts: seq<nat>, call: Call, pubkey: string,
                       a: Option<MatchedRule>, b: Option<MatchedRule>)
    requires Fits(rules, timeouts, call)
    requires IsAnswer(rules, timeouts, call, pubkey, a) && IsAnswer(rules, timeouts, call, pubkey, b)
    ensures a == b
  {
    if a.Some? && b.Some? {
      var i, j := a.value.ruleIndex, b.value.ruleIndex;
      assert !RuleVerdict(rules, timeouts, call, pubkey, i).Skips?;
      assert !RuleVerdict(rules, timeouts, call, pubkey, j).Skips?;
    }
  }

  // Closed on failure: an answer means that every rule before it did not apply to the event
  // or was evaluated and did not hold. No error, timeout or disabled expression is passed over.
  lemma NothingFailedBefore(rules: seq<Rule>, timeouts: seq<nat>, call: Call, pubkey: string, m: MatchedRule, j: nat)
    requires Fits(rules, timeouts, call)
    requires IsAnswer(rules, timeouts, call, pubkey, Some(m)) && j <= m.ruleIndex
    ensures m.ruleIndex < |rules|
    ensures j < m.ruleIndex && Applies(rules[j], call.event, call.channel, pubkey) ==>
      Evaluates(rules, timeouts, call, pubkey, j) && call.outcomes[j].DoesNotHold?
    ensures j == m.ruleIndex ==>
      && Applies(rules[j], call.event, call.channel, pubkey)
      && (rules[j].filter.Some? ==> Evaluates(rules, timeouts, call, pubkey, j) && call.outcomes[j].Holds?)
  {
    if j < m.ruleIndex {
      assert RuleVerdict(rules, timeouts, call, pubkey, j).Skips?;
    }
  }

  // Rules behind the one that decides are never consulted: without them the answer is the same.
  lemma LaterRulesDoNotMatter(rules: seq<Rule>, timeouts: seq<nat>, call: Call, pubkey: string, i: nat, matched: Option<MatchedRule>)
    requires Fits(rules, timeouts, call)
    requires Decides(rules, timeouts, call, pubkey, i)
    ensures IsAnswer(rules, timeouts, call, pubkey, matched) <==>
      IsAnswer(rules[..i + 1], timeouts[..i + 1], call.(outcomes := call.outcomes[..i + 1]), pubkey, matched)
    ensures forall j :: i < j < |rules| ==> !Evaluates(rules, timeouts, call, pubkey, j)
  {
    var n := i + 1;
    var rs, ts, short := rules[..n], timeouts[..n], call.(outcomes := call.outcomes[..n]);
    forall j | 0 <= j < i
      ensures RuleVerdict(rs, ts, short, pubkey, j).Skips?
    {
      assert RuleVerdict(rules, timeouts, call, pubkey, j).Skips?;
    }
    assert Decides(rs, ts, short, pubkey, i);
    OneDecides(rules, timeouts, call, pubkey, i);
    OneDecides(rs, ts, short, pubkey, i);
  }

  // --- in terms of the rules' fields ------------------------------------------------

  // The event is one the rule is written for: its channel, its kind, and a mention when
  // the rule wants one.
  ghost predicate Suits(rule: Rule, event: Event, channel: ChannelId, pubkey: string) {
    && (match rule.channels
        case All(text) => text == "all"
        case List(ids) => exists i :: 0 <= i < |ids| && ids[i] == Canonical(channel))
    && (rule.kinds != [] ==> exists i :: 0 <= i < |rule.kinds| && rule.kinds[i] == event.kind)
    && (rule.requireMention ==>
          exists i :: 0 <= i < |event.tags| && |event.tags[i]| >= 2 && event.tags[i][0] == "p" && event.tags[i][1] == pubkey)
  }

  lemma SuitsExactly(rule: Rule, event: Event, channel: ChannelId, pubkey: string)
    ensures Applies(rule, event, channel, pubkey) <==> Suits(rule, event, channel, pubkey)
  {
    if event.Mentions(pubkey) {
      var i :| 0 <= i < |event.tags| && IsMention(event.tags[i], pubkey);
      assert |event.tags[i]| >= 2 && event.tags[i][0] == "p" && event.tags[i][1] == pubkey;
    }
    if i :| 0 <= i < |event.tags| && |event.tags[i]| >= 2 && event.tags[i][0] == "p" && event.tags[i][1] == pubkey {
      assert IsMention(event.tags[i], pubkey);
    }
  }

  // The rule lets the next one have the event.
  ghost predicate PassesOn(rules: seq<Rule>, timeouts: seq<nat>, call: Call, pubkey: string, j: nat)
    requires Fits(rules, timeouts, call) && j < |rules|
  {
    || !Suits(rules[j], call.event, call.channel, pubkey)
    || (rules[j].filter.Some? && timeouts[j] < 5 && call.outcomes[j] == DoesNotHold)
  }

  ghost predicate AllPassOn(rules: seq<Rule>, timeouts: seq<nat>, call: Call, pubkey: string, i: nat)
    requires Fits(rules, timeouts, call) && i <= |rules|
  {
    forall j: nat :: j < i ==> PassesOn(rules, timeouts, call, pubkey, j)
  }

  // The rule takes the event.
  ghost predicate Takes(rules: seq<Rule>, timeouts: seq<nat>, call: Call, pubkey: string, i: nat)
    requires Fits(rules, timeouts, call) && i < |rules|
  {
    && Suits(rules[i], call.event, call.channel, pubkey)
    && (rules[i].filter.Some? ==> timeouts[i] < 5 && call.outcomes[i] == Holds)
  }

  lemma VerdictExactly(rules: seq<Rule>, timeouts: seq<nat>, call: Call, pubkey: string, i: nat)
    requires Fits(rules, timeouts, call) && i < |rules|
    ensures RuleVerdict(rules, timeouts, call, pubkey, i).Skips? <==> PassesOn(rules, timeouts, call, pubkey, i)
    ensures RuleVerdict(rules, timeouts, call, pubkey, i).Wins? <==> Takes(rules, timeouts, call, pubkey, i)
  {
    SuitsExactly(rules[i], call.event, call.channel, pubkey);
  }

  lemma ReachedExactly(rules: seq<Rule>, timeouts: seq<nat>, call: Call, pubkey: string, i: nat)
    requires Fits(rules, timeouts, call) && i <= |rules|
    ensures Reached(rules, timeouts, call, pubkey, i) <==> AllPassOn(rules, timeouts, call, pubkey, i)
  {
    forall j: nat | j < i
      ensures RuleVerdict(rules, timeouts, call, pubkey, j).Skips? <==> PassesOn(rules, timeouts, call, pubkey, j)
    {
      VerdictExactly(rules, timeouts, call, pubkey, j);
    }
  }

  // A rule is the answer exactly when it takes the event and every earlier rule passes
  // it on; the answer names it by its prompt tag, or its name without one.
  lemma AnsweredExactly(rules: seq<Rule>, timeouts: seq<nat>, call: Call, pubkey: string, matched: Option<MatchedRule>, i: nat)
    requires Fits(rules, timeouts, call) && IsAnswer(rules, timeouts, call, pubkey, matched) && i < |rules|
    ensures matched.Some? && matched.value.ruleIndex == i <==>
      Takes(rules, timeouts, call, pubkey, i) && AllPassOn(rules, timeouts, call, pubkey, i)
    ensures matched.Some? && matched.value.ruleIndex == i ==>
      && (forall tag :: rules[i].promptTag == Some(tag) ==> matched.value.promptTag == tag)
      && (rules[i].promptTag == None ==> matched.value.promptTag == rules[i].name)
  {
    ReachedExactly(rules, timeouts, call, pubkey, i);
    VerdictExactly(rules, timeouts, call, pubkey, i);
    if Takes(rules, timeouts, call, pubkey, i) && AllPassOn(rules, timeouts, call, pubkey, i) {
      assert Decides(rules, timeouts, call, pubkey, i);
      OneDecides(rules, timeouts, call, pubkey, i);
    }
  }

  // What a call does to the count of a rule: only one that is reached, suits the event and
  // has an enabled expression changes; a timeout adds one, an answer clears, an error keeps.
  lemma CountedExactly(rules: seq<Rule>, timeouts: seq<nat>, call: Call, pubkey: string, i: nat)
    requires Fits(rules, timeouts, call) && i < |rules|
    ensures var after := TimeoutsAfter(rules, timeouts, call, pubkey);
      if AllPassOn(rules, timeouts, call, pubkey, i) && Suits(rules[i], call.event, call.channel, pubkey)
         && rules[i].filter.Some? && timeouts[i] < 5
      then
        && (call.outcomes[i] == TimedOut ==> after[i] == timeouts[i] + 1)
        && (call.outcomes[i] == Broken ==> after[i] == timeouts[i])
        && (call.outcomes[i] == Holds || call.outcomes[i] == DoesNotHold ==> after[i] == 0)
      else after[i] == timeouts[i]
  {
    ReachedExactly(rules, timeouts, call, pubkey, i);
    SuitsExactly(rules[i], call.event, call.channel, pubkey);
  }

  // --- events one after another -------------------------------------------------------

  ghost predicate AllFit(rules: seq<Rule>, calls: seq<Call>) {
    forall c :: 0 <= c < |calls| ==> |calls[c].outcomes| == |rules|
  }

  ghost function Counts(rules: seq<Rule>, pubkey: string, calls: seq<Call>): (t: seq<nat>)
    requires AllFit(rules, calls)
    ensures |t| == |rules|
  {
    if calls == [] then Zeros(|rules|)
    else
      var last := |calls| - 1;
      TimeoutsAfter(rules, Counts(rules, pubkey, calls[..last]), calls[last], pubkey)
  }

  // What the evaluations of rule `i` came to, in order.
  ghost function Evaluations(rules: seq<Rule>, pubkey: string, calls: seq<Call>, i: nat): seq<Evaluation>
    requires AllFit(rules, calls) && i < |rules|
  {
    if calls == [] then []
    else
      var last := |calls| - 1;
      Evaluations(rules, pubkey, calls[..last], i) +
      if Evaluates(rules, Counts(rules, pubkey, calls[..last]), calls[last], pubkey, i)
      then [calls[last].outcomes[i]] else []
  }

  predicate IsOk(e: Evaluation) {
    e.Holds? || e.DoesNotHold?
  }

  // `k` is where the evaluations after the last successful one begin.
  ghost predicate SinceLastOk(h: seq<Evaluation>, k: nat) {
    && k <= |h|
    && (k == 0 || IsOk(h[k - 1]))
    && forall j :: k <= j < |h| ==> !IsOk(h[j])
  }

  // The counter is the number of timeouts since the rule last evaluated to an answer, and
  // never passes five.
  lemma {:induction false} CounterIsTimeoutsSinceLastOk(rules: seq<Rule>, pubkey: string, calls: seq<Call>, i: nat, k: nat)
    requires AllFit(rules, calls) && i < |rules|
    requires SinceLastOk(Evaluations(rules, pubkey, calls, i), k)
    ensures Counts(rules, pubkey, calls)[i] == multiset(Evaluations(rules, pubkey, calls, i)[k..])[TimedOut]
    ensures Counts(rules, pubkey, calls)[i] <= MAX_CONSECUTIVE_TIMEOUTS
  {
    if calls != [] {
      var before, last := calls[..|calls| - 1], calls[|calls| - 1];
      var h := Evaluations(rules, pubkey, before, i);
      if Evaluates(rules, Counts(rules, pubkey, before), last, pubkey, i) {
        var e := last.outcomes[i];
        SinceLastOkStep(h, e, k);
        if !IsOk(e) {
          CounterIsTimeoutsSinceLastOk(rules, pubkey, before, i, k);
        }
      } else {
        assert Evaluations(rules, pubkey, calls, i) == h;
        CounterIsTimeoutsSinceLastOk(rules, pubkey, before, i, k);
      }
    }
  }

  lemma SinceLastOkStep(h: seq<Evaluation>, e: Evaluation, k: nat)
    requires SinceLastOk(h + [e], k)
    ensures IsOk(e) ==> k == |h| + 1 && multiset((h + [e])[k..])[TimedOut] == 0
    ensures !IsOk(e) ==>
      && SinceLastOk(h, k)
      && multiset((h + [e])[k..])[TimedOut] == multiset(h[k..])[TimedOut] + (if e.TimedOut? then 1 else 0)
  {
    var g := h + [e];
    assert g[|h|] == e;
    if !IsOk(e) {
      assert k <= |h|;
      assert g[k..] == h[k..] + [e];
      forall j | k <= j < |h| ensures !IsOk(h[j]) {
        assert g[j] == h[j];
      }
      if k > 0 {
        assert g[k - 1] == h[k - 1];
      }
    } else {
      assert k == |g|;
      assert g[k..] == [];
    }
  }

  lemma {:induction false} LastOkExists(h: seq<Evaluation>) returns (k: nat)
    ensures SinceLastOk(h, k)
  {
    if h == [] {
      k := 0;
    } else if IsOk(h[|h| - 1]) {
      k := |h|;
    } else {
      k := LastOkExists(h[..|h| - 1]);
    }
  }

  lemma CounterIsBounded(rules: seq<Rule>, pubkey: string, calls: seq<Call>, i: nat)
    requires AllFit(rules, calls) && i < |rules|
    ensures Counts(rules, pubkey, calls)[i] <= MAX_CONSECUTIVE_TIMEOUTS
  {
    var k := LastOkExists(Evaluations(rules, pubkey, calls, i));
    CounterIsTimeoutsSinceLastOk(rules, pubkey, calls, i, k);
  }

  // A rule is disabled exactly when five of its evaluations timed out since the last answer.
  lemma DisabledExactly(rules: seq<Rule>, pubkey: string, calls: seq<Call>, i: nat, k: nat)
    requires AllFit(rules, calls) && i < |rules|
    requires SinceLastOk(Evaluations(rules, pubkey, calls, i), k)
    ensures Counts(rules, pubkey, calls)[i] >= MAX_CONSECUTIVE_TIMEOUTS <==>
      multiset(Evaluations(rules, pubkey, calls, i)[k..])[TimedOut] == 5
  {
    CounterIsTimeoutsSinceLastOk(rules, pubkey, calls, i, k);
  }

  // A disabled rule is never evaluated again, whatever follows.
  lemma {:induction false} DisabledForever(rules: seq<Rule>, pubkey: string, calls: seq<Call>, more: seq<Call>, i: nat)
    requires AllFit(rules, calls) && AllFit(rules, more) && i < |rules|
    requires Counts(rules, pubkey, calls)[i] == MAX_CONSECUTIVE_TIMEOUTS
    ensures AllFit(rules, calls + more)
    ensures Counts(rules, pubkey, calls + more)[i] == MAX_CONSECUTIVE_TIMEOUTS
    ensures Evaluations(rules, pubkey, calls + more, i) == Evaluations(rules, pubkey, calls, i)
  {
    hide RuleVerdict, Applies, Reached;
    if more == [] {
      assert calls + more == calls;
    } else {
      var last := |more| - 1;
      DisabledForever(rules, pubkey, calls, more[..last], i);
      assert (calls + more)[..|calls| + last] == calls + more[..last];
    }
  }

  // Every event that gets as far as a disabled rule and satisfies its first three checks is
  // turned away, whichever rules follow.
  lemma DisabledRuleTurnsAway(rules: seq<Rule>, pubkey: string, calls: seq<Call>, more: seq<Call>, call: Call, i: nat, matched: Option<MatchedRule>)
    requires AllFit(rules, calls) && AllFit(rules, more) && i < |rules| == |call.outcomes|
    requires Counts(rules, pubkey, calls)[i] == MAX_CONSECUTIVE_TIMEOUTS && rules[i].filter.Some?
    requires AllFit(rules, calls + more)
    requires Reached(rules, Counts(rules, pubkey, calls + more), call, pubkey, i)
    requires Applies(rules[i], call.event, call.channel, pubkey)
    requires IsAnswer(rules, Counts(rules, pubkey, calls + more), call, pubkey, matched)
    ensures matched == None
  {
    DisabledForever(rules, pubkey, calls, more, i);
    var timeouts := Counts(rules, pubkey, calls + more);
    assert Decides(rules, timeouts, call, pubkey, i);
    OneDecides(rules, timeouts, call, pubkey, i);
  }
}
