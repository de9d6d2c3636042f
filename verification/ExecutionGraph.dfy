// The per-turn execution graph of an agent: budgets, recovery and publication.
module ExecutionGraph {
  import opened Wrappers

  datatype Role = Fizz | Administrator | Analyst | ContentMarketer | ParentAdministrator

  datatype Node = AtContext | Decide | Read | AwaitConfirmation | Act | Reply | Recovery | Done

  datatype Action = Context | ReadFacts | PrepareChange | Commit | Delegate | Publish

  datatype Refusal =
    | AlreadyReplied
    | ReplyNeedsContext
    | NeedsContext
    | AttemptLimit
    | StopRepeating
    | LookupLimit
    | OnlyFizzDelegates
    | RoleDoesNotMutate
    | ActionLimit

  // Counters are eight-bit.
  type U8 = n: nat | n < 256

  const ATTEMPT_LIMIT: U8 := 24
  const RECOVERY_LIMIT: U8 := 2
  const REPEAT_LIMIT: U8 := 2

  function SaturatingAddOne(n: U8): U8 {
    if n == 255 then 255 else n + 1
  }

  function SaturatingSub(a: U8, b: U8): U8 {
    if a < b then 0 else a - b
  }

  function ReadLimit(role: Role): U8 {
    if role == ParentAdministrator then 6 else 8
  }

  function WriteLimit(role: Role): U8 {
    match role
    case Analyst => 0
    case Fizz => 3
    case _ => 4
  }

  datatype State = State(
    role: Role,
    node: Node,
    contextLoaded: bool,
    lookups: U8,
    writes: U8,
    attempts: U8,
    recoveryContexts: U8,
    repeats: map<string, U8>)
  {
    // A context load that is allowed even when every budget is spent.
    predicate EssentialRefresh(action: Action) {
      action == Context && !contextLoaded && recoveryContexts < RECOVERY_LIMIT
    }

    function Repeats(key: string): U8 {
      if key in repeats then repeats[key] else 0
    }

    function RemainingReads(): U8 {
      SaturatingSub(ReadLimit(role), lookups)
    }

    function RemainingWrites(): U8 {
      SaturatingSub(WriteLimit(role), writes)
    }

    function RemainingAttempts(): U8 {
      SaturatingSub(ATTEMPT_LIMIT, attempts)
    }

    // Why an action is refused before it costs an attempt.
    function RefusedEarly(action: Action): Option<Refusal> {
      if node == Done then Some(AlreadyReplied)
      else if action == Publish then (if contextLoaded then None else Some(ReplyNeedsContext))
      else if action != Context && !contextLoaded then Some(NeedsContext)
      else if attempts >= ATTEMPT_LIMIT && !EssentialRefresh(action) then Some(AttemptLimit)
      else None
    }

    // Why an uncached action that costs an attempt is still refused.
    function RefusedLate(action: Action): Option<Refusal> {
      match action
      case Context | ReadFacts =>
        if lookups >= ReadLimit(role) && !EssentialRefresh(action) then Some(LookupLimit) else None
      case Delegate =>
        if role != Fizz then Some(OnlyFizzDelegates)
        else if writes >= WriteLimit(role) then Some(ActionLimit)
        else None
      case PrepareChange | Commit =>
        if role == Fizz || role == Analyst then Some(RoleDoesNotMutate)
        else if writes >= WriteLimit(role) then Some(ActionLimit)
        else None
      case Publish => None
    }

    function Refused(action: Action, key: string, cached: bool): Option<Refusal> {
      if RefusedEarly(action).Some? || action == Publish then RefusedEarly(action)
      else if cached then (if SaturatingAddOne(Repeats(key)) > REPEAT_LIMIT then Some(StopRepeating) else None)
      else RefusedLate(action)
    }

    function AfterPrepare(action: Action, key: string, cached: bool): State {
      if RefusedEarly(action).Some? || action == Publish then this
      else
        var counted := this.(attempts := SaturatingAddOne(attempts));
        if cached then counted.(repeats := repeats[key := SaturatingAddOne(Repeats(key))])
        else if RefusedLate(action).Some? then counted
        else if action == Context || action == ReadFacts then
          counted.(
            lookups := if lookups < ReadLimit(role) then lookups + 1 else lookups,
            recoveryContexts := if lookups < ReadLimit(role) then recoveryContexts else recoveryContexts + 1,
            node := if action == Context then AtContext else Read)
        else counted.(writes := writes + 1, node := Act)
    }

    function AfterSuccess(action: Action): State {
      match action
      case Context => this.(contextLoaded := true, node := Decide)
      case ReadFacts => this.(node := Decide)
      case PrepareChange => this.(node := AwaitConfirmation)
      case Commit | Delegate => this.(node := Reply)
      case Publish => this.(node := Done)
    }

    function AfterInvalidation(): State {
      this.(contextLoaded := false, node := AtContext)
    }

    function AfterFailure(): State {
      this.(node := Recovery)
    }
  }

  function Start(role: Role): State {
    State(role, AtContext, false, 0, 0, 0, 0, map[])
  }

  // ---------- the program ----------

  class Graph {
    const role: Role
    var node: Node
    var contextLoaded: bool
    var lookups: U8
    var writes: U8
    var attempts: U8
    var recoveryContexts: U8
    var repeats: map<string, U8>

    ghost function View(): State
      reads this
    {
      State(role, node, contextLoaded, lookups, writes, attempts, recoveryContexts, repeats)
    }

    constructor (role: Role)
      ensures View() == Start(role)
    {
      this.role := role;
      node, contextLoaded := AtContext, false;
      lookups, writes, attempts, recoveryContexts := 0, 0, 0, 0;
      repeats := map[];
    }

    method Prepare(action: Action, key: string, cached: bool) returns (refused: Option<Refusal>)
      modifies this
      ensures refused == old(View()).Refused(action, key, cached)
      ensures View() == old(View()).AfterPrepare(action, key, cached)
    {
      if node == Done {
        return Some(AlreadyReplied);
      }
      if action == Publish {
        return if contextLoaded then None else Some(ReplyNeedsContext);
      }
      if action != Context && !contextLoaded {
        return Some(NeedsContext);
      }
      var essentialRefresh := action == Context && !contextLoaded && recoveryContexts < 2;
      if attempts >= 24 && !essentialRefresh {
        return Some(AttemptLimit);
      }
      attempts := SaturatingAddOne(attempts);
      if cached {
        var count := SaturatingAddOne(if key in repeats then repeats[key] else 0);
        repeats := repeats[key := count];
        return if count > 2 then Some(StopRepeating) else None;
      }
      if action == Context || action == ReadFacts {
        if lookups >= ReadLimit(role) {
          if !essentialRefresh {
            return Some(LookupLimit);
          }
          recoveryContexts := recoveryContexts + 1;
        } else {
          lookups := lookups + 1;
        }
        node := if action == Context then AtContext else Read;
      } else {
        if action == Delegate && role != Fizz {
          return Some(OnlyFizzDelegates);
        }
        if (action == PrepareChange || action == Commit) && (role == Fizz || role == Analyst) {
          return Some(RoleDoesNotMutate);
        }
        if writes >= WriteLimit(role) {
          return Some(ActionLimit);
        }
        writes := writes + 1;
        node := Act;
      }
      return None;
    }

    method Succeeded(action: Action)
      modifies this
      ensures View() == old(View()).AfterSuccess(action)
    {
      match action {
        case Context =>
          contextLoaded := true;
          node := Decide;
        case ReadFacts => node := Decide;
        case PrepareChange => node := AwaitConfirmation;
        case Commit | Delegate => node := Reply;
        case Publish => node := Done;
      }
    }

    method InvalidateContext()
      modifies this
      ensures View() == old(View()).AfterInvalidation()
    {
      contextLoaded := false;
      node := AtContext;
    }

    method Failed()
      modifies this
      ensures View() == old(View()).AfterFailure()
    {
      node := Recovery;
    }
  }

  // ---------- runs ----------

  datatype Op =
    | Prepare(action: Action, key: string, cached: bool)
    | Succeed(action: Action)
    | Invalidate
    | Fail

  function After(s: State, op: Op): State {
    match op
    case Prepare(action, key, cached) => s.AfterPrepare(action, key, cached)
    case Succeed(action) => s.AfterSuccess(action)
    case Invalidate => s.AfterInvalidation()
    case Fail => s.AfterFailure()
  }

  function Run(s: State, ops: seq<Op>): State {
    if ops == [] then s else After(Run(s, ops[..|ops| - 1]), ops[|ops| - 1])
  }

  // How many operations of a run satisfy `what`, given the state each met.
  ghost function Count(s: State, ops: seq<Op>, what: (State, Op) -> bool): nat {
    if ops == [] then 0
    else
      var n := |ops| - 1;
      Count(s, ops[..n], what) + (if what(Run(s, ops[..n]), ops[n]) then 1 else 0)
  }

  predicate Allowed(s: State, op: Op) {
    op.Prepare? && s.Refused(op.action, op.key, op.cached).None?
  }

  // An actual backend lookup.
  predicate Lookup(s: State, op: Op) {
    Allowed(s, op) && !op.cached && (op.action == Context || op.action == ReadFacts)
  }

  // An actual change or delegation.
  predicate Write(s: State, op: Op) {
    Allowed(s, op) && !op.cached && op.action in {PrepareChange, Commit, Delegate}
  }

  // A pass that reached a tool or the cache with context loaded, allowed or not.
  predicate LoadedPass(s: State, op: Op) {
    op.Prepare? && op.action != Publish && s.contextLoaded && s.RefusedEarly(op.action).None?
  }

  ghost function CachedReuse(key: string): (State, Op) -> bool {
    (s, op) => Allowed(s, op) && op.action != Publish && op.cached && op.key == key
  }

  ghost predicate WithinBudget(s: State) {
    && s.lookups <= ReadLimit(s.role)
    && s.writes <= WriteLimit(s.role)
    && s.recoveryContexts <= RECOVERY_LIMIT
    && (s.recoveryContexts > 0 ==> s.lookups == ReadLimit(s.role))
  }

  // One operation: the counters move exactly with the lookups and writes made.
  lemma StepCounts(s: State, op: Op)
    requires WithinBudget(s)
    ensures var t := After(s, op);
            && WithinBudget(t) && t.role == s.role
            && t.lookups + t.recoveryContexts == s.lookups + s.recoveryContexts + (if Lookup(s, op) then 1 else 0)
            && t.writes == s.writes + (if Write(s, op) then 1 else 0)
  {
  }

  // The counters are the truth about the whole run: lookups made are exactly
  // `lookups + recoveryContexts`, writes made exactly `writes`.
  lemma {:induction false} CountersCountTheRun(role: Role, ops: seq<Op>)
    ensures var s := Run(Start(role), ops);
            && WithinBudget(s) && s.role == role
            && Count(Start(role), ops, Lookup) == s.lookups + s.recoveryContexts
            && Count(Start(role), ops, Write) == s.writes
  {
    if ops != [] {
      var n := |ops| - 1;
      CountersCountTheRun(role, ops[..n]);
      StepCounts(Run(Start(role), ops[..n]), ops[n]);
    }
  }

  lemma StepReuses(s: State, op: Op, key: string)
    ensures After(s, op).Repeats(key)
            == if op.Prepare? && op.action != Publish && op.cached && op.key == key && s.RefusedEarly(op.action).None?
               then SaturatingAddOne(s.Repeats(key)) else s.Repeats(key)
    ensures CachedReuse(key)(s, op)
            <==> After(s, op).Repeats(key) != s.Repeats(key) && s.Repeats(key) < REPEAT_LIMIT
  {
  }

  // A key's cached result is reused at most twice.
  lemma {:induction false} CacheReuseIsBounded(role: Role, ops: seq<Op>, key: string)
    ensures var repeats := Run(Start(role), ops).Repeats(key);
            Count(Start(role), ops, CachedReuse(key)) == (if repeats < REPEAT_LIMIT then repeats else REPEAT_LIMIT)
  {
    if ops != [] {
      var n := |ops| - 1;
      CacheReuseIsBounded(role, ops[..n], key);
      StepReuses(Run(Start(role), ops[..n]), ops[n], key);
    }
  }

  lemma StepAttempts(s: State, op: Op)
    ensures s.attempts <= After(s, op).attempts
    ensures LoadedPass(s, op) ==> s.attempts < ATTEMPT_LIMIT && After(s, op).attempts == s.attempts + 1
  {
  }

  lemma {:induction false} LoadedPassesAreBounded(role: Role, ops: seq<Op>)
    ensures var passes := Count(Start(role), ops, LoadedPass);
            passes <= ATTEMPT_LIMIT && passes <= Run(Start(role), ops).attempts
  {
    if ops != [] {
      var n := |ops| - 1;
      LoadedPassesAreBounded(role, ops[..n]);
      StepAttempts(Run(Start(role), ops[..n]), ops[n]);
    }
  }

  // The bound needs the context to be loaded: cached context loads before the
  // first result cost attempts but no reserve, so attempts themselves pass 24.
  lemma {:induction false} CachedRefreshesPassTheLimit(role: Role, key: string, n: U8)
    ensures var s := Run(Start(role), seq(n, _ => Prepare(Context, key, true)));
            && s.attempts == n && !s.contextLoaded && s.recoveryContexts == 0 && s.node == AtContext
  {
    if n > 0 {
      CachedRefreshesPassTheLimit(role, key, n - 1);
      var ops := seq(n, _ => Prepare(Context, key, true));
      assert ops[..n - 1] == seq(n - 1, _ => Prepare(Context, key, true));
    }
  }

  // A context load that goes beyond the attempt limit.
  predicate Beyond(s: State, op: Op) {
    && op.Prepare? && op.action == Context
    && s.node != Done && !s.contextLoaded && s.recoveryContexts < RECOVERY_LIMIT
    && ATTEMPT_LIMIT <= s.attempts < 255
  }

  lemma StepBeyond(s: State, op: Op)
    ensures SaturatingSub(After(s, op).attempts, ATTEMPT_LIMIT)
            == SaturatingSub(s.attempts, ATTEMPT_LIMIT) + (if Beyond(s, op) then 1 else 0)
  {
  }

  // What is spent past the limit is exactly the context loads made there without
  // context and with reserve left, up to the width of the counter; so the limit is
  // passed exactly when there is such a load.
  lemma {:induction false} LimitPassedExactly(role: Role, ops: seq<Op>)
    ensures Count(Start(role), ops, Beyond) == SaturatingSub(Run(Start(role), ops).attempts, ATTEMPT_LIMIT)
    ensures Run(Start(role), ops).attempts > ATTEMPT_LIMIT <==> Count(Start(role), ops, Beyond) > 0
  {
    if ops != [] {
      var n := |ops| - 1;
      LimitPassedExactly(role, ops[..n]);
      StepBeyond(Run(Start(role), ops[..n]), ops[n]);
    }
  }

  // Every budget, over every run.
  lemma Budgets(role: Role, ops: seq<Op>, key: string)
    ensures Count(Start(role), ops, Lookup) <= ReadLimit(role) + RECOVERY_LIMIT
    ensures Count(Start(role), ops, Write) <= WriteLimit(role)
    ensures Count(Start(role), ops, CachedReuse(key)) <= REPEAT_LIMIT
    ensures Count(Start(role), ops, LoadedPass) <= ATTEMPT_LIMIT
  {
    CountersCountTheRun(role, ops);
    CacheReuseIsBounded(role, ops, key);
    LoadedPassesAreBounded(role, ops);
  }

  // No operation gives a budget back, and a refusal spends no lookup or write.
  lemma NothingIsRefunded(s: State, op: Op, key: string)
    ensures var t := After(s, op);
            && t.role == s.role
            && s.lookups <= t.lookups && s.writes <= t.writes && s.attempts <= t.attempts
            && s.recoveryContexts <= t.recoveryContexts && s.Repeats(key) <= t.Repeats(key)
            && (op.Prepare? && !Allowed(s, op) ==>
                  t.lookups == s.lookups && t.writes == s.writes && t.recoveryContexts == s.recoveryContexts
                  && t.node == s.node)
  {
  }

  // Context is loaded exactly when a context result has arrived since the last invalidation.
  lemma {:induction false} ContextLoadedExactly(role: Role, ops: seq<Op>)
    ensures Run(Start(role), ops).contextLoaded
            <==> exists i | 0 <= i < |ops| :: ops[i] == Succeed(Context)
                   && forall j | i < j < |ops| :: ops[j] != Invalidate
  {
    if ops != [] {
      var n := |ops| - 1;
      ContextLoadedExactly(role, ops[..n]);
      var before, last := Run(Start(role), ops[..n]), ops[n];
      if last == Succeed(Context) {
        assert ops[n] == Succeed(Context);
      } else if last != Invalidate {
        assert Run(Start(role), ops).contextLoaded == before.contextLoaded;
        assert forall i | 0 <= i < n :: ops[..n][i] == ops[i];
        if before.contextLoaded {
          var i :| 0 <= i < n && ops[..n][i] == Succeed(Context)
                   && forall j | i < j < n :: ops[..n][j] != Invalidate;
          assert ops[i] == Succeed(Context) && forall j | i < j < |ops| :: ops[j] != Invalidate;
        }
      }
    }
  }

  // Who may do what, over every run: only Fizz delegates, Fizz and the analyst
  // change no domain data, and nothing but a context load is allowed, cached or
  // not, unless a context result arrived and was not invalidated since.
  lemma RolesKeepTheirPlace(role: Role, ops: seq<Op>, i: nat)
    requires i < |ops| && Allowed(Run(Start(role), ops[..i]), ops[i])
    ensures ops[i].action == Delegate && !ops[i].cached ==> role == Fizz
    ensures ops[i].action in {PrepareChange, Commit} && !ops[i].cached ==> role != Fizz && role != Analyst
    ensures ops[i].action != Context ==>
              exists k | 0 <= k < i :: ops[k] == Succeed(Context) && forall j | k < j < i :: ops[j] != Invalidate
  {
    CountersCountTheRun(role, ops[..i]);
    ContextLoadedExactly(role, ops[..i]);
    if ops[i].action != Context {
      var before := ops[..i];
      var k :| 0 <= k < i && before[k] == Succeed(Context) && forall j | k < j < i :: before[j] != Invalidate;
      assert ops[k] == Succeed(Context) && forall j | k < j < i :: ops[j] == before[j];
    }
  }

  // The remaining budgets tell when an uncached action is refused for want of
  // budget, in every reachable state with context loaded.
  lemma RemainingIsExact(role: Role, ops: seq<Op>, key: string)
    requires var s := Run(Start(role), ops); s.contextLoaded && s.node != Done
    ensures var s := Run(Start(role), ops);
            && (s.Refused(ReadFacts, key, false) == Some(AttemptLimit) <==> s.RemainingAttempts() == 0)
            && (s.Refused(ReadFacts, key, false) == Some(LookupLimit)
                <==> s.RemainingAttempts() > 0 && s.RemainingReads() == 0)
            && (s.Refused(if role == Fizz then Delegate else PrepareChange, key, false) == Some(ActionLimit)
                <==> s.RemainingAttempts() > 0 && role != Analyst && s.RemainingWrites() == 0)
            && Count(Start(role), ops, Write) + s.RemainingWrites() == WriteLimit(role)
            && Count(Start(role), ops, Lookup) + s.RemainingReads() == ReadLimit(role) + s.recoveryContexts
  {
    CountersCountTheRun(role, ops);
  }

  // ---------- getting out ----------

  // Exactly when a fresh, uncached context load is allowed in a reachable state.
  lemma ContextAllowedExactly(role: Role, ops: seq<Op>, key: string)
    ensures var s := Run(Start(role), ops);
            s.Refused(Context, key, false).None?
            <==> s.node != Done
                 && if s.contextLoaded then s.attempts < ATTEMPT_LIMIT && s.lookups < ReadLimit(role)
                    else s.recoveryContexts < RECOVERY_LIMIT
  {
    CountersCountTheRun(role, ops);
  }

  // However much budget is spent, a turn that has not replied can either reply
  // at once, or reply after one more context load, or has used both reserves.
  // In the last case no uncached load is left, and a cached one only while
  // attempts and repeats remain.
  lemma Escape(role: Role, ops: seq<Op>, key: string)
    requires Run(Start(role), ops).node != Done
    ensures var s := Run(Start(role), ops);
            if s.contextLoaded then s.Refused(Publish, key, false).None?
            else if s.recoveryContexts < RECOVERY_LIMIT then
              && s.Refused(Context, key, false).None?
              && s.AfterPrepare(Context, key, false).AfterSuccess(Context).Refused(Publish, key, false).None?
            else
              && s.recoveryContexts == RECOVERY_LIMIT
              && s.Refused(Context, key, false).Some?
              && (s.Refused(Context, key, true).None?
                  <==> s.attempts < ATTEMPT_LIMIT && s.Repeats(key) < REPEAT_LIMIT)
  {
    CountersCountTheRun(role, ops);
  }

  // ---------- after the reply ----------

  // Once a reply is committed every preparation is refused and changes nothing.
  lemma {:induction false} DoneIsFinalForPreparations(s: State, ops: seq<Op>)
    requires s.node == Done && forall op | op in ops :: op.Prepare?
    ensures Run(s, ops) == s
    ensures forall what: (State, Op) -> bool | (forall t, op :: what(t, op) ==> Allowed(t, op)) ::
              Count(s, ops, what) == 0
  {
    if ops != [] {
      var n := |ops| - 1;
      assert ops == ops[..n] + [ops[n]];
      DoneIsFinalForPreparations(s, ops[..n]);
    }
  }

  // One step: only a published reply enters `Done`, only preparations and further
  // publications stay there.
  lemma DoneStep(s: State, op: Op)
    ensures After(s, op).node == Done <==> op == Succeed(Publish) || (s.node == Done && op.Prepare?)
  {
  }

  // Over every run: the graph is done exactly when a reply was published and
  // nothing but preparations and publications followed it.
  lemma {:induction false} DoneExactly(role: Role, ops: seq<Op>)
    ensures Run(Start(role), ops).node == Done
            <==> exists i | 0 <= i < |ops| :: ops[i] == Succeed(Publish)
                   && forall j | i < j < |ops| :: ops[j].Prepare? || ops[j] == Succeed(Publish)
  {
    if ops != [] {
      var n := |ops| - 1;
      DoneExactly(role, ops[..n]);
      DoneStep(Run(Start(role), ops[..n]), ops[n]);
      assert forall i | 0 <= i < n :: ops[..n][i] == ops[i];
      if ops[n] == Succeed(Publish) {
        assert ops[n] == Succeed(Publish);
      } else if Run(Start(role), ops).node == Done {
        var i :| 0 <= i < n && ops[..n][i] == Succeed(Publish)
                 && forall j | i < j < n :: ops[..n][j].Prepare? || ops[..n][j] == Succeed(Publish);
        assert ops[i] == Succeed(Publish)
               && forall j | i < j < |ops| :: ops[j].Prepare? || ops[j] == Succeed(Publish);
      }
    }
  }

  // ---------- what is allowed, in figures ----------

  // Exactly when a preparation is allowed in a reachable state, action by action.
  lemma AllowedExactly(role: Role, ops: seq<Op>, action: Action, key: string)
    ensures var s := Run(Start(role), ops);
            var lookupsLeft := s.lookups < (if role == ParentAdministrator then 6 else 8);
            && (action == ReadFacts ==>
                  (s.Refused(action, key, false).None? <==>
                     s.node != Done && s.contextLoaded && s.attempts < 24 && lookupsLeft))
            && (action == PrepareChange || action == Commit ==>
                  (s.Refused(action, key, false).None? <==>
                     && s.node != Done && s.contextLoaded && s.attempts < 24
                     && (role == Administrator || role == ContentMarketer || role == ParentAdministrator)
                     && s.writes < 4))
            && (action == Delegate ==>
                  (s.Refused(action, key, false).None? <==>
                     s.node != Done && s.contextLoaded && s.attempts < 24 && role == Fizz && s.writes < 3))
            && (action == Context ==>
                  (s.Refused(action, key, false).None? <==>
                     && s.node != Done
                     && (if s.contextLoaded || s.recoveryContexts >= 2 then s.attempts < 24 && lookupsLeft else true)))
            && (action != Publish ==>
                  (s.Refused(action, key, true).None? <==>
                     && s.node != Done
                     && (s.contextLoaded || action == Context)
                     && (s.attempts < 24 || (!s.contextLoaded && s.recoveryContexts < 2))
                     && (key in s.repeats ==> s.repeats[key] < 2)))
            && (action == Publish ==>
                  forall cached :: s.Refused(action, key, cached).None? <==> s.node != Done && s.contextLoaded)
  {
    CountersCountTheRun(role, ops);
  }

  // The reason given for a refusal, the first of these that holds.
  lemma RefusedBecause(role: Role, ops: seq<Op>, action: Action, key: string, cached: bool)
    ensures var s := Run(Start(role), ops);
            var refused := s.Refused(action, key, cached);
            var spent := s.attempts >= 24 && (action != Context || s.contextLoaded || s.recoveryContexts >= 2);
            && (refused == Some(AlreadyReplied) <==> s.node == Done)
            && (refused == Some(ReplyNeedsContext) <==> s.node != Done && action == Publish && !s.contextLoaded)
            && (refused == Some(NeedsContext) <==>
                  s.node != Done && action != Publish && action != Context && !s.contextLoaded)
            && (refused == Some(AttemptLimit) <==>
                  s.node != Done && action != Publish && (s.contextLoaded || action == Context) && spent)
            && (refused.Some? && s.node != Done && action != Publish && (s.contextLoaded || action == Context) && !spent ==>
                  if cached then refused == Some(StopRepeating) && key in s.repeats && s.repeats[key] >= 2
                  else match action
                    case Context => refused == Some(LookupLimit)
                    case ReadFacts => refused == Some(LookupLimit)
                    case Delegate => refused == Some(if role == Fizz then ActionLimit else OnlyFizzDelegates)
                    case _ => refused == Some(if role == Fizz || role == Analyst then RoleDoesNotMutate else ActionLimit))
  {
    CountersCountTheRun(role, ops);
  }

  // What a preparation costs: an attempt unless it was refused before one was taken;
  // and one more use of its key when it came from the cache.
  lemma CostsExactly(s: State, action: Action, key: string, cached: bool, other: string)
    ensures var t := After(s, Prepare(action, key, cached));
            var refused := s.Refused(action, key, cached);
            var paid := action != Publish && refused != Some(AlreadyReplied)
                        && refused != Some(NeedsContext) && refused != Some(AttemptLimit);
            && t.attempts == (if paid && s.attempts < 255 then s.attempts + 1 else s.attempts)
            && t.Repeats(other) ==
                 (if paid && cached && other == key && s.Repeats(other) < 255 then s.Repeats(other) + 1 else s.Repeats(other))
            && t.contextLoaded == s.contextLoaded
  {
  }

  // Where an operation moves the graph, if it does.
  ghost predicate MovesTo(s: State, op: Op, node: Node) {
    match op
    case Prepare(action, key, cached) =>
      && s.Refused(action, key, cached).None? && !cached
      && (action == Context ==> node == AtContext)
      && (action == ReadFacts ==> node == Read)
      && (action == PrepareChange || action == Commit || action == Delegate ==> node == Act)
      && action != Publish
    case Succeed(action) =>
      && (action == Context || action == ReadFacts ==> node == Decide)
      && (action == PrepareChange ==> node == AwaitConfirmation)
      && (action == Commit || action == Delegate ==> node == Reply)
      && (action == Publish ==> node == Done)
    case Invalidate => node == AtContext
    case Fail => node == Recovery
  }

  ghost predicate Stays(s: State, op: Op) {
    op.Prepare? && (op.cached || op.action == Publish || s.Refused(op.action, op.key, op.cached).Some?)
  }

  lemma StepMoves(s: State, op: Op)
    ensures if Stays(s, op) then After(s, op).node == s.node else MovesTo(s, op, After(s, op).node)
  {
  }

  // No operation from the `from`-th on moves the graph.
  ghost predicate StaysFrom(role: Role, ops: seq<Op>, from: nat) {
    forall j | from <= j < |ops| :: Stays(Run(Start(role), ops[..j]), ops[j])
  }

  lemma StaysOneMore(role: Role, ops: seq<Op>, from: nat)
    requires from < |ops| && StaysFrom(role, ops[..|ops| - 1], from)
    requires Stays(Run(Start(role), ops[..|ops| - 1]), ops[|ops| - 1])
    ensures StaysFrom(role, ops, from)
  {
    hide Stays;
    var n := |ops| - 1;
    forall j | from <= j < |ops|
      ensures Stays(Run(Start(role), ops[..j]), ops[j])
    {
      if j < n {
        assert ops[..n][..j] == ops[..j] && ops[..n][j] == ops[j];
      }
    }
  }

  // The `i`-th operation moved the graph to `node`, and none since moved it.
  ghost predicate MovedLast(role: Role, ops: seq<Op>, i: nat, node: Node) {
    && i < |ops|
    && MovesTo(Run(Start(role), ops[..i]), ops[i], node)
    && StaysFrom(role, ops, i + 1)
  }

  // Over every run the graph stands where the last operation that moved it put it.
  lemma {:induction false} NodeFollowsTheLastMove(role: Role, ops: seq<Op>)
    ensures var node := Run(Start(role), ops).node;
            (node == AtContext && StaysFrom(role, ops, 0)) || exists i: nat :: MovedLast(role, ops, i, node)
  {
    hide Stays, MovesTo, After;
    if ops != [] {
      var n := |ops| - 1;
      var before := ops[..n];
      var s, node := Run(Start(role), before), Run(Start(role), ops).node;
      assert Run(Start(role), ops) == After(s, ops[n]);
      NodeFollowsTheLastMove(role, before);
      StepMoves(s, ops[n]);
      if !Stays(s, ops[n]) {
        assert MovesTo(Run(Start(role), ops[..n]), ops[n], node);
        assert StaysFrom(role, ops, n + 1);
        assert MovedLast(role, ops, n, node);
      } else if s.node == AtContext && StaysFrom(role, before, 0) {
        StaysOneMore(role, ops, 0);
      } else {
        var i: nat :| MovedLast(role, before, i, s.node);
        assert before[..i] == ops[..i] && before[i] == ops[i];
        StaysOneMore(role, ops, i + 1);
        assert MovedLast(role, ops, i, node);
      }
    }
  }
}
