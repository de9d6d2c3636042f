// The lazy agent-pool lifecycle (crates/buzz-acp/src/pool_lifecycle.rs).
// Clock readings are natural numbers of nanoseconds.
module PoolLifecycle {
  import opened Wrappers

  const U32_MAX: nat := 0xFFFF_FFFF
  const U64_MAX: nat := 0xFFFF_FFFF_FFFF_FFFF
  const INITIAL_RETRY_DELAY: nat := 5
  const MAX_RETRY_DELAY: nat := 300
  const SECOND: nat := 1_000_000_000

  type U32 = n: nat | n <= U32_MAX

  function Min(a: nat, b: nat): nat {
    if a <= b then a else b
  }

  function Pow2(e: nat): (p: nat)
    ensures p > 0
  {
    if e == 0 then 1 else 2 * Pow2(e - 1)
  }

  // One shifted left in 64 bits: nothing when the shift is too wide.
  function CheckedShiftOne(e: U32): Option<nat> {
    if e < 64 then Some(Pow2(e) % (U64_MAX + 1)) else None
  }

  // Seconds to wait after a failed attempt.
  function RetryDelay(attempt: U32): nat {
    var exponent := Min(if attempt == 0 then 0 else attempt - 1, 63);
    var multiplier := CheckedShiftOne(exponent).GetOr(U64_MAX);
    Min(Min(INITIAL_RETRY_DELAY * multiplier, U64_MAX), MAX_RETRY_DELAY)
  }

  lemma {:induction false} Pow2Adds(a: nat, b: nat)
    ensures Pow2(a + b) == Pow2(a) * Pow2(b)
  {
    if a > 0 {
      Pow2Adds(a - 1, b);
      assert (a - 1) + b == a + b - 1;
    }
  }

  // The fixed-width arithmetic never shows: five seconds doubled at every failure, capped.
  lemma RetryDelayIsCappedDoubling(n: U32)
    requires n >= 1
    ensures RetryDelay(n) == Min(INITIAL_RETRY_DELAY * Pow2(n - 1), MAX_RETRY_DELAY)
  {
    var exponent := Min(n - 1, 63);
    ShiftIsPow2(exponent);
    if n <= 6 {
      Pow2Small(n - 1);
    } else {
      Pow2AtLeast64(n - 1);
      Pow2AtLeast64(exponent);
    }
  }

  lemma ShiftIsPow2(e: U32)
    requires e <= 63
    ensures CheckedShiftOne(e) == Some(Pow2(e))
  {
    Pow2Fits(e);
    assert Pow2(e) % (U64_MAX + 1) == Pow2(e);
  }

  lemma Pow2AtLeast64(e: nat)
    requires e >= 6
    ensures Pow2(e) >= 64
  {
    assert Pow2(6) == 64;
    Pow2Adds(6, e - 6);
    Product(64, Pow2(e - 6));
  }

  lemma Pow2Fits(e: nat)
    requires e <= 63
    ensures Pow2(e) <= U64_MAX
  {
    Pow2Of63();
    Pow2Adds(e, 63 - e);
    Product(Pow2(e), Pow2(63 - e));
  }

  lemma Product(a: nat, b: nat)
    requires b >= 1
    ensures a <= a * b
  {
  }

  lemma Pow2Of63()
    ensures Pow2(63) == 0x8000_0000_0000_0000
  {
    assert Pow2(16) == 0x1_0000;
    Pow2Adds(16, 16);
    Pow2Adds(32, 16);
    assert Pow2(15) == 0x8000;
    Pow2Adds(48, 15);
  }

  lemma Pow2Small(e: nat)
    requires e < 6
    ensures Pow2(e) <= 32
  {
    Pow2Adds(e, 5 - e);
    Product(Pow2(e), Pow2(5 - e));
    assert Pow2(5) == 32;
  }

  // --- the state machine --------------------------------------------------------

  type Pool = nat

  datatype State =
    | Listening
    | Waking(attempt: U32)
    | Ready(pool: Pool)
    | Failed(attempt: U32, retryAt: nat, error: string)
  {
    function NextAttempt(now: nat): Option<U32> {
      match this
      case Listening => Some(1)
      case Failed(attempt, retryAt, _) =>
        if now >= retryAt then Some(Min(attempt + 1, U32_MAX)) else None
      case _ => None
    }
  }

  const NOT_MATCHING := "wake result attempt did not match Waking attempt"
  const NOT_WAKING := "wake completed while lifecycle was not Waking"

  type WakeResult = Result<Pool, string>

  class PoolLifecycle {
    var state: State

    constructor ()
      ensures state == Listening
    {
      state := Listening;
    }

    method StartWakeIfDue(hasPendingWork: bool, now: nat) returns (token: Option<U32>)
      modifies this
      ensures (state, token) == Start(old(state), hasPendingWork, now)
    {
      if !hasPendingWork {
        return None;
      }
      token := None;
      match state {
        case Listening => token := Some(1);
        case Failed(attempt, retryAt, _) =>
          if now >= retryAt {
            token := Some(Min(attempt + 1, U32_MAX));
          }
        case _ =>
      }
      if token.Some? {
        state := Waking(token.value);
      }
    }

    // Takes the value out, and puts it back when it was not a pool.
    method TakeReady() returns (pool: Option<Pool>)
      modifies this
      ensures (state, pool) == Take(old(state))
    {
      var other := state;
      state := Listening;
      if other.Ready? {
        pool := Some(other.pool);
      } else {
        state := other;
        pool := None;
      }
    }

    method CancelWake(attempt: U32, error: string, now: nat) returns (cancelled: bool)
      modifies this
      ensures cancelled == (old(state) == Waking(attempt))
      ensures state == if cancelled then Failed(attempt, now + SECOND * RetryDelay(attempt), error) else old(state)
    {
      var outcome := CompleteWake(attempt, Failure(error), now);
      cancelled := outcome.Success?;
    }

    method CompleteWake(completedAttempt: U32, result: WakeResult, now: nat) returns (outcome: Result<(), string>)
      modifies this
      ensures (state, outcome) == Complete(old(state), completedAttempt, result, now)
    {
      var attempt;
      if state.Waking? && state.attempt == completedAttempt {
        attempt := state.attempt;
      } else if state.Waking? {
        return Failure(NOT_MATCHING);
      } else {
        return Failure(NOT_WAKING);
      }
      match result {
        case Success(pool) => state := Ready(pool);
        case Failure(error) => state := Failed(attempt, now + SECOND * RetryDelay(attempt), error);
      }
      outcome := Success(());
    }
  }

  // --- one call as a function of the state --------------------------------------

  function Start(s: State, hasPendingWork: bool, now: nat): (State, Option<U32>) {
    var token := if hasPendingWork then s.NextAttempt(now) else None;
    (if token.Some? then Waking(token.value) else s, token)
  }

  function Take(s: State): (State, Option<Pool>) {
    if s.Ready? then (Listening, Some(s.pool)) else (s, None)
  }

  function Complete(s: State, attempt: U32, result: WakeResult, now: nat): (State, Result<(), string>) {
    if s != Waking(attempt) then
      (s, Failure(if s.Waking? then NOT_MATCHING else NOT_WAKING))
    else
      (match result
       case Success(pool) => Ready(pool)
       case Failure(error) => Failed(attempt, now + SECOND * RetryDelay(attempt), error),
       Success(()))
  }

  // --- runs ----------------------------------------------------------------------

  // A call and the clock it reads. A cancelled wake completes with a failure.
  datatype Call =
    | StartCall(hasPendingWork: bool, now: nat)
    | CompleteCall(attempt: U32, result: WakeResult, now: nat)
    | TakeCall(now: nat)

  // What a caller can write down from the answers it is given.
  //   wakes: clock readings of the wakes begun since the last pool was taken
  //   positions: for every wake ever begun, its place in that list, counted from one
  datatype Log = Log(wakes: seq<nat>, positions: seq<nat>, failures: nat, accepted: seq<Pool>, taken: seq<Pool>)

  datatype Run = Run(state: State, log: Log)

  const FRESH := Run(Listening, Log([], [], 0, [], []))

  function Step(r: Run, call: Call): Run {
    match call
    case StartCall(pending, now) =>
      var (s, token) := Start(r.state, pending, now);
      Run(s, if token.None? then r.log else
        r.log.(wakes := r.log.wakes + [now], positions := r.log.positions + [|r.log.wakes| + 1]))
    case CompleteCall(attempt, result, now) =>
      var (s, outcome) := Complete(r.state, attempt, result, now);
      Run(s, if outcome.Failure? then r.log
        else if result.Success? then r.log.(accepted := r.log.accepted + [result.value])
        else r.log.(failures := r.log.failures + 1))
    case TakeCall(_) =>
      var (s, pool) := Take(r.state);
      Run(s, if pool.None? then r.log else r.log.(taken := r.log.taken + [pool.value], wakes := []))
  }

  function After(calls: seq<Call>): Run {
    if calls == [] then FRESH else Step(After(calls[..|calls| - 1]), calls[|calls| - 1])
  }

  ghost predicate ClockNeverFalls(calls: seq<Call>) {
    forall i, j :: 0 <= i < j < |calls| ==> calls[i].now <= calls[j].now
  }

  // The token the n-th wake since listening is given.
  function Token(n: nat): U32 {
    Min(n, U32_MAX)
  }

  // --- what every run keeps --------------------------------------------------------

  // Each wake follows the one before it by at least the delay of its attempt.
  ghost predicate Spaced(wakes: seq<nat>) {
    forall i :: 0 < i < |wakes| ==> wakes[i] >= wakes[i - 1] + SECOND * RetryDelay(Token(i))
  }

  ghost predicate Coherent(r: Run, now: nat) {
    var n := |r.log.wakes|;
    && Spaced(r.log.wakes)
    && (n > 0 ==> r.log.wakes[n - 1] <= now)
    && (r.state.Listening? <==> n == 0)
    && (r.state.Waking? ==> r.state.attempt == Token(n))
    && (r.state.Failed? ==>
          && r.state.attempt == Token(n)
          && r.state.retryAt >= r.log.wakes[n - 1] + SECOND * RetryDelay(Token(n)))
    && (n > 0 ==> |r.log.positions| > 0 && r.log.positions[|r.log.positions| - 1] == n)
  }

  lemma SpacedAppend(wakes: seq<nat>, now: nat)
    requires Spaced(wakes)
    requires |wakes| > 0 ==> now >= wakes[|wakes| - 1] + SECOND * RetryDelay(Token(|wakes|))
    ensures Spaced(wakes + [now])
  {
    hide RetryDelay;
  }

  lemma StartKeepsCoherent(r: Run, pending: bool, at: nat, now: nat)
    requires Coherent(r, now) && now <= at
    ensures Coherent(Step(r, StartCall(pending, at)), at)
  {
    hide RetryDelay, Spaced;
    if Start(r.state, pending, at).1.Some? {
      SpacedAppend(r.log.wakes, at);
    }
  }

  lemma CompleteKeepsCoherent(r: Run, attempt: U32, result: WakeResult, at: nat, now: nat)
    requires Coherent(r, now) && now <= at
    ensures Coherent(Step(r, CompleteCall(attempt, result, at)), at)
  {
    hide RetryDelay, Spaced;
  }

  lemma TakeKeepsCoherent(r: Run, at: nat, now: nat)
    requires Coherent(r, now) && now <= at
    ensures Coherent(Step(r, TakeCall(at)), at)
  {
  }

  lemma StepKeepsCoherent(r: Run, call: Call, now: nat)
    requires Coherent(r, now) && now <= call.now
    ensures Coherent(Step(r, call), call.now)
  {
    hide Coherent, Step;
    match call
    case StartCall(pending, at) => StartKeepsCoherent(r, pending, at, now);
    case CompleteCall(attempt, result, at) => CompleteKeepsCoherent(r, attempt, result, at, now);
    case TakeCall(at) => TakeKeepsCoherent(r, at, now);
  }

  lemma {:induction false} RunsAreCoherent(calls: seq<Call>)
    requires ClockNeverFalls(calls)
    ensures Coherent(After(calls), if calls == [] then 0 else calls[|calls| - 1].now)
  {
    if calls != [] {
      var before := calls[..|calls| - 1];
      RunsAreCoherent(before);
      StepKeepsCoherent(After(before), calls[|calls| - 1], if before == [] then 0 else before[|before| - 1].now);
    }
  }

  // Seconds the first n - 1 delays add up to.
  function Backoff(n: nat): nat
    requires n >= 1
  {
    if n <= 7 then 5 * (Pow2(n - 1) - 1) else 315 + 300 * (n - 7)
  }

  lemma BackoffGrows(n: nat)
    requires n >= 1
    ensures Backoff(n) + RetryDelay(Token(n)) == Backoff(n + 1)
  {
    RetryDelayIsCappedDoubling(Token(n));
    if n <= 6 {
      Pow2Small(n - 1);
    } else {
      assert Pow2(6) == 64;
      Pow2AtLeast64(Token(n) - 1);
    }
  }

  // The n-th wake since listening is at least the sum of the delays after the first.
  lemma {:induction false} WakesBackOff(wakes: seq<nat>, n: nat)
    requires Spaced(wakes) && 1 <= n <= |wakes|
    ensures wakes[n - 1] >= wakes[0] + SECOND * Backoff(n)
  {
    if n == 1 {
      assert Pow2(0) == 1;
    } else {
      WakesBackOff(wakes, n - 1);
      BackoffGrows(n - 1);
      assert wakes[n - 1] >= wakes[n - 2] + SECOND * RetryDelay(Token(n - 1));
    }
  }

  lemma WakesAreSpacedOut(calls: seq<Call>, n: nat)
    requires ClockNeverFalls(calls)
    requires 1 <= n <= |After(calls).log.wakes|
    ensures var wakes := After(calls).log.wakes;
      wakes[n - 1] >= wakes[0] + SECOND * if n <= 7 then 5 * (Pow2(n - 1) - 1) else 315 + 300 * (n - 7)
  {
    RunsAreCoherent(calls);
    WakesBackOff(After(calls).log.wakes, n);
  }

  // Whether a wake may begin is decided by the wakes alone: none while one is under way or a
  // pool waits, and after n failures in a row only once the delay of the n-th has passed.
  lemma NoEarlyWake(calls: seq<Call>, now: nat)
    requires ClockNeverFalls(calls)
    ensures var r := After(calls); var n := |r.log.wakes|;
      Start(r.state, true, now).1.Some? && n > 0 ==>
        && r.state.Failed?
        && now >= r.log.wakes[n - 1] + SECOND * RetryDelay(Token(n))
        && Start(r.state, true, now).1.value == Token(n + 1)
  {
    RunsAreCoherent(calls);
  }

  // Every wake begun fails, is accepted or is still under way; every accepted pool is taken,
  // in the order of acceptance, or is the one that waits. So a waiting pool is never
  // replaced, and none is taken twice.
  lemma {:induction false} NothingIsLost(calls: seq<Call>)
    ensures var r := After(calls);
      && |r.log.positions| == r.log.failures + |r.log.accepted| + (if r.state.Waking? then 1 else 0)
      && r.log.accepted == r.log.taken + (if r.state.Ready? then [r.state.pool] else [])
  {
    if calls != [] {
      NothingIsLost(calls[..|calls| - 1]);
      StepLosesNothing(After(calls[..|calls| - 1]), calls[|calls| - 1]);
    }
  }

  lemma StepLosesNothing(r: Run, call: Call)
    requires |r.log.positions| == r.log.failures + |r.log.accepted| + (if r.state.Waking? then 1 else 0)
    requires r.log.accepted == r.log.taken + (if r.state.Ready? then [r.state.pool] else [])
    ensures var q := Step(r, call);
      && |q.log.positions| == q.log.failures + |q.log.accepted| + (if q.state.Waking? then 1 else 0)
      && q.log.accepted == q.log.taken + (if q.state.Ready? then [q.state.pool] else [])
  {
    match call {
      case StartCall(_, _) =>
      case CompleteCall(_, _, _) =>
      case TakeCall(_) =>
        if r.state.Ready? {
          assert r.log.taken + [r.state.pool] == r.log.accepted;
        }
    }
  }

  // A waiting pool stays until it is taken.
  lemma ReadyIsNeverReplaced(r: Run, call: Call)
    requires r.state.Ready?
    ensures Step(r, call).state == if call.TakeCall? then Listening else r.state
    ensures !call.TakeCall? ==> Step(r, call) == r
  {
  }

  // --- late results ----------------------------------------------------------------

  // The result of the i-th wake ever begun changes the state exactly when a wake is under
  // way whose token is that wake's token.
  lemma LateResult(calls: seq<Call>, i: nat, result: WakeResult, now: nat)
    requires ClockNeverFalls(calls)
    requires i < |After(calls).log.positions|
    ensures var r := After(calls); var p := r.log.positions;
      (Step(r, CompleteCall(Token(p[i]), result, now)) != r) ==
      (r.state.Waking? && Token(p[i]) == Token(p[|p| - 1]))
  {
    RunsAreCoherent(calls);
  }

  // Positions count up from one and start again at one.
  ghost predicate Counted(positions: seq<nat>) {
    forall i :: 0 <= i < |positions| ==>
      positions[i] == 1 || (i > 0 && positions[i] == positions[i - 1] + 1)
  }

  lemma {:induction false} PositionsAreCounted(calls: seq<Call>)
    ensures var log := After(calls).log;
      && Counted(log.positions)
      && (|log.wakes| > 0 ==> |log.positions| > 0 && log.positions[|log.positions| - 1] == |log.wakes|)
  {
    if calls != [] {
      PositionsAreCounted(calls[..|calls| - 1]);
    }
  }

  lemma {:induction false} PositionsRise(p: seq<nat>, i: nat, j: nat)
    requires Counted(p) && i < j < |p|
    requires forall k :: i < k <= j ==> p[k] != 1
    ensures p[i] < p[j]
  {
    if i < j - 1 {
      PositionsRise(p, i, j - 1);
    }
  }

  // The result of an older wake is refused as long as no pool was taken since that wake
  // began and fewer than 2^32 wakes followed one another.
  lemma OlderResultIsRefused(calls: seq<Call>, i: nat, result: WakeResult, now: nat)
    requires ClockNeverFalls(calls)
    requires i + 1 < |After(calls).log.positions|
    requires forall k :: i < k < |After(calls).log.positions| ==> After(calls).log.positions[k] != 1
    requires |After(calls).log.wakes| <= U32_MAX
    ensures Step(After(calls), CompleteCall(Token(After(calls).log.positions[i]), result, now)) == After(calls)
  {
    var p := After(calls).log.positions;
    LateResult(calls, i, result, now);
    PositionsAreCounted(calls);
    PositionsRise(p, i, |p| - 1);
    RunsAreCoherent(calls);
  }

  // Tokens start again after a pool is taken, so a cancelled first wake that reports late
  // is then taken for the wake under way.
  lemma CancelledWakeIsMistakenLater(late: Pool)
    ensures var t := 5 * SECOND;
      var calls := [StartCall(true, 0), CompleteCall(1, Failure("cancelled"), 0), StartCall(true, t),
                    CompleteCall(2, Success(7), t), TakeCall(t), StartCall(true, t)];
      && ClockNeverFalls(calls)
      && After(calls).log.positions == [1, 2, 1]
      && After(calls).state == Waking(1)
      && Step(After(calls), CompleteCall(Token(1), Success(late), t)).state == Ready(late)
  {
    var t := 5 * SECOND;
    var calls := [StartCall(true, 0), CompleteCall(1, Failure("cancelled"), 0), StartCall(true, t),
                  CompleteCall(2, Success(7), t), TakeCall(t), StartCall(true, t)];
    RetryDelayIsCappedDoubling(1);
    UpTo(calls, 0);
    UpTo(calls, 1);
    assert After(calls[..2]) == Run(Failed(1, t, "cancelled"), Log([0], [1], 1, [], []));
    UpTo(calls, 2);
    UpTo(calls, 3);
    assert After(calls[..4]) == Run(Ready(7), Log([0, t], [1, 2], 1, [7], []));
    UpTo(calls, 4);
    UpTo(calls, 5);
    assert calls[..6] == calls;
  }

  lemma UpTo(calls: seq<Call>, i: nat)
    requires i < |calls|
    ensures After(calls[..i + 1]) == Step(After(calls[..i]), calls[i])
    ensures i == 0 ==> After(calls[..i]) == FRESH
  {
    assert calls[..i + 1][..i] == calls[..i];
  }

  // --- one call, in figures ----------------------------------------------------------

  // A wake begins exactly when there is work and the pool never woke, or failed and its
  // time has come; the token counts the attempts.
  lemma WakesExactly(s: State, hasPendingWork: bool, now: nat)
    ensures var (t, token) := Start(s, hasPendingWork, now);
      && (token.Some? <==>
            hasPendingWork && (s == Listening || exists n: U32, at: nat, error :: s == Failed(n, at, error) && at <= now))
      && (token.None? ==> t == s)
      && (hasPendingWork && s == Listening ==> token == Some(1) && t == Waking(1))
      && (forall n: U32, at: nat, error | s == Failed(n, at, error) && hasPendingWork && at <= now ::
            var next := if n < 0xFFFF_FFFF then n + 1 else n;
            token == Some(next) && t == Waking(next))
  {
    if s.Failed? {
      assert s == Failed(s.attempt, s.retryAt, s.error);
    }
  }

  // A result counts exactly for the wake with its token. A pool is then ready; a failure
  // waits five seconds, doubled for every attempt before it, and never more than 300.
  lemma CompletesExactly(s: State, attempt: U32, result: WakeResult, now: nat)
    ensures var (t, outcome) := Complete(s, attempt, result, now);
      && (outcome == Success(()) <==> s == Waking(attempt))
      && (s != Waking(attempt) ==> t == s)
      && (forall pool | s == Waking(attempt) && result == Success(pool) :: t == Ready(pool))
      && (forall error | s == Waking(attempt) && result == Failure(error) && attempt >= 1 ::
            t == Failed(attempt, now + 1_000_000_000 * Min(5 * Pow2(attempt - 1), 300), error))
  {
    if attempt >= 1 {
      RetryDelayIsCappedDoubling(attempt);
    }
  }
}
