// What a materialized schedule means: the windowed loops compute the simple
// definition "every owned occurrence, resolved, whose effective date is in
// range", a range can be split anywhere, and input order is irrelevant.
module ScheduleTheorems {
  import opened Wrappers
  import opened Calendar
  import opened Booking
  import opened Schedule
  import opened ScheduleMaterializer

  ghost predicate DistinctRuleIds(rules: seq<RecurrenceRule>) {
    forall i, j | 0 <= i < j < |rules| :: rules[i].id != rules[j].id
  }

  ghost predicate DistinctGroupIds(groups: seq<Group>) {
    forall i, j | 0 <= i < j < |groups| :: groups[i].id != groups[j].id
  }

  ghost predicate DistinctReferences(exceptions: seq<LessonException>) {
    forall i, j | 0 <= i < j < |exceptions| :: exceptions[i].Ref() != exceptions[j].Ref()
  }

  // ---------- the simple definition ----------

  // The `k`-th rule is included and owns the date.
  ghost predicate Owns(request: Request, k: nat, date: Day) {
    k < |request.rules| && request.Indexed().Included(request.rules[k]) && request.rules[k].OccursOn(date)
  }

  // Of the rules that share an id and own the date, the last one decides.
  ghost predicate Decides(request: Request, k: nat, date: Day) {
    && Owns(request, k, date)
    && forall j: nat | k < j < |request.rules| :: Owns(request, j, date) ==> request.rules[j].id != request.rules[k].id
  }

  ghost predicate DueAt(request: Request, o: Occurrence, k: nat, date: Day) {
    && Decides(request, k, date)
    && o == request.Indexed().Resolve(request.rules[k], date)
    && request.range.Contains(o.date)
  }

  ghost predicate Due(request: Request, o: Occurrence) {
    exists k: nat, date :: DueAt(request, o, k, date)
  }

  // With distinct ids every owner decides.
  lemma DistinctOwnersDecide(request: Request, k: nat, date: Day)
    requires DistinctRuleIds(request.rules)
    ensures Decides(request, k, date) <==> Owns(request, k, date)
  {
  }

  // An exception the window reads: its lesson starts in the range or is moved into it.
  ghost predicate Touches(range: ScheduleRange, e: LessonException) {
    range.Contains(e.originalDate) || (e.TargetDate().Some? && range.Contains(e.TargetDate().value))
  }

  ghost predicate GoodException(plan: Plan, rule: RecurrenceRule, e: LessonException)
    requires rule.groupId in plan.groups
  {
    e.ruleId == rule.id ==>
      rule.OccursOn(e.originalDate) && (Touches(plan.range, e) ==> !plan.BadTime(rule, e.originalDate))
  }

  ghost predicate GoodRule(plan: Plan, rule: RecurrenceRule) {
    && rule.Invalid().None?
    && rule.groupId in plan.groups
    && (plan.Included(rule) ==> forall e | e in plan.exceptions :: GoodException(plan, rule, e))
  }

  // When a request is answered, with no reference to any order of evaluation.
  ghost predicate Acceptable(request: Request) {
    && request.range.startsOn <= request.range.endsOn
    && DistinctReferences(request.exceptions)
    && forall rule | rule in request.rules :: GoodRule(request.Indexed(), rule)
  }

  // ---------- looking a reference up in the folds ----------

  ghost function Look(occurrences: map<LessonRef, Occurrence>, ref: LessonRef): Option<Occurrence> {
    if ref in occurrences then Some(occurrences[ref]) else None
  }

  ghost predicate PulledIn(plan: Plan, rule: RecurrenceRule, from: seq<LessonException>, ref: LessonRef) {
    exists e | e in from :: plan.MovesIn(rule, e) && e.Ref() == ref
  }

  ghost predicate Collects(plan: Plan, rule: RecurrenceRule, ref: LessonRef) {
    && ref.ruleId == rule.id
    && (|| (rule.OccursOn(ref.originalDate) && plan.InWindow(rule, ref.originalDate))
        || PulledIn(plan, rule, plan.exceptions, ref))
  }

  lemma {:induction false} LookAfterDays(
    plan: Plan, rule: RecurrenceRule, occurrences: map<LessonRef, Occurrence>, date: int, last: Day, ref: LessonRef)
    requires rule.groupId in plan.groups && MIN_DAY <= date
    ensures Look(plan.AddDays(rule, occurrences, date, last), ref)
            == if ref.ruleId == rule.id && date <= ref.originalDate <= last && rule.OccursOn(ref.originalDate)
               then Some(plan.Resolve(rule, ref.originalDate))
               else Look(occurrences, ref)
    decreases last - date
  {
    if date <= last {
      LookAfterDays(plan, rule, plan.AddDay(rule, occurrences, date), date + 1, last, ref);
    }
  }

  lemma {:induction false} LookAfterExceptions(
    plan: Plan, rule: RecurrenceRule, occurrences: map<LessonRef, Occurrence>, rest: seq<LessonException>,
    ref: LessonRef)
    requires rule.groupId in plan.groups
    ensures Look(plan.AddExceptions(rule, occurrences, rest), ref)
            == if PulledIn(plan, rule, rest, ref) then Some(plan.Resolve(rule, ref.originalDate))
               else Look(occurrences, ref)
    decreases rest
  {
    if rest != [] {
      LookAfterExceptions(plan, rule, plan.AddException(rule, occurrences, rest[0]), rest[1..], ref);
      assert rest == [rest[0]] + rest[1..];
    }
  }

  lemma LookAfterRule(plan: Plan, occurrences: map<LessonRef, Occurrence>, rule: RecurrenceRule, ref: LessonRef)
    ensures Look(plan.AddRule(occurrences, rule), ref)
            == if plan.Included(rule) && Collects(plan, rule, ref) then Some(plan.Resolve(rule, ref.originalDate))
               else Look(occurrences, ref)
  {
    if plan.Included(rule) {
      var first, last := plan.FirstDate(rule), plan.LastDate(rule);
      LookAfterDays(plan, rule, occurrences, first, last, ref);
      LookAfterExceptions(plan, rule, plan.AddDays(rule, occurrences, first, last), plan.exceptions, ref);
    }
  }

  ghost predicate Writes(plan: Plan, rules: seq<RecurrenceRule>, k: nat, ref: LessonRef) {
    k < |rules| && plan.Included(rules[k]) && Collects(plan, rules[k], ref)
  }

  ghost predicate IsLastWriter(plan: Plan, rules: seq<RecurrenceRule>, k: nat, ref: LessonRef) {
    && (k < |rules| ==> Writes(plan, rules, k, ref))
    && forall j: nat | Writes(plan, rules, j, ref) :: j <= k < |rules|
  }

  // The last rule that writes under `ref`, if any does.
  lemma {:induction false} LastWriter(plan: Plan, rules: seq<RecurrenceRule>, ref: LessonRef) returns (k: nat)
    ensures IsLastWriter(plan, rules, k, ref)
  {
    k := |rules|;
    if rules != [] {
      var n := |rules| - 1;
      if Writes(plan, rules, n, ref) {
        k := n;
      } else {
        var before := LastWriter(plan, rules[..n], ref);
        assert forall j: nat | j < n :: Writes(plan, rules, j, ref) <==> Writes(plan, rules[..n], j, ref);
        k := if before < n then before else |rules|;
      }
    }
  }

  // Under `ref` stands what the last writer wrote, or what stood there before.
  lemma {:induction false} LookAfterRules(
    plan: Plan, occurrences: map<LessonRef, Occurrence>, rules: seq<RecurrenceRule>, k: nat, ref: LessonRef)
    requires IsLastWriter(plan, rules, k, ref)
    ensures Look(plan.AddRules(occurrences, rules), ref)
            == if k < |rules| then Some(plan.Resolve(rules[k], ref.originalDate)) else Look(occurrences, ref)
    decreases rules
  {
    if rules != [] {
      LookAfterRule(plan, occurrences, rules[0], ref);
      var rest := rules[1..];
      var m := if 0 < k < |rules| then k - 1 else |rest|;
      forall j: nat | Writes(plan, rest, j, ref)
        ensures j <= m < |rest|
      {
        assert Writes(plan, rules, j + 1, ref);
      }
      assert Writes(plan, rules, 0, ref) ==> k < |rules|;
      LookAfterRules(plan, plan.AddRule(occurrences, rules[0]), rest, m, ref);
    }
  }

  // ---------- acceptance ----------

  lemma {:induction false} WindowAccepts(plan: Plan, rule: RecurrenceRule, date: int, last: Day)
    requires rule.groupId in plan.groups && MIN_DAY <= date
    ensures plan.WindowError(rule, date, last).None?
            <==> forall d: Day | date <= d <= last && rule.OccursOn(d) :: !plan.BadTime(rule, d)
    decreases last - date
  {
    if date <= last {
      WindowAccepts(plan, rule, date + 1, last);
    }
  }

  lemma {:induction false} ExceptionsAccept(plan: Plan, rule: RecurrenceRule, rest: seq<LessonException>)
    requires rule.groupId in plan.groups
    ensures plan.ExceptionsError(rule, rest).None?
            <==> forall e | e in rest :: plan.ExceptionError(rule, e).None?
    decreases rest
  {
    if rest != [] {
      ExceptionsAccept(plan, rule, rest[1..]);
      assert rest == [rest[0]] + rest[1..];
    }
  }

  ghost predicate ByReference(plan: Plan) {
    && (forall e | e in plan.exceptions :: e.Ref() in plan.byRef && plan.byRef[e.Ref()] == e)
    && (forall ref | ref in plan.byRef :: plan.byRef[ref] in plan.exceptions && plan.byRef[ref].Ref() == ref)
  }

  // Only an exception can spoil the time of a valid rule's occurrence, and every
  // exception that the window reads has been checked.
  lemma GoodTime(plan: Plan, rule: RecurrenceRule, date: Day)
    requires ByReference(plan) && GoodRule(plan, rule) && plan.Included(rule) && rule.OccursOn(date)
    requires plan.range.Contains(date) || plan.range.Contains(plan.Resolve(rule, date).date)
    ensures !plan.BadTime(rule, date)
  {
    EffectiveDate(plan.policy, plan.groups[rule.groupId], rule, date, plan.ExceptionAt(rule, date));
    if LessonRef(rule.id, date) in plan.byRef {
      assert GoodException(plan, rule, plan.byRef[LessonRef(rule.id, date)]);
    }
  }

  lemma RuleAccepts(plan: Plan, rule: RecurrenceRule)
    requires ByReference(plan)
    ensures plan.RuleError(rule).None? <==> GoodRule(plan, rule)
  {
    if rule.Invalid().None? && plan.Included(rule) {
      WindowAccepts(plan, rule, plan.FirstDate(rule), plan.LastDate(rule));
      ExceptionsAccept(plan, rule, plan.exceptions);
      if plan.RuleError(rule).None? {
        forall e | e in plan.exceptions
          ensures GoodException(plan, rule, e)
        {
          assert plan.ExceptionError(rule, e).None?;
        }
      }
      if GoodRule(plan, rule) {
        forall e | e in plan.exceptions
          ensures plan.ExceptionError(rule, e).None?
        {
          assert GoodException(plan, rule, e);
        }
        forall d: Day | plan.InWindow(rule, d) && rule.OccursOn(d)
          ensures !plan.BadTime(rule, d)
        {
          GoodTime(plan, rule, d);
        }
      }
    }
  }

  lemma {:induction false} RulesAccept(plan: Plan, rules: seq<RecurrenceRule>)
    requires ByReference(plan)
    ensures plan.RulesError(rules).None? <==> forall rule | rule in rules :: GoodRule(plan, rule)
    decreases rules
  {
    if rules != [] {
      RuleAccepts(plan, rules[0]);
      RulesAccept(plan, rules[1..]);
      assert rules == [rules[0]] + rules[1..];
    }
  }

  lemma {:induction false} IndexHasOnlyMembers(exceptions: seq<LessonException>)
    ensures forall ref | ref in IndexExceptions(exceptions) ::
              IndexExceptions(exceptions)[ref] in exceptions && IndexExceptions(exceptions)[ref].Ref() == ref
  {
    if exceptions != [] {
      var n := |exceptions| - 1;
      IndexHasOnlyMembers(exceptions[..n]);
      assert exceptions == exceptions[..n] + [exceptions[n]];
    }
  }

  lemma DistinctReferencesIndex(request: Request)
    requires DistinctReferences(request.exceptions)
    ensures ByReference(request.Indexed())
  {
    IndexHasOnlyMembers(request.exceptions);
    forall e | e in request.exceptions
      ensures e.Ref() in request.Indexed().byRef && request.Indexed().byRef[e.Ref()] == e
    {
      var i :| 0 <= i < |request.exceptions| && request.exceptions[i] == e;
      IndexLooksUp(request.exceptions, i);
    }
  }

  // The program answers a request exactly when the order-free condition holds.
  lemma AcceptedExactly(request: Request, result: Result<seq<Occurrence>, ScheduleError>)
    requires Outcome(request, result)
    ensures result.Success? <==> Acceptable(request)
  {
    NoDuplicate({}, request.exceptions);
    if DistinctReferences(request.exceptions) {
      DistinctReferencesIndex(request);
      RulesAccept(request.Indexed(), request.rules);
    }
  }

  // ---------- contents ----------

  // An owned date whose effective date is in range is exactly one the loops collect.
  lemma CollectedExactly(request: Request, k: nat, ref: LessonRef)
    requires Acceptable(request) && k < |request.rules| && request.rules[k].id == ref.ruleId
    requires request.Indexed().Included(request.rules[k])
    ensures Writes(request.Indexed(), request.rules, k, ref) ==> Owns(request, k, ref.originalDate)
    ensures Owns(request, k, ref.originalDate)
            && request.range.Contains(request.Indexed().Resolve(request.rules[k], ref.originalDate).date)
            ==> Writes(request.Indexed(), request.rules, k, ref)
  {
    var plan, rule := request.Indexed(), request.rules[k];
    DistinctReferencesIndex(request);
    assert GoodRule(plan, rule);
    if PulledIn(plan, rule, plan.exceptions, ref) {
      var e :| e in plan.exceptions && plan.MovesIn(rule, e) && e.Ref() == ref;
      assert GoodException(plan, rule, e);
    }
    EffectiveDate(plan.policy, plan.groups[rule.groupId], rule, ref.originalDate, plan.ExceptionAt(rule, ref.originalDate));
    if Owns(request, k, ref.originalDate) && !plan.InWindow(rule, ref.originalDate)
       && plan.range.Contains(plan.Resolve(rule, ref.originalDate).date) {
      assert plan.MovesIn(rule, plan.byRef[ref]) && plan.byRef[ref].Ref() == ref;
    }
  }

  // Two included rules with one id move a date alike: the exception alone decides.
  lemma SameEffectiveDate(plan: Plan, a: RecurrenceRule, b: RecurrenceRule, date: Day)
    requires plan.Included(a) && plan.Included(b) && a.id == b.id
    ensures plan.Resolve(a, date).date == plan.Resolve(b, date).date
  {
    EffectiveDate(plan.policy, plan.groups[a.groupId], a, date, plan.ExceptionAt(a, date));
    EffectiveDate(plan.policy, plan.groups[b.groupId], b, date, plan.ExceptionAt(b, date));
  }

  lemma DueIsKept(request: Request, o: Occurrence, k: nat, date: Day)
    requires Acceptable(request)
    requires DueAt(request, o, k, date)
    ensures Kept(request.Indexed().AddRules(map[], request.rules), request.range, o)
  {
    var plan, ref := request.Indexed(), LessonRef(request.rules[k].id, date);
    CollectedExactly(request, k, ref);
    forall j: nat | Writes(plan, request.rules, j, ref)
      ensures j <= k
    {
      CollectedExactly(request, j, ref);
    }
    LookAfterRules(plan, map[], request.rules, k, ref);
  }

  lemma KeptIsDue(request: Request, o: Occurrence)
    requires Acceptable(request)
    requires Kept(request.Indexed().AddRules(map[], request.rules), request.range, o)
    ensures Due(request, o)
  {
    var plan, ref := request.Indexed(), o.lessonRef;
    var k := LastWriter(plan, request.rules, ref);
    LookAfterRules(plan, map[], request.rules, k, ref);
    CollectedExactly(request, k, ref);
    forall j: nat | k < j < |request.rules| && Owns(request, j, ref.originalDate)
      ensures request.rules[j].id != request.rules[k].id
    {
      if request.rules[j].id == request.rules[k].id {
        SameEffectiveDate(plan, request.rules[j], request.rules[k], ref.originalDate);
        CollectedExactly(request, j, ref);
      }
    }
    assert DueAt(request, o, k, ref.originalDate);
  }

  // The list holds exactly one occurrence for each owned original date whose
  // effective date is in range, and nothing else; where rules share an id, the
  // last of them that owns the date decides.
  lemma ExactContents(request: Request, list: seq<Occurrence>)
    requires Outcome(request, Success(list))
    ensures forall o :: o in list <==> Due(request, o)
    ensures forall i, j | 0 <= i < j < |list| :: list[i].lessonRef != list[j].lessonRef
    ensures Ordered(list)
  {
    AcceptedExactly(request, Success(list));
    forall o
      ensures o in list <==> Due(request, o)
    {
      if Due(request, o) {
        var k: nat, date :| DueAt(request, o, k, date);
        DueIsKept(request, o, k, date);
      }
      if o in list {
        KeptIsDue(request, o);
      }
    }
    forall i, j | 0 <= i < j < |list|
      ensures list[i].lessonRef != list[j].lessonRef
    {
      assert Before(list[i], list[j]);
      assert list[i] in list && list[j] in list;
    }
  }

  // Each listed occurrence is what the single-occurrence entry point returns for
  // its reference and exception.
  lemma AgreesWithSingleOccurrence(request: Request, list: seq<Occurrence>, o: Occurrence, k: nat, date: Day)
    requires Outcome(request, Success(list))
    requires DueAt(request, o, k, date)
    ensures o in list
    ensures var plan, rule := request.Indexed(), request.rules[k];
            MaterializeScheduleOccurrence(
              plan.policy, plan.groups[rule.groupId], rule, plan.ExceptionAt(rule, date), date)
            == Success(Some(o))
  {
    var plan, rule := request.Indexed(), request.rules[k];
    AcceptedExactly(request, Success(list));
    ExactContents(request, list);
    assert GoodRule(plan, rule);
    DistinctReferencesIndex(request);
    GoodTime(plan, rule, date);
    GroupIndexHasOnlyMembers(request.groups);
  }

  // ---------- no calendar overflow ----------

  lemma {:induction false} NoWindowOverflow(plan: Plan, rule: RecurrenceRule, date: int, last: Day)
    requires rule.groupId in plan.groups && MIN_DAY <= date
    ensures plan.WindowError(rule, date, last) != Some(DateOverflow)
    decreases last - date
  {
    if date <= last {
      NoWindowOverflow(plan, rule, date + 1, last);
    }
  }

  lemma {:induction false} NoExceptionOverflow(plan: Plan, rule: RecurrenceRule, rest: seq<LessonException>)
    requires rule.groupId in plan.groups
    ensures plan.ExceptionsError(rule, rest) != Some(DateOverflow)
    decreases rest
  {
    if rest != [] {
      NoExceptionOverflow(plan, rule, rest[1..]);
    }
  }

  lemma {:induction false} NoRuleOverflow(plan: Plan, rules: seq<RecurrenceRule>)
    ensures plan.RulesError(rules) != Some(DateOverflow)
    decreases rules
  {
    if rules != [] {
      if plan.Included(rules[0]) {
        NoWindowOverflow(plan, rules[0], plan.FirstDate(rules[0]), plan.LastDate(rules[0]));
        NoExceptionOverflow(plan, rules[0], plan.exceptions);
      }
      NoRuleOverflow(plan, rules[1..]);
    }
  }

  // The overflow error in the day loop is unreachable, even at the last day of the calendar.
  lemma NeverOverflows(request: Request, result: Result<seq<Occurrence>, ScheduleError>)
    requires Outcome(request, result)
    ensures result != Failure(DateOverflow)
  {
    NoRuleOverflow(request.Indexed(), request.rules);
  }

  // ---------- ordered lists are determined by their contents ----------

  lemma HeadIsLeast(list: seq<Occurrence>, o: Occurrence)
    requires Ordered(list) && o in list
    ensures o == list[0] || Before(list[0], o)
    ensures o in list[1..] <==> o != list[0]
  {
    var k :| 0 <= k < |list| && list[k] == o;
    assert list == [list[0]] + list[1..];
    if o in list[1..] {
      var m :| 0 <= m < |list[1..]| && list[1..][m] == o;
      assert Before(list[0], list[m + 1]);
    }
  }

  lemma {:induction false} SameContentsSameList(a: seq<Occurrence>, b: seq<Occurrence>)
    requires Ordered(a) && Ordered(b)
    requires forall o :: o in a <==> o in b
    ensures a == b
  {
    assert a != [] ==> a[0] in b;
    assert b != [] ==> b[0] in a;
    if a != [] {
      HeadIsLeast(a, b[0]);
      HeadIsLeast(b, a[0]);
      forall o
        ensures o in a[1..] <==> o in b[1..]
      {
        if o in a {
          HeadIsLeast(a, o);
          HeadIsLeast(b, o);
        }
      }
      SameContentsSameList(a[1..], b[1..]);
      assert a == [a[0]] + a[1..] && b == [b[0]] + b[1..];
    }
  }

  // `Outcome` leaves the program no choice.
  lemma OutcomeIsUnique(
    request: Request, r: Result<seq<Occurrence>, ScheduleError>, s: Result<seq<Occurrence>, ScheduleError>)
    requires Outcome(request, r) && Outcome(request, s)
    ensures r == s
  {
    if r.Success? {
      SameContentsSameList(r.value, s.value);
    }
  }

  // ---------- splitting a range ----------

  ghost function Over(request: Request, startsOn: Day, endsOn: Day): Request {
    request.(range := ScheduleRange(startsOn, endsOn))
  }

  lemma SplitAcceptance(request: Request, a: Day, b: Day, next: Day, c: Day)
    requires a <= b && next == b + 1 && next <= c
    ensures Acceptable(Over(request, a, c))
            <==> Acceptable(Over(request, a, b)) && Acceptable(Over(request, next, c))
  {
    var whole, left, right := Over(request, a, c), Over(request, a, b), Over(request, next, c);
    forall rule | rule in request.rules
      ensures GoodRule(whole.Indexed(), rule) <==> GoodRule(left.Indexed(), rule) && GoodRule(right.Indexed(), rule)
    {
      if rule.groupId in whole.Indexed().groups {
        forall e
          ensures GoodException(whole.Indexed(), rule, e)
                  <==> GoodException(left.Indexed(), rule, e) && GoodException(right.Indexed(), rule, e)
        {
          assert Touches(whole.range, e) <==> Touches(left.range, e) || Touches(right.range, e);
        }
      }
    }
  }

  lemma SplitDue(request: Request, a: Day, b: Day, next: Day, c: Day, o: Occurrence)
    requires a <= b && next == b + 1 && next <= c
    ensures Due(Over(request, a, c), o) <==> Due(Over(request, a, b), o) || Due(Over(request, next, c), o)
    ensures Due(Over(request, a, b), o) ==> o.date <= b
    ensures Due(Over(request, next, c), o) ==> b < o.date
  {
    forall k: nat, date
      ensures DueAt(Over(request, a, c), o, k, date)
              <==> DueAt(Over(request, a, b), o, k, date) || DueAt(Over(request, next, c), o, k, date)
    {
      DecidesAnywhere(request, a, c, k, date);
      DecidesAnywhere(request, a, b, k, date);
      DecidesAnywhere(request, next, c, k, date);
    }
    if Due(Over(request, a, c), o) {
      var k: nat, date :| DueAt(Over(request, a, c), o, k, date);
      assert DueAt(Over(request, a, b), o, k, date) || DueAt(Over(request, next, c), o, k, date);
    }
  }

  // Who decides a date does not depend on the range.
  lemma DecidesAnywhere(request: Request, startsOn: Day, endsOn: Day, k: nat, date: Day)
    ensures Decides(Over(request, startsOn, endsOn), k, date) <==> Decides(request, k, date)
  {
    assert forall j: nat :: Owns(Over(request, startsOn, endsOn), j, date) <==> Owns(request, j, date);
  }

  // Cutting a range in two loses nothing, even when exceptions move lessons
  // across the cut: both halves succeed exactly when the whole does, and the
  // whole list is the two halves in sequence.
  lemma SplitRange(
    request: Request, a: Day, b: Day, next: Day, c: Day,
    whole: Result<seq<Occurrence>, ScheduleError>,
    left: Result<seq<Occurrence>, ScheduleError>,
    right: Result<seq<Occurrence>, ScheduleError>)
    requires a <= b && next == b + 1 && next <= c
    requires Outcome(Over(request, a, c), whole)
    requires Outcome(Over(request, a, b), left)
    requires Outcome(Over(request, next, c), right)
    ensures whole.Success? <==> left.Success? && right.Success?
    ensures whole.Success? ==> whole.value == left.value + right.value
  {
    AcceptedExactly(Over(request, a, c), whole);
    AcceptedExactly(Over(request, a, b), left);
    AcceptedExactly(Over(request, next, c), right);
    SplitAcceptance(request, a, b, next, c);
    if whole.Success? {
      ExactContents(Over(request, a, c), whole.value);
      ExactContents(Over(request, a, b), left.value);
      ExactContents(Over(request, next, c), right.value);
      forall o
        ensures o in whole.value <==> o in left.value + right.value
      {
        SplitDue(request, a, b, next, c, o);
      }
      Joined(left.value, right.value, b);
      SameContentsSameList(whole.value, left.value + right.value);
    }
  }

  lemma Joined(left: seq<Occurrence>, right: seq<Occurrence>, b: Day)
    requires Ordered(left) && Ordered(right)
    requires forall o | o in left :: o.date <= b
    requires forall o | o in right :: b < o.date
    ensures Ordered(left + right)
  {
    var all := left + right;
    forall i, j | 0 <= i < j < |all|
      ensures Before(all[i], all[j])
    {
      if i < |left| <= j {
        assert left[i] in left && right[j - |left|] in right;
      }
    }
  }

  // ---------- input order ----------

  lemma SameMembers<T>(a: seq<T>, b: seq<T>)
    requires multiset(a) == multiset(b)
    ensures forall x :: x in a <==> x in b
  {
    forall x
      ensures x in a <==> x in b
    {
      assert x in a <==> x in multiset(a);
      assert x in b <==> x in multiset(b);
    }
  }

  lemma {:induction false} GroupIndexHasOnlyMembers(groups: seq<Group>)
    ensures forall id | id in IndexGroups(groups) ::
              IndexGroups(groups)[id] in groups && IndexGroups(groups)[id].id == id
  {
    if groups != [] {
      var n := |groups| - 1;
      GroupIndexHasOnlyMembers(groups[..n]);
      assert groups == groups[..n] + [groups[n]];
    }
  }

  lemma {:induction false} GroupLooksUp(groups: seq<Group>, i: nat)
    requires DistinctGroupIds(groups) && i < |groups|
    ensures groups[i].id in IndexGroups(groups) && IndexGroups(groups)[groups[i].id] == groups[i]
  {
    var n := |groups| - 1;
    if i < n {
      assert groups[..n][i] == groups[i];
      GroupLooksUp(groups[..n], i);
    }
  }

  lemma PermutedGroupIndex(a: seq<Group>, b: seq<Group>)
    requires DistinctGroupIds(a) && DistinctGroupIds(b) && multiset(a) == multiset(b)
    ensures IndexGroups(a) == IndexGroups(b)
  {
    SubIndex(a, b);
    SubIndex(b, a);
  }

  lemma SubIndex(a: seq<Group>, b: seq<Group>)
    requires DistinctGroupIds(b) && multiset(a) == multiset(b)
    ensures forall id | id in IndexGroups(a) :: id in IndexGroups(b) && IndexGroups(b)[id] == IndexGroups(a)[id]
  {
    GroupIndexHasOnlyMembers(a);
    SameMembers(a, b);
    forall id | id in IndexGroups(a)
      ensures id in IndexGroups(b) && IndexGroups(b)[id] == IndexGroups(a)[id]
    {
      var i :| 0 <= i < |b| && b[i] == IndexGroups(a)[id];
      GroupLooksUp(b, i);
    }
  }

  // A key takes a place in the sequence at most once: said by multiplicity, so
  // that it survives permutation.
  lemma {:induction false} PermutedReferences(a: seq<LessonException>, b: seq<LessonException>)
    requires multiset(a) == multiset(b) && DistinctReferences(a)
    ensures DistinctReferences(b)
  {
    forall i, j | 0 <= i < j < |b|
      ensures b[i].Ref() != b[j].Ref()
    {
      SameMembers(a, b);
      assert b[i] in b && b[j] in b;
      var x :| 0 <= x < |a| && a[x] == b[i];
      var y :| 0 <= y < |a| && a[y] == b[j];
      if x == y {
        Repeats(b, i, j);
        OnceOnly(a, x);
      }
    }
  }

  lemma Repeats<T>(s: seq<T>, i: nat, j: nat)
    requires i < j < |s| && s[i] == s[j]
    ensures multiset(s)[s[i]] >= 2
  {
    assert s == s[..j] + s[j..];
    assert s[..j][i] in multiset(s[..j]);
    assert s[j..][0] in multiset(s[j..]);
  }

  lemma OnceOnly(a: seq<LessonException>, x: nat)
    requires DistinctReferences(a) && x < |a|
    ensures multiset(a)[a[x]] == 1
  {
    assert a == a[..x] + [a[x]] + a[x + 1..];
    assert a[x] !in a[..x];
    assert a[x] !in a[x + 1..];
    assert a[x] !in multiset(a[..x]) && a[x] !in multiset(a[x + 1..]);
  }

  ghost predicate Permuted(a: Request, b: Request) {
    && a.policy == b.policy && a.range == b.range && a.includeArchived == b.includeArchived
    && multiset(a.groups) == multiset(b.groups)
    && multiset(a.rules) == multiset(b.rules)
    && multiset(a.exceptions) == multiset(b.exceptions)
  }

  lemma PermutedIndexes(a: Request, b: Request)
    requires Permuted(a, b)
    requires DistinctGroupIds(a.groups) && DistinctGroupIds(b.groups)
    requires DistinctReferences(a.exceptions)
    ensures DistinctReferences(b.exceptions)
    ensures b.Indexed() == a.Indexed().(exceptions := b.exceptions)
  {
    PermutedReferences(a.exceptions, b.exceptions);
    SameMembers(a.exceptions, b.exceptions);
    PermutedGroupIndex(a.groups, b.groups);
    DistinctReferencesIndex(a);
    DistinctReferencesIndex(b);
    assert a.Indexed().byRef == b.Indexed().byRef;
  }

  lemma PermutedAcceptance(a: Request, b: Request)
    requires Permuted(a, b)
    requires DistinctGroupIds(a.groups) && DistinctGroupIds(b.groups)
    requires Acceptable(a)
    ensures Acceptable(b)
  {
    PermutedIndexes(a, b);
    SameMembers(a.rules, b.rules);
    SameMembers(a.exceptions, b.exceptions);
    forall rule | rule in b.rules
      ensures GoodRule(b.Indexed(), rule)
    {
      assert GoodRule(a.Indexed(), rule);
      if b.Indexed().Included(rule) {
        forall e | e in b.exceptions
          ensures GoodException(b.Indexed(), rule, e)
        {
          assert GoodException(a.Indexed(), rule, e);
        }
      }
    }
  }

  ghost predicate OwnsDate(request: Request, rule: RecurrenceRule, date: Day) {
    request.Indexed().Included(rule) && rule.OccursOn(date)
  }

  ghost predicate AgreeAt(request: Request, r: RecurrenceRule, s: RecurrenceRule, date: Day) {
    r.id == s.id && OwnsDate(request, r, date) && OwnsDate(request, s, date)
    && request.range.Contains(request.Indexed().Resolve(r, date).date) ==>
      request.Indexed().Resolve(r, date) == request.Indexed().Resolve(s, date)
  }

  // Rules that share an id resolve the same, wherever both own a date whose effective
  // date is in range.
  ghost predicate SharedIdsAgree(request: Request) {
    forall r, s, date | r in request.rules && s in request.rules :: AgreeAt(request, r, s, date)
  }

  // The same rules against the same index, in any order.
  ghost predicate SameRules(a: Request, b: Request) {
    && a.Indexed().(exceptions := []) == b.Indexed().(exceptions := [])
    && a.range == b.range
    && forall rule :: rule in a.rules <==> rule in b.rules
  }

  lemma SameAgreement(a: Request, b: Request, r: RecurrenceRule, s: RecurrenceRule, date: Day)
    requires a.Indexed().(exceptions := []) == b.Indexed().(exceptions := []) && a.range == b.range
    ensures AgreeAt(a, r, s, date) <==> AgreeAt(b, r, s, date)
  {
  }

  lemma SameRulesAgree(a: Request, b: Request)
    requires SameRules(a, b) && SharedIdsAgree(a)
    ensures SharedIdsAgree(b)
  {
    forall r, s, date | r in b.rules && s in b.rules
      ensures AgreeAt(b, r, s, date)
    {
      SameAgreement(a, b, r, s, date);
    }
  }

  lemma DistinctIdsAgree(request: Request)
    requires DistinctRuleIds(request.rules)
    ensures SharedIdsAgree(request)
  {
  }

  // A date that is owned under an id is decided under it.
  lemma {:induction false} SomeoneDecides(request: Request, k: nat, date: Day) returns (m: nat)
    requires Owns(request, k, date)
    ensures k <= m && Decides(request, m, date) && request.rules[m].id == request.rules[k].id
    decreases |request.rules| - k
  {
    if j: nat :| k < j < |request.rules| && Owns(request, j, date) && request.rules[j].id == request.rules[k].id {
      m := SomeoneDecides(request, j, date);
    } else {
      m := k;
    }
  }

  lemma PermutedDue(a: Request, b: Request, o: Occurrence)
    requires SameRules(a, b) && SharedIdsAgree(a)
    ensures Due(a, o) ==> Due(b, o)
  {
    if Due(a, o) {
      var k: nat, date :| DueAt(a, o, k, date);
      var rule := a.rules[k];
      assert rule in b.rules;
      var i: nat :| i < |b.rules| && b.rules[i] == rule;
      var m := SomeoneDecides(b, i, date);
      assert b.rules[m] in a.rules && AgreeAt(a, rule, b.rules[m], date);
      assert DueAt(b, o, m, date);
    }
  }

  // Permuting groups, rules and exceptions changes neither whether a schedule
  // is produced nor, when rules that share an id agree, the schedule.
  lemma OrderIndependent(
    a: Request, b: Request,
    r: Result<seq<Occurrence>, ScheduleError>, s: Result<seq<Occurrence>, ScheduleError>)
    requires Permuted(a, b)
    requires DistinctGroupIds(a.groups) && DistinctGroupIds(b.groups)
    requires Outcome(a, r) && Outcome(b, s)
    ensures r.Success? <==> s.Success?
    ensures r.Success? && SharedIdsAgree(a) ==> r == s
  {
    AcceptedExactly(a, r);
    AcceptedExactly(b, s);
    if Acceptable(a) {
      PermutedAcceptance(a, b);
    }
    if Acceptable(b) {
      PermutedAcceptance(b, a);
    }
    if r.Success? && SharedIdsAgree(a) {
      PermutedIndexes(a, b);
      SameMembers(a.rules, b.rules);
      SameRulesAgree(a, b);
      ExactContents(a, r.value);
      ExactContents(b, s.value);
      forall o
        ensures o in r.value <==> o in s.value
      {
        PermutedDue(a, b, o);
        PermutedDue(b, a, o);
      }
      SameContentsSameList(r.value, s.value);
    }
  }

  // The request with its `i`-th rule moved to the end.
  ghost function MovedLast(a: Request, i: nat): Request
    requires i < |a.rules|
  {
    a.(rules := a.rules[..i] + a.rules[i + 1..] + [a.rules[i]])
  }

  lemma MovedLastIsPermuted(a: Request, i: nat)
    requires i < |a.rules|
    ensures Permuted(a, MovedLast(a, i))
    ensures MovedLast(a, i).Indexed() == a.Indexed()
    ensures Acceptable(a) ==> Acceptable(MovedLast(a, i))
  {
    var b := MovedLast(a, i);
    assert a.rules == a.rules[..i] + [a.rules[i]] + a.rules[i + 1..];
    assert multiset(b.rules) == multiset(a.rules);
    SameMembers(a.rules, b.rules);
  }

  // A rule at the end decides every date it owns, so nothing else is due there.
  lemma LastOneDecides(b: Request, date: Day, o: Occurrence)
    requires b.rules != []
    requires var last := b.rules[|b.rules| - 1];
             OwnsDate(b, last, date) && o.lessonRef == LessonRef(last.id, date) && o != b.Indexed().Resolve(last, date)
    ensures !Due(b, o)
  {
    if Due(b, o) {
      var m: nat, d :| DueAt(b, o, m, d);
      assert Owns(b, |b.rules| - 1, date);
    }
  }

  lemma DecidedOccurrence(a: Request, rule: RecurrenceRule, date: Day) returns (o: Occurrence)
    requires rule in a.rules && OwnsDate(a, rule, date)
    requires a.range.Contains(a.Indexed().Resolve(rule, date).date)
    ensures Due(a, o) && o.lessonRef == LessonRef(rule.id, date)
  {
    var x: nat :| x < |a.rules| && a.rules[x] == rule;
    var k := SomeoneDecides(a, x, date);
    o := a.Indexed().Resolve(a.rules[k], date);
    SameEffectiveDate(a.Indexed(), rule, a.rules[k], date);
    assert DueAt(a, o, k, date);
  }

  // The condition is needed: where two rules with one id disagree, moving one of them
  // to the end changes the schedule.
  lemma DisagreementShows(a: Request) returns (b: Request, o: Occurrence)
    requires Acceptable(a) && !SharedIdsAgree(a)
    ensures Permuted(a, b) && b.groups == a.groups && Acceptable(b)
    ensures Due(a, o) && !Due(b, o)
  {
    var plan := a.Indexed();
    var r, s, date :| r in a.rules && s in a.rules && !AgreeAt(a, r, s, date);
    o := DecidedOccurrence(a, r, date);
    var moved := if plan.Resolve(r, date) != o then r else s;
    var i: nat :| i < |a.rules| && a.rules[i] == moved;
    b := MovedLast(a, i);
    MovedLastIsPermuted(a, i);
    LastOneDecides(b, date, o);
  }

  // A schedule is independent of the order of its input exactly when rules that share
  // an id agree; with distinct rule ids they do.
  lemma OrderIndependentExactly(a: Request)
    requires Acceptable(a) && DistinctGroupIds(a.groups)
    ensures SharedIdsAgree(a) <==>
            forall b, o | Permuted(a, b) && DistinctGroupIds(b.groups) :: Due(a, o) <==> Due(b, o)
  {
    if SharedIdsAgree(a) {
      forall b, o | Permuted(a, b) && DistinctGroupIds(b.groups)
        ensures Due(a, o) <==> Due(b, o)
      {
        PermutedIndexes(a, b);
        SameMembers(a.rules, b.rules);
        SameRulesAgree(a, b);
        PermutedDue(a, b, o);
        PermutedDue(b, a, o);
      }
    } else {
      var b, o := DisagreementShows(a);
    }
  }
}
