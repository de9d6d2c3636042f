// Expanding recurrence rules over a window of effective dates.
//
// `Materialize` is the program's three nested loops.  `Outcome` says what it
// returns: the first error in evaluation order, or the occurrences collected by
// stable reference, cut to the window and strictly ordered.
module ScheduleMaterializer {
  import opened Wrappers
  import opened Calendar
  import opened Booking
  import opened Schedule

  datatype ScheduleRange = ScheduleRange(startsOn: Day, endsOn: Day)
  {
    predicate Contains(date: Day) {
      startsOn <= date <= endsOn
    }
  }

  datatype Request = Request(
    policy: SchedulePolicy,
    groups: seq<Group>,
    rules: seq<RecurrenceRule>,
    exceptions: seq<LessonException>,
    range: ScheduleRange,
    includeArchived: bool)
  {
    ghost function Indexed(): Plan {
      Plan(policy, IndexGroups(groups), IndexExceptions(exceptions), exceptions, range, includeArchived)
    }
  }

  // A later group with the same id replaces an earlier one.
  ghost function IndexGroups(groups: seq<Group>): map<Uuid, Group> {
    if groups == [] then map[]
    else var last := groups[|groups| - 1]; IndexGroups(groups[..|groups| - 1])[last.id := last]
  }

  ghost function IndexExceptions(exceptions: seq<LessonException>): map<LessonRef, LessonException> {
    if exceptions == [] then map[]
    else var last := exceptions[|exceptions| - 1]; IndexExceptions(exceptions[..|exceptions| - 1])[last.Ref() := last]
  }

  // The first exception whose reference an earlier one, or `seen`, already uses.
  ghost function FirstDuplicate(seen: set<LessonRef>, exceptions: seq<LessonException>): Option<LessonRef>
    decreases exceptions
  {
    if exceptions == [] then None
    else if exceptions[0].Ref() in seen then Some(exceptions[0].Ref())
    else FirstDuplicate(seen + {exceptions[0].Ref()}, exceptions[1..])
  }

  // A request with its groups and exceptions indexed.
  datatype Plan = Plan(
    policy: SchedulePolicy,
    groups: map<Uuid, Group>,
    byRef: map<LessonRef, LessonException>,
    exceptions: seq<LessonException>,
    range: ScheduleRange,
    includeArchived: bool)
  {
    predicate Included(rule: RecurrenceRule) {
      rule.groupId in groups && (includeArchived || (groups[rule.groupId].active && rule.active))
    }

    function ExceptionAt(rule: RecurrenceRule, date: Day): Option<LessonException> {
      var ref := LessonRef(rule.id, date);
      if ref in byRef then Some(byRef[ref]) else None
    }

    function Resolve(rule: RecurrenceRule, date: Day): Occurrence
      requires rule.groupId in groups
    {
      ResolveOccurrence(policy, groups[rule.groupId], rule, date, ExceptionAt(rule, date))
    }

    function FirstDate(rule: RecurrenceRule): Day {
      if rule.startsOn >= range.startsOn then rule.startsOn else range.startsOn
    }

    function LastDate(rule: RecurrenceRule): Day {
      if rule.endsOn <= range.endsOn then rule.endsOn else range.endsOn
    }

    predicate InWindow(rule: RecurrenceRule, date: Day) {
      FirstDate(rule) <= date <= LastDate(rule)
    }

    // An exception whose lesson starts outside the window and lands in the range.
    predicate MovesIn(rule: RecurrenceRule, exception: LessonException) {
      && exception.ruleId == rule.id
      && !InWindow(rule, exception.originalDate)
      && exception.TargetDate().Some?
      && range.Contains(exception.TargetDate().value)
    }

    predicate BadTime(rule: RecurrenceRule, date: Day)
      requires rule.groupId in groups
    {
      Resolve(rule, date).startTime >= Resolve(rule, date).endTime
    }

    // First owned day of `date..last` whose occurrence has an invalid time.
    ghost function WindowError(rule: RecurrenceRule, date: int, last: Day): Option<ScheduleError>
      requires rule.groupId in groups && MIN_DAY <= date
      decreases last - date
    {
      if date > last then None
      else if rule.OccursOn(date) && BadTime(rule, date) then Some(InvalidEffectiveTime(rule.id, date))
      else WindowError(rule, date + 1, last)
    }

    // What one exception of the list has against `rule`.
    ghost function ExceptionError(rule: RecurrenceRule, exception: LessonException): Option<ScheduleError>
      requires rule.groupId in groups
    {
      if exception.ruleId != rule.id then None
      else if !rule.OccursOn(exception.originalDate) then Some(InvalidExceptionReference(exception.id))
      else if MovesIn(rule, exception) && BadTime(rule, exception.originalDate) then
        Some(InvalidEffectiveTime(rule.id, exception.originalDate))
      else None
    }

    ghost function ExceptionsError(rule: RecurrenceRule, rest: seq<LessonException>): Option<ScheduleError>
      requires rule.groupId in groups
    {
      if rest == [] then None
      else OrElse(ExceptionError(rule, rest[0]), ExceptionsError(rule, rest[1..]))
    }

    ghost function RuleError(rule: RecurrenceRule): Option<ScheduleError> {
      if rule.Invalid().Some? then rule.Invalid()
      else if rule.groupId !in groups then Some(MissingGroup(rule.id, rule.groupId))
      else if !Included(rule) then None
      else OrElse(WindowError(rule, FirstDate(rule), LastDate(rule)), ExceptionsError(rule, exceptions))
    }

    ghost function RulesError(rules: seq<RecurrenceRule>): Option<ScheduleError> {
      if rules == [] then None else OrElse(RuleError(rules[0]), RulesError(rules[1..]))
    }

    // The folds below add occurrences one at a time, in the order the loops visit them.
    ghost function AddDay(rule: RecurrenceRule, occurrences: map<LessonRef, Occurrence>, date: Day)
      : map<LessonRef, Occurrence>
      requires rule.groupId in groups
    {
      if rule.OccursOn(date) then occurrences[LessonRef(rule.id, date) := Resolve(rule, date)] else occurrences
    }

    ghost function AddDays(rule: RecurrenceRule, occurrences: map<LessonRef, Occurrence>, date: int, last: Day)
      : map<LessonRef, Occurrence>
      requires rule.groupId in groups && MIN_DAY <= date
      decreases last - date
    {
      if date > last then occurrences else AddDays(rule, AddDay(rule, occurrences, date), date + 1, last)
    }

    ghost function AddException(
      rule: RecurrenceRule, occurrences: map<LessonRef, Occurrence>, exception: LessonException)
      : map<LessonRef, Occurrence>
      requires rule.groupId in groups
    {
      if MovesIn(rule, exception)
      then occurrences[exception.Ref() := Resolve(rule, exception.originalDate)]
      else occurrences
    }

    ghost function AddExceptions(
      rule: RecurrenceRule, occurrences: map<LessonRef, Occurrence>, rest: seq<LessonException>)
      : map<LessonRef, Occurrence>
      requires rule.groupId in groups
      decreases rest
    {
      if rest == [] then occurrences else AddExceptions(rule, AddException(rule, occurrences, rest[0]), rest[1..])
    }

    ghost function AddRule(occurrences: map<LessonRef, Occurrence>, rule: RecurrenceRule)
      : map<LessonRef, Occurrence>
    {
      if Included(rule)
      then AddExceptions(rule, AddDays(rule, occurrences, FirstDate(rule), LastDate(rule)), exceptions)
      else occurrences
    }

    ghost function AddRules(occurrences: map<LessonRef, Occurrence>, rules: seq<RecurrenceRule>)
      : map<LessonRef, Occurrence>
      decreases rules
    {
      if rules == [] then occurrences else AddRules(AddRule(occurrences, rules[0]), rules[1..])
    }
  }

  ghost function FirstError(request: Request): Option<ScheduleError> {
    var duplicate := FirstDuplicate({}, request.exceptions);
    if request.range.startsOn > request.range.endsOn then Some(ReversedRange)
    else if duplicate.Some? then Some(DuplicateException(duplicate.value.ruleId, duplicate.value.originalDate))
    else request.Indexed().RulesError(request.rules)
  }

  // The order of the result: date, then start time, then stable reference.
  predicate Before(a: Occurrence, b: Occurrence) {
    || a.date < b.date
    || (a.date == b.date &&
        (|| a.startTime < b.startTime
         || (a.startTime == b.startTime &&
             (|| a.lessonRef.ruleId < b.lessonRef.ruleId
              || (a.lessonRef.ruleId == b.lessonRef.ruleId && a.lessonRef.originalDate < b.lessonRef.originalDate)))))
  }

  ghost predicate Ordered(list: seq<Occurrence>) {
    forall i, j | 0 <= i < j < |list| :: Before(list[i], list[j])
  }

  // `o` was collected under its own reference and falls in the range.
  ghost predicate Kept(collected: map<LessonRef, Occurrence>, range: ScheduleRange, o: Occurrence) {
    o.lessonRef in collected && collected[o.lessonRef] == o && range.Contains(o.date)
  }

  ghost predicate Lists(list: seq<Occurrence>, collected: map<LessonRef, Occurrence>, range: ScheduleRange) {
    Ordered(list) && forall o :: o in list <==> Kept(collected, range, o)
  }

  ghost predicate Outcome(request: Request, result: Result<seq<Occurrence>, ScheduleError>) {
    match FirstError(request)
    case Some(error) => result == Failure(error)
    case None => result.Success? && Lists(result.value, request.Indexed().AddRules(map[], request.rules), request.range)
  }

  // Every entry sits under its own reference.
  ghost predicate Keyed(collected: map<LessonRef, Occurrence>) {
    forall ref | ref in collected :: collected[ref].lessonRef == ref
  }

  // ---------- the program ----------

  method IndexExceptionsChecked(exceptions: seq<LessonException>)
    returns (result: Result<map<LessonRef, LessonException>, ScheduleError>)
    ensures match FirstDuplicate({}, exceptions)
            case Some(ref) => result == Failure(DuplicateException(ref.ruleId, ref.originalDate))
            case None => result == Success(IndexExceptions(exceptions))
  {
    var byRef: map<LessonRef, LessonException> := map[];
    assert exceptions[0..] == exceptions && byRef.Keys == {};
    for i := 0 to |exceptions|
      invariant byRef == IndexExceptions(exceptions[..i])
      invariant FirstDuplicate({}, exceptions) == FirstDuplicate(byRef.Keys, exceptions[i..])
    {
      var ref := exceptions[i].Ref();
      if ref in byRef {
        return Failure(DuplicateException(ref.ruleId, ref.originalDate));
      }
      assert exceptions[..i + 1][..i] == exceptions[..i] && exceptions[i..][1..] == exceptions[i + 1..];
      assert byRef[ref := exceptions[i]].Keys == byRef.Keys + {ref};
      byRef := byRef[ref := exceptions[i]];
    }
    assert exceptions[..|exceptions|] == exceptions;
    return Success(byRef);
  }

  method IndexGroupsById(groups: seq<Group>) returns (byId: map<Uuid, Group>)
    ensures byId == IndexGroups(groups)
  {
    byId := map[];
    for i := 0 to |groups|
      invariant byId == IndexGroups(groups[..i])
    {
      assert groups[..i + 1][..i] == groups[..i];
      byId := byId[groups[i].id := groups[i]];
    }
    assert groups[..|groups|] == groups;
  }

  // The owned days of the window, oldest first.
  method ExpandWindow(plan: Plan, rule: RecurrenceRule, before: map<LessonRef, Occurrence>)
    returns (result: Result<map<LessonRef, Occurrence>, ScheduleError>)
    requires rule.groupId in plan.groups
    ensures var first, last := plan.FirstDate(rule), plan.LastDate(rule);
            match plan.WindowError(rule, first, last)
            case Some(error) => result == Failure(error)
            case None => result == Success(plan.AddDays(rule, before, first, last))
  {
    var first, last := plan.FirstDate(rule), plan.LastDate(rule);
    var occurrences := before;
    if first > last {
      return Success(occurrences);
    }
    var date := first;
    while true
      invariant first <= date <= last
      invariant plan.AddDays(rule, before, first, last) == plan.AddDays(rule, occurrences, date, last)
      invariant plan.WindowError(rule, first, last) == plan.WindowError(rule, date, last)
      decreases last as int - date as int
    {
      var next := AddOwnedDay(plan, rule, occurrences, date);
      if next.Failure? {
        return Failure(next.error);
      }
      occurrences := next.value;
      if date == last {
        break;
      }
      if date == MAX_DAY {
        return Failure(DateOverflow);
      }
      date := date + 1;
    }
    return Success(occurrences);
  }

  method AddOwnedDay(plan: Plan, rule: RecurrenceRule, occurrences: map<LessonRef, Occurrence>, date: Day)
    returns (result: Result<map<LessonRef, Occurrence>, ScheduleError>)
    requires rule.groupId in plan.groups
    ensures result ==
            if rule.OccursOn(date) && plan.BadTime(rule, date) then Failure(InvalidEffectiveTime(rule.id, date))
            else Success(plan.AddDay(rule, occurrences, date))
  {
    if !rule.OccursOn(date) {
      return Success(occurrences);
    }
    var one := MaterializeOccurrence(plan.policy, plan.groups[rule.groupId], rule, date, plan.ExceptionAt(rule, date));
    if one.Failure? {
      return Failure(one.error);
    }
    return Success(occurrences[LessonRef(rule.id, date) := one.value]);
  }

  // Exceptions of this rule that pull an outside lesson into the range.
  method OverlayExceptions(plan: Plan, rule: RecurrenceRule, before: map<LessonRef, Occurrence>)
    returns (result: Result<map<LessonRef, Occurrence>, ScheduleError>)
    requires rule.groupId in plan.groups
    requires plan.byRef == IndexExceptions(plan.exceptions) && FirstDuplicate({}, plan.exceptions).None?
    ensures match plan.ExceptionsError(rule, plan.exceptions)
            case Some(error) => result == Failure(error)
            case None => result == Success(plan.AddExceptions(rule, before, plan.exceptions))
  {
    var exceptions := plan.exceptions;
    var occurrences := before;
    assert exceptions[0..] == exceptions;
    for i := 0 to |exceptions|
      invariant plan.AddExceptions(rule, before, exceptions)
                == plan.AddExceptions(rule, occurrences, exceptions[i..])
      invariant plan.ExceptionsError(rule, exceptions) == plan.ExceptionsError(rule, exceptions[i..])
    {
      assert exceptions[i..][1..] == exceptions[i + 1..];
      IndexedException(exceptions, i);
      var next := OverlayOne(plan, rule, occurrences, exceptions[i]);
      if next.Failure? {
        return Failure(next.error);
      }
      occurrences := next.value;
    }
    return Success(occurrences);
  }

  method OverlayOne(
    plan: Plan, rule: RecurrenceRule, occurrences: map<LessonRef, Occurrence>, exception: LessonException)
    returns (result: Result<map<LessonRef, Occurrence>, ScheduleError>)
    requires rule.groupId in plan.groups
    requires exception.Ref() in plan.byRef && plan.byRef[exception.Ref()] == exception
    ensures match plan.ExceptionError(rule, exception)
            case Some(error) => result == Failure(error)
            case None => result == Success(plan.AddException(rule, occurrences, exception))
  {
    if exception.ruleId != rule.id {
      return Success(occurrences);
    }
    if !rule.OccursOn(exception.originalDate) {
      return Failure(InvalidExceptionReference(exception.id));
    }
    if plan.FirstDate(rule) <= exception.originalDate <= plan.LastDate(rule) {
      return Success(occurrences);
    }
    var target := exception.TargetDate();
    if target.None? {
      return Success(occurrences);
    }
    if target.value < plan.range.startsOn || target.value > plan.range.endsOn {
      return Success(occurrences);
    }
    var one := MaterializeOccurrence(
      plan.policy, plan.groups[rule.groupId], rule, exception.originalDate, Some(exception));
    if one.Failure? {
      return Failure(one.error);
    }
    return Success(occurrences[LessonRef(rule.id, exception.originalDate) := one.value]);
  }

  // One pass of the outer loop.
  method ExpandRule(plan: Plan, rule: RecurrenceRule, before: map<LessonRef, Occurrence>)
    returns (result: Result<map<LessonRef, Occurrence>, ScheduleError>)
    requires plan.byRef == IndexExceptions(plan.exceptions) && FirstDuplicate({}, plan.exceptions).None?
    ensures match plan.RuleError(rule)
            case Some(error) => result == Failure(error)
            case None => result == Success(plan.AddRule(before, rule))
  {
    if rule.Invalid().Some? {
      return Failure(rule.Invalid().value);
    }
    if rule.groupId !in plan.groups {
      return Failure(MissingGroup(rule.id, rule.groupId));
    }
    if !plan.includeArchived && (!plan.groups[rule.groupId].active || !rule.active) {
      return Success(before);
    }
    var window := ExpandWindow(plan, rule, before);
    if window.Failure? {
      return Failure(window.error);
    }
    var overlaid := OverlayExceptions(plan, rule, window.value);
    return overlaid;
  }

  method Materialize(request: Request) returns (result: Result<seq<Occurrence>, ScheduleError>)
    ensures Outcome(request, result)
  {
    if request.range.startsOn > request.range.endsOn {
      return Failure(ReversedRange);
    }
    var groupById := IndexGroupsById(request.groups);
    var indexed := IndexExceptionsChecked(request.exceptions);
    if indexed.Failure? {
      return Failure(indexed.error);
    }
    var plan := Plan(
      request.policy, groupById, indexed.value, request.exceptions, request.range, request.includeArchived);
    var collected := ExpandRules(plan, request.rules);
    if collected.Failure? {
      return Failure(collected.error);
    }
    RulesAreKeyed(plan, map[], request.rules);
    var list := SortedInRange(collected.value, request.range);
    return Success(list);
  }

  method ExpandRules(plan: Plan, rules: seq<RecurrenceRule>)
    returns (result: Result<map<LessonRef, Occurrence>, ScheduleError>)
    requires plan.byRef == IndexExceptions(plan.exceptions) && FirstDuplicate({}, plan.exceptions).None?
    ensures match plan.RulesError(rules)
            case Some(error) => result == Failure(error)
            case None => result == Success(plan.AddRules(map[], rules))
  {
    var occurrences: map<LessonRef, Occurrence> := map[];
    assert rules[0..] == rules;
    for i := 0 to |rules|
      invariant plan.AddRules(map[], rules) == plan.AddRules(occurrences, rules[i..])
      invariant plan.RulesError(rules) == plan.RulesError(rules[i..])
    {
      assert rules[i..][1..] == rules[i + 1..];
      var next := ExpandRule(plan, rules[i], occurrences);
      if next.Failure? {
        return Failure(next.error);
      }
      occurrences := next.value;
    }
    return Success(occurrences);
  }

  lemma {:induction false} DaysAreKeyed(
    plan: Plan, rule: RecurrenceRule, occurrences: map<LessonRef, Occurrence>, date: int, last: Day)
    requires rule.groupId in plan.groups && MIN_DAY <= date && Keyed(occurrences)
    ensures Keyed(plan.AddDays(rule, occurrences, date, last))
    decreases last - date
  {
    if date <= last {
      DaysAreKeyed(plan, rule, plan.AddDay(rule, occurrences, date), date + 1, last);
    }
  }

  lemma {:induction false} ExceptionsAreKeyed(
    plan: Plan, rule: RecurrenceRule, occurrences: map<LessonRef, Occurrence>, rest: seq<LessonException>)
    requires rule.groupId in plan.groups && Keyed(occurrences)
    ensures Keyed(plan.AddExceptions(rule, occurrences, rest))
    decreases rest
  {
    if rest != [] {
      ExceptionsAreKeyed(plan, rule, plan.AddException(rule, occurrences, rest[0]), rest[1..]);
    }
  }

  lemma {:induction false} RulesAreKeyed(
    plan: Plan, occurrences: map<LessonRef, Occurrence>, rules: seq<RecurrenceRule>)
    requires Keyed(occurrences)
    ensures Keyed(plan.AddRules(occurrences, rules))
    decreases rules
  {
    if rules != [] {
      if plan.Included(rules[0]) {
        var first, last := plan.FirstDate(rules[0]), plan.LastDate(rules[0]);
        DaysAreKeyed(plan, rules[0], occurrences, first, last);
        ExceptionsAreKeyed(plan, rules[0], plan.AddDays(rules[0], occurrences, first, last), plan.exceptions);
      }
      RulesAreKeyed(plan, plan.AddRule(occurrences, rules[0]), rules[1..]);
    }
  }

  // Taking the collected values, cutting to the range and sorting by key.  The
  // library sort is modelled as insertion at the place its key belongs.
  method SortedInRange(collected: map<LessonRef, Occurrence>, range: ScheduleRange) returns (list: seq<Occurrence>)
    requires Keyed(collected)
    ensures Lists(list, collected, range)
  {
    list := [];
    var todo := collected.Keys;
    while todo != {}
      invariant todo <= collected.Keys
      invariant Ordered(list)
      invariant forall o :: o in list <==> Kept(collected, range, o) && o.lessonRef !in todo
      decreases todo
    {
      var ref :| ref in todo;
      todo := todo - {ref};
      if range.Contains(collected[ref].date) {
        list := InsertInOrder(list, collected[ref]);
      }
    }
  }

  method InsertInOrder(list: seq<Occurrence>, o: Occurrence) returns (longer: seq<Occurrence>)
    requires Ordered(list)
    requires forall x | x in list :: x.lessonRef != o.lessonRef
    ensures Ordered(longer)
    ensures forall x :: x in longer <==> x == o || x in list
  {
    var i := 0;
    while i < |list| && Before(list[i], o)
      invariant 0 <= i <= |list|
      invariant forall k | 0 <= k < i :: Before(list[k], o)
    {
      i := i + 1;
    }
    longer := list[..i] + [o] + list[i..];
  }

  // ---------- the index of exceptions ----------

  // With no duplicate, looking a reference up is finding the one exception that has it.
  lemma {:induction false} IndexedException(exceptions: seq<LessonException>, i: nat)
    requires FirstDuplicate({}, exceptions).None?
    requires i < |exceptions|
    ensures exceptions[i].Ref() in IndexExceptions(exceptions)
            && IndexExceptions(exceptions)[exceptions[i].Ref()] == exceptions[i]
  {
    NoDuplicate({}, exceptions);
    IndexLooksUp(exceptions, i);
  }

  lemma {:induction false} NoDuplicate(seen: set<LessonRef>, exceptions: seq<LessonException>)
    ensures FirstDuplicate(seen, exceptions).None? <==>
            && (forall i | 0 <= i < |exceptions| :: exceptions[i].Ref() !in seen)
            && (forall i, j | 0 <= i < j < |exceptions| :: exceptions[i].Ref() != exceptions[j].Ref())
    decreases exceptions
  {
    if exceptions != [] {
      var rest := exceptions[1..];
      NoDuplicate(seen + {exceptions[0].Ref()}, rest);
      assert forall i | 0 < i < |exceptions| :: exceptions[i] == rest[i - 1];
      if FirstDuplicate(seen, exceptions).None? {
        forall i, j | 0 <= i < j < |exceptions|
          ensures exceptions[i].Ref() != exceptions[j].Ref()
        {
          assert rest[j - 1].Ref() !in seen + {exceptions[0].Ref()};
          if i > 0 {
            assert rest[i - 1].Ref() != rest[j - 1].Ref();
          }
        }
      }
    }
  }

  lemma {:induction false} IndexLooksUp(exceptions: seq<LessonException>, i: nat)
    requires forall i, j | 0 <= i < j < |exceptions| :: exceptions[i].Ref() != exceptions[j].Ref()
    requires i < |exceptions|
    ensures exceptions[i].Ref() in IndexExceptions(exceptions)
            && IndexExceptions(exceptions)[exceptions[i].Ref()] == exceptions[i]
  {
    var n := |exceptions| - 1;
    if i < n {
      assert exceptions[..n][i] == exceptions[i];
      IndexLooksUp(exceptions[..n], i);
    }
  }
}
