// The schedule in terms of the fields of the request: which lessons are listed, where
// each field of an occurrence comes from, and what each error means.
module ScheduleFields {
  import opened Wrappers
  import opened Calendar
  import opened Booking
  import opened Schedule
  import opened ScheduleMaterializer
  import opened ScheduleTheorems

  // ---------- the calendar ----------

  // Day 1 is a Monday, and the seven weekdays follow one another for ever.
  lemma WeekdaysFollow(day: Day)
    requires day + 7 <= MAX_DAY
    ensures WeekdayOf(1) == Monday && WeekdayOf(7) == Sunday
    ensures WeekdayOf(day + 7) == WeekdayOf(day)
    ensures match WeekdayOf(day)
            case Monday => WeekdayOf(day + 1) == Tuesday
            case Tuesday => WeekdayOf(day + 1) == Wednesday
            case Wednesday => WeekdayOf(day + 1) == Thursday
            case Thursday => WeekdayOf(day + 1) == Friday
            case Friday => WeekdayOf(day + 1) == Saturday
            case Saturday => WeekdayOf(day + 1) == Sunday
            case Sunday => WeekdayOf(day + 1) == Monday
  {
  }

  // ---------- where a field comes from ----------

  // The first of three settings that is present, or the default.
  ghost predicate FirstPresent<T(!new)>(value: T, first: Option<T>, second: Option<T>, third: Option<T>, default: T) {
    && (forall v :: first == Some(v) ==> value == v)
    && (first.None? ==> forall v :: second == Some(v) ==> value == v)
    && (first.None? && second.None? ==> forall v :: third == Some(v) ==> value == v)
    && (first.None? && second.None? && third.None? ==> value == default)
  }

  // A setting that can be cleared: set wins, clearing wins, inheriting asks the next.
  ghost predicate FirstDecided<T(!new)>(
    value: Option<T>, first: NullableOverride<T>, second: NullableOverride<T>, default: Option<T>)
  {
    && (forall v :: first == Set(v) ==> value == Some(v))
    && (first == Clear ==> value == None)
    && (first == Inherit ==>
          && (forall v :: second == Set(v) ==> value == Some(v))
          && (second == Clear ==> value == None)
          && (second == Inherit ==> value == default))
  }

  // An occurrence with a snapshot takes everything the snapshot has.
  ghost predicate FollowsSnapshot(o: Occurrence, s: OccurrenceEffective) {
    && o.date == s.date && o.startTime == s.startTime && o.endTime == s.endTime
    && o.branchId == s.branchId && o.roomId == s.roomId && o.teacherIds == s.teacherIds
    && o.capacity == s.capacity && o.trialPolicy == s.trialPolicy && o.singleVisitAllowed == s.allowSingleVisits
  }

  // Otherwise each field asks the change, then the rule, then the group, then the policy.
  ghost predicate FollowsChange(
    o: Occurrence, c: OccurrenceOverride, policy: SchedulePolicy, group: Group, rule: RecurrenceRule, date: Day)
  {
    && FirstPresent(o.date, c.date, None, None, date)
    && FirstPresent(o.startTime, c.startTime, None, None, rule.startTime)
    && FirstPresent(o.endTime, c.endTime, None, None, rule.endTime)
    && FirstPresent(o.branchId, c.branchId, rule.branchIdOverride, None, group.branchId)
    && FirstDecided(o.roomId, c.roomId, rule.roomIdOverride, group.roomId)
    && FirstPresent(o.teacherIds, c.teacherIds, rule.teacherIdsOverride, None, group.teacherIds)
    && FirstDecided(o.capacity, c.capacity, rule.capacityOverride, group.capacity)
    && FirstPresent(o.trialPolicy, c.trialPolicy, rule.trialPolicyOverride, group.trialPolicyOverride, policy.defaultTrialPolicy)
    && FirstPresent(o.singleVisitAllowed, c.allowSingleVisits, group.allowSingleVisitsOverride, None,
                    policy.allowSingleVisitsByDefault)
  }

  // Without snapshot or change, from the rule on.
  ghost predicate FollowsRule(
    o: Occurrence, policy: SchedulePolicy, group: Group, rule: RecurrenceRule, date: Day)
  {
    && o.date == date && o.startTime == rule.startTime && o.endTime == rule.endTime
    && FirstPresent(o.branchId, rule.branchIdOverride, None, None, group.branchId)
    && FirstDecided(o.roomId, rule.roomIdOverride, Inherit, group.roomId)
    && FirstPresent(o.teacherIds, rule.teacherIdsOverride, None, None, group.teacherIds)
    && FirstDecided(o.capacity, rule.capacityOverride, Inherit, group.capacity)
    && FirstPresent(o.trialPolicy, rule.trialPolicyOverride, group.trialPolicyOverride, None, policy.defaultTrialPolicy)
    && FirstPresent(o.singleVisitAllowed, group.allowSingleVisitsOverride, None, None, policy.allowSingleVisitsByDefault)
  }

  ghost predicate Follows(
    o: Occurrence, policy: SchedulePolicy, group: Group, rule: RecurrenceRule, date: Day, exception: Option<LessonException>)
  {
    && o.lessonRef.ruleId == rule.id && o.lessonRef.originalDate == date && o.groupId == group.id
    && FirstPresent(o.trackAttendance, group.trackAttendanceOverride, None, None, policy.trackAttendanceByDefault)
    && match exception
       case None =>
         && FollowsRule(o, policy, group, rule, date)
         && o.originalStartTime == rule.startTime && o.originalEndTime == rule.endTime
         && o.status == Scheduled && o.exceptionId == None
       case Some(e) =>
         && o.originalStartTime == e.original.startTime && o.originalEndTime == e.original.endTime
         && o.exceptionId == Some(e.id)
         && match e.kind
            case CancelledLesson(Some(s)) => FollowsSnapshot(o, s) && o.status == Cancelled
            case CancelledLesson(None) => FollowsRule(o, policy, group, rule, date) && o.status == Cancelled
            case Override(c) =>
              && FollowsChange(o, c, policy, group, rule, date)
              && (o.status == Moved <==> o.date != date || o.startTime != rule.startTime || o.endTime != rule.endTime)
              && (o.status == Modified <==> o.date == date && o.startTime == rule.startTime && o.endTime == rule.endTime)
  }

  lemma SnapshotFollows(
    policy: SchedulePolicy, group: Group, rule: RecurrenceRule, date: Day, exception: Option<LessonException>)
    requires exception.Some? && exception.value.kind.CancelledLesson? && exception.value.kind.effective.Some?
    ensures Follows(ResolveOccurrence(policy, group, rule, date, exception), policy, group, rule, date, exception)
  {
  }

  lemma ChangeFollows(
    policy: SchedulePolicy, group: Group, rule: RecurrenceRule, date: Day, exception: Option<LessonException>)
    requires exception.Some? && exception.value.kind.Override?
    ensures Follows(ResolveOccurrence(policy, group, rule, date, exception), policy, group, rule, date, exception)
  {
  }

  // Every occurrence takes its fields in the stated order of precedence.
  lemma ResolvedFollows(
    policy: SchedulePolicy, group: Group, rule: RecurrenceRule, date: Day, exception: Option<LessonException>)
    ensures Follows(ResolveOccurrence(policy, group, rule, date, exception), policy, group, rule, date, exception)
  {
    if exception.Some? && exception.value.kind.Override? {
      ChangeFollows(policy, group, rule, date, exception);
    } else if exception.Some? && exception.value.kind.effective.Some? {
      SnapshotFollows(policy, group, rule, date, exception);
    }
  }

  lemma OneChange(
    a: Occurrence, b: Occurrence, c: OccurrenceOverride, policy: SchedulePolicy, group: Group, rule: RecurrenceRule, date: Day)
    requires FollowsChange(a, c, policy, group, rule, date) && FollowsChange(b, c, policy, group, rule, date)
    ensures a.Effective() == b.Effective()
  {
  }

  lemma OneRule(
    a: Occurrence, b: Occurrence, policy: SchedulePolicy, group: Group, rule: RecurrenceRule, date: Day)
    requires FollowsRule(a, policy, group, rule, date) && FollowsRule(b, policy, group, rule, date)
    ensures a.Effective() == b.Effective()
  {
  }

  // The fields leave no choice.
  lemma FollowingIsUnique(
    a: Occurrence, b: Occurrence,
    policy: SchedulePolicy, group: Group, rule: RecurrenceRule, date: Day, exception: Option<LessonException>)
    requires Follows(a, policy, group, rule, date, exception) && Follows(b, policy, group, rule, date, exception)
    ensures a == b
  {
    hide FollowsChange, FollowsRule;
    if exception.Some? && exception.value.kind.Override? {
      OneChange(a, b, exception.value.kind.changes, policy, group, rule, date);
    } else if exception.None? || exception.value.kind.effective.None? {
      OneRule(a, b, policy, group, rule, date);
    }
  }

  // ---------- which lessons are listed ----------

  // The group an id stands for: the last one given with it.
  ghost predicate StandsFor(groups: seq<Group>, id: Uuid, i: nat) {
    i < |groups| && groups[i].id == id && forall j | i < j < |groups| :: groups[j].id != id
  }

  lemma {:induction false} IndexedGroup(groups: seq<Group>, id: Uuid)
    ensures id in IndexGroups(groups) <==> exists i: nat :: StandsFor(groups, id, i)
    ensures forall i: nat | StandsFor(groups, id, i) :: id in IndexGroups(groups) && IndexGroups(groups)[id] == groups[i]
  {
    if groups != [] {
      var n := |groups| - 1;
      var before := groups[..n];
      IndexedGroup(before, id);
      if groups[n].id == id {
        assert StandsFor(groups, id, n);
      } else {
        forall i: nat
          ensures StandsFor(groups, id, i) <==> StandsFor(before, id, i)
        {
        }
      }
    }
  }

  // The exception that names the lesson, if any does.
  ghost predicate Names(exceptions: seq<LessonException>, ruleId: Uuid, date: Day, exception: Option<LessonException>) {
    match exception
    case None => forall e | e in exceptions :: e.ruleId != ruleId || e.originalDate != date
    case Some(e) => e in exceptions && e.ruleId == ruleId && e.originalDate == date
  }

  lemma NamedException(request: Request, rule: RecurrenceRule, date: Day, exception: Option<LessonException>)
    requires DistinctReferences(request.exceptions)
    ensures Names(request.exceptions, rule.id, date, exception) <==> exception == request.Indexed().ExceptionAt(rule, date)
  {
    DistinctReferencesIndex(request);
    var plan, ref := request.Indexed(), LessonRef(rule.id, date);
    if exception.Some? && Names(request.exceptions, rule.id, date, exception) {
      assert exception.value.Ref() == ref;
    }
    if ref !in plan.byRef {
      forall e | e in request.exceptions
        ensures e.ruleId != rule.id || e.originalDate != date
      {
        assert e.Ref() in plan.byRef;
      }
    }
  }

  // The `k`-th rule, with the `i`-th group, has a lesson on the date: within its days,
  // on one of its weekdays, and both active unless archived ones are asked for.
  ghost predicate HasLesson(request: Request, k: nat, i: nat, date: Day) {
    && k < |request.rules|
    && StandsFor(request.groups, request.rules[k].groupId, i)
    && (request.includeArchived || (request.groups[i].active && request.rules[k].active))
    && request.rules[k].startsOn <= date && date <= request.rules[k].endsOn
    && WeekdayOf(date) in request.rules[k].weekdays
  }

  lemma LessonsAreOwned(request: Request, k: nat, date: Day)
    ensures Owns(request, k, date) <==> exists i: nat :: HasLesson(request, k, i, date)
    ensures forall i: nat | HasLesson(request, k, i, date) ::
              request.rules[k].groupId in request.Indexed().groups
              && request.Indexed().groups[request.rules[k].groupId] == request.groups[i]
  {
    if k < |request.rules| {
      IndexedGroup(request.groups, request.rules[k].groupId);
      if Owns(request, k, date) {
        var i: nat :| StandsFor(request.groups, request.rules[k].groupId, i);
        assert HasLesson(request, k, i, date);
      }
    }
  }

  // `o` is a lesson of the request, told from the fields of the request alone.
  ghost predicate IsLesson(request: Request, o: Occurrence, k: nat, i: nat, date: Day, exception: Option<LessonException>) {
    && HasLesson(request, k, i, date)
    && (forall j: nat, h: nat | k < j && HasLesson(request, j, h, date) :: request.rules[j].id != request.rules[k].id)
    && Names(request.exceptions, request.rules[k].id, date, exception)
    && Follows(o, request.policy, request.groups[i], request.rules[k], date, exception)
    && request.range.startsOn <= o.date && o.date <= request.range.endsOn
  }

  lemma LessonIsDue(request: Request, o: Occurrence, k: nat, i: nat, date: Day, exception: Option<LessonException>)
    requires DistinctReferences(request.exceptions) && IsLesson(request, o, k, i, date, exception)
    ensures DueAt(request, o, k, date)
  {
    var rule := request.rules[k];
    LessonsAreOwned(request, k, date);
    forall j: nat | k < j < |request.rules| && Owns(request, j, date)
      ensures request.rules[j].id != rule.id
    {
      LessonsAreOwned(request, j, date);
    }
    NamedException(request, rule, date, exception);
    ResolvedFollows(request.policy, request.groups[i], rule, date, exception);
    FollowingIsUnique(o, request.Indexed().Resolve(rule, date), request.policy, request.groups[i], rule, date, exception);
  }

  lemma DueIsLesson(request: Request, o: Occurrence, k: nat, date: Day) returns (i: nat, exception: Option<LessonException>)
    requires DistinctReferences(request.exceptions) && DueAt(request, o, k, date)
    ensures IsLesson(request, o, k, i, date, exception)
  {
    var rule := request.rules[k];
    LessonsAreOwned(request, k, date);
    i :| HasLesson(request, k, i, date);
    forall j: nat, h: nat | k < j && HasLesson(request, j, h, date)
      ensures request.rules[j].id != rule.id
    {
      LessonsAreOwned(request, j, date);
    }
    exception := request.Indexed().ExceptionAt(rule, date);
    NamedException(request, rule, date, exception);
    ResolvedFollows(request.policy, request.groups[i], rule, date, exception);
  }

  // The list, in terms of the request's fields: exactly the lessons of its rules, each
  // field by its precedence, whose effective date is in the range.
  lemma ListedExactly(request: Request, list: seq<Occurrence>, o: Occurrence)
    requires Outcome(request, Success(list))
    ensures o in list <==> exists k: nat, i: nat, date, exception :: IsLesson(request, o, k, i, date, exception)
  {
    ExactContents(request, list);
    AcceptedExactly(request, Success(list));
    if o in list {
      var k: nat, date :| DueAt(request, o, k, date);
      var i, exception := DueIsLesson(request, o, k, date);
    }
    if k: nat, i: nat, date, exception :| IsLesson(request, o, k, i, date, exception) {
      LessonIsDue(request, o, k, i, date, exception);
    }
  }

  // The list runs by date, then start, then rule, then original date.
  lemma ListedInOrder(request: Request, list: seq<Occurrence>, i: nat, j: nat)
    requires Outcome(request, Success(list)) && i < j < |list|
    ensures var a, b := list[i], list[j];
            && a.date <= b.date
            && (a.date == b.date ==> a.startTime <= b.startTime)
            && (a.date == b.date && a.startTime == b.startTime ==> a.lessonRef.ruleId <= b.lessonRef.ruleId)
            && (a.date == b.date && a.startTime == b.startTime && a.lessonRef.ruleId == b.lessonRef.ruleId ==>
                  a.lessonRef.originalDate < b.lessonRef.originalDate)
  {
    assert Before(list[i], list[j]);
  }

  // ---------- when a schedule is refused ----------

  ghost predicate Repeats(ids: seq<Uuid>) {
    exists i, j | 0 <= i < j < |ids| :: ids[i] == ids[j]
  }

  lemma RepeatsOneMore(ids: seq<Uuid>, last: Uuid)
    ensures Repeats(ids + [last]) <==> Repeats(ids) || last in ids
  {
    var longer := ids + [last];
    if Repeats(ids) {
      var i, j :| 0 <= i < j < |ids| && ids[i] == ids[j];
      assert longer[i] == longer[j];
    }
    if last in ids {
      var i :| 0 <= i < |ids| && ids[i] == last;
      assert longer[i] == longer[|ids|];
    }
  }

  lemma ElementsOneMore(ids: seq<Uuid>, last: Uuid)
    ensures |Elements(ids + [last])| == |Elements(ids)| + (if last in ids then 0 else 1)
  {
    assert Elements(ids + [last]) == Elements(ids) + {last};
    if last in ids {
      assert Elements(ids) + {last} == Elements(ids);
    } else {
      assert last !in Elements(ids);
    }
  }

  // Counting distinct ids finds exactly the lists in which one repeats.
  lemma {:induction false} DuplicatesExactly(ids: seq<Uuid>)
    ensures HasDuplicates(ids) <==> Repeats(ids)
    ensures |Elements(ids)| <= |ids|
  {
    if ids != [] {
      var n := |ids| - 1;
      assert ids == ids[..n] + [ids[n]];
      DuplicatesExactly(ids[..n]);
      RepeatsOneMore(ids[..n], ids[n]);
      ElementsOneMore(ids[..n], ids[n]);
    }
  }

  // The times an exception gives a lesson of the rule.
  ghost predicate TakesPlace(e: LessonException, rule: RecurrenceRule, start: Time, end: Time) {
    match e.kind
    case CancelledLesson(Some(s)) => start == s.startTime && end == s.endTime
    case CancelledLesson(None) => start == rule.startTime && end == rule.endTime
    case Override(c) =>
      && FirstPresent(start, c.startTime, None, None, rule.startTime)
      && FirstPresent(end, c.endTime, None, None, rule.endTime)
  }

  // The exception's lesson starts in the range or is moved into it.
  ghost predicate Concerns(range: ScheduleRange, e: LessonException) {
    || (range.startsOn <= e.originalDate && e.originalDate <= range.endsOn)
    || exists day: Day ::
         && (e.kind.Override? ==> e.kind.changes.date == Some(day))
         && (e.kind.CancelledLesson? ==> e.kind.effective.Some? && e.kind.effective.value.date == day)
         && range.startsOn <= day && day <= range.endsOn
  }

  ghost predicate RuleIsSound(rule: RecurrenceRule) {
    && rule.startsOn <= rule.endsOn
    && rule.startTime < rule.endTime
    && (exists weekday :: weekday in rule.weekdays)
    && (forall ids, i, j | rule.teacherIdsOverride == Some(ids) && 0 <= i < j < |ids| :: ids[i] != ids[j])
  }

  ghost predicate ExceptionIsSound(range: ScheduleRange, rule: RecurrenceRule, e: LessonException) {
    e.ruleId == rule.id ==>
      && rule.startsOn <= e.originalDate && e.originalDate <= rule.endsOn
      && WeekdayOf(e.originalDate) in rule.weekdays
      && (Concerns(range, e) ==> forall start, end | TakesPlace(e, rule, start, end) :: start < end)
  }

  // The rule is sound, its group is given, and unless it is archived and archived ones
  // are not asked for, its exceptions are sound.
  ghost predicate SoundIn(request: Request, rule: RecurrenceRule) {
    && RuleIsSound(rule)
    && (exists i: nat :: StandsFor(request.groups, rule.groupId, i))
    && forall i: nat, e |
         e in request.exceptions && StandsFor(request.groups, rule.groupId, i)
         && (request.includeArchived || (request.groups[i].active && rule.active)) ::
         ExceptionIsSound(request.range, rule, e)
  }

  ghost predicate IsSound(request: Request) {
    && request.range.startsOn <= request.range.endsOn
    && (forall x, y | 0 <= x < y < |request.exceptions| ::
          request.exceptions[x].ruleId != request.exceptions[y].ruleId
          || request.exceptions[x].originalDate != request.exceptions[y].originalDate)
    && (forall rule | rule in request.rules :: SoundIn(request, rule))
  }

  lemma SoundRule(rule: RecurrenceRule)
    ensures rule.Invalid().None? <==> RuleIsSound(rule)
  {
    if rule.teacherIdsOverride.Some? {
      DuplicatesExactly(rule.teacherIdsOverride.value);
    }
    assert rule.weekdays != {} <==> exists weekday :: weekday in rule.weekdays;
  }

  lemma ConcernsWhatItTouches(range: ScheduleRange, e: LessonException)
    ensures Concerns(range, e) <==> Touches(range, e)
  {
  }

  lemma SoundException(request: Request, rule: RecurrenceRule, e: LessonException)
    requires DistinctReferences(request.exceptions) && e in request.exceptions
    requires rule.groupId in request.Indexed().groups
    ensures GoodException(request.Indexed(), rule, e) <==> ExceptionIsSound(request.range, rule, e)
  {
    if e.ruleId == rule.id {
      var plan := request.Indexed();
      NamedException(request, rule, e.originalDate, Some(e));
      ResolvedFollows(request.policy, plan.groups[rule.groupId], rule, e.originalDate, Some(e));
      var o := plan.Resolve(rule, e.originalDate);
      assert TakesPlace(e, rule, o.startTime, o.endTime);
      ConcernsWhatItTouches(request.range, e);
    }
  }

  // A schedule is produced exactly for a sound request.
  lemma ProducedExactly(request: Request, result: Result<seq<Occurrence>, ScheduleError>)
    requires Outcome(request, result)
    ensures result.Success? <==> IsSound(request)
  {
    AcceptedExactly(request, result);
    if DistinctReferences(request.exceptions) {
      forall rule | rule in request.rules
        ensures GoodRule(request.Indexed(), rule) <==> SoundIn(request, rule)
      {
        SoundRuleOfRequest(request, rule);
      }
    }
  }

  lemma SoundRuleOfRequest(request: Request, rule: RecurrenceRule)
    requires DistinctReferences(request.exceptions)
    ensures GoodRule(request.Indexed(), rule) <==> SoundIn(request, rule)
  {
    SoundRule(rule);
    IndexedGroup(request.groups, rule.groupId);
    if rule.groupId in request.Indexed().groups {
      forall e | e in request.exceptions
        ensures GoodException(request.Indexed(), rule, e) <==> ExceptionIsSound(request.range, rule, e)
      {
        SoundException(request, rule, e);
      }
    }
  }

  // ---------- which error is reported ----------

  // The request gives two exceptions for one lesson, `y` being the first to repeat one.
  ghost predicate FirstRepeat(exceptions: seq<LessonException>, y: nat) {
    && y < |exceptions|
    && (exists x | 0 <= x < y :: exceptions[x].ruleId == exceptions[y].ruleId && exceptions[x].originalDate == exceptions[y].originalDate)
    && DistinctReferences(exceptions[..y])
  }

  lemma {:induction false} DuplicateFound(seen: seq<LessonException>, rest: seq<LessonException>, y: nat)
    requires DistinctReferences(seen) && FirstRepeat(seen + rest, y)
    ensures |seen| <= y
    ensures FirstDuplicate(set e | e in seen :: e.Ref(), rest) == Some((seen + rest)[y].Ref())
    decreases rest
  {
    var all := seen + rest;
    var x :| 0 <= x < y && all[x].Ref() == all[y].Ref();
    assert y >= |seen| by {
      assert forall i | 0 <= i < |seen| :: all[i] == seen[i];
    }
    var next := seen + [rest[0]];
    assert next + rest[1..] == all;
    if y == |seen| {
      assert all[x] in seen;
    } else {
      assert DistinctReferences(next) by {
        assert forall i | 0 <= i < |next| :: next[i] == all[..y][i];
      }
      NewReference(seen, rest[0]);
      DuplicateFound(next, rest[1..], y);
    }
  }

  lemma NewReference(seen: seq<LessonException>, e: LessonException)
    requires DistinctReferences(seen + [e])
    ensures e.Ref() !in (set s | s in seen :: s.Ref())
    ensures (set s | s in seen + [e] :: s.Ref()) == (set s | s in seen :: s.Ref()) + {e.Ref()}
  {
    var all := seen + [e];
    assert all[|seen|] == e;
    forall s | s in seen
      ensures s.Ref() != e.Ref()
    {
      var i :| 0 <= i < |seen| && seen[i] == s;
      assert all[i] == s;
    }
  }

  lemma FirstRepeatFound(exceptions: seq<LessonException>, y: nat)
    requires FirstRepeat(exceptions, y)
    ensures FirstDuplicate({}, exceptions) == Some(exceptions[y].Ref())
  {
    assert [] + exceptions == exceptions;
    assert (set e: LessonException | e in [] :: e.Ref()) == {};
    DuplicateFound([], exceptions, y);
  }

  // The range comes first, then the exceptions: a reversed range is reported whatever
  // else is wrong, and a lesson given two exceptions before anything about the rules.
  lemma RangeThenExceptions(request: Request, result: Result<seq<Occurrence>, ScheduleError>)
    requires Outcome(request, result)
    ensures request.range.startsOn > request.range.endsOn ==> result == Failure(ReversedRange)
    ensures forall y: nat | request.range.startsOn <= request.range.endsOn && FirstRepeat(request.exceptions, y) ::
              result == Failure(DuplicateException(request.exceptions[y].ruleId, request.exceptions[y].originalDate))
  {
    forall y: nat | FirstRepeat(request.exceptions, y)
      ensures FirstDuplicate({}, request.exceptions) == Some(request.exceptions[y].Ref())
    {
      FirstRepeatFound(request.exceptions, y);
    }
  }

  // What an error says about the rule it was raised for.
  ghost predicate IsAbout(request: Request, rule: RecurrenceRule, error: ScheduleError) {
    match error
    case ReversedRuleRange(id) => id == rule.id && rule.startsOn > rule.endsOn
    case InvalidRuleTime(id) => id == rule.id && rule.startsOn <= rule.endsOn && rule.startTime >= rule.endTime
    case EmptyRuleWeekdays(id) =>
      id == rule.id && rule.startsOn <= rule.endsOn && rule.startTime < rule.endTime && rule.weekdays == {}
    case DuplicateTeachers(id) =>
      && id == rule.id && rule.startsOn <= rule.endsOn && rule.startTime < rule.endTime && rule.weekdays != {}
      && rule.teacherIdsOverride.Some? && Repeats(rule.teacherIdsOverride.value)
    case MissingGroup(id, groupId) =>
      && id == rule.id && groupId == rule.groupId && RuleIsSound(rule)
      && forall g | g in request.groups :: g.id != groupId
    case InvalidExceptionReference(id) =>
      && RuleIsSound(rule)
      && exists e | e in request.exceptions && e.id == id ::
           && e.ruleId == rule.id
           && !(rule.startsOn <= e.originalDate <= rule.endsOn && WeekdayOf(e.originalDate) in rule.weekdays)
    case InvalidEffectiveTime(id, date) =>
      && id == rule.id && RuleIsSound(rule)
      && exists e, start, end | e in request.exceptions && TakesPlace(e, rule, start, end) ::
           e.ruleId == rule.id && e.originalDate == date && start >= end
    case _ => false
  }

  lemma {:induction false} WindowErrorIsBadTime(plan: Plan, rule: RecurrenceRule, date: int, last: Day)
    requires rule.groupId in plan.groups && MIN_DAY <= date
    ensures var error := plan.WindowError(rule, date, last);
            error.Some? ==> exists d: Day :: error == Some(InvalidEffectiveTime(rule.id, d)) && plan.BadTime(rule, d)
    decreases last - date
  {
    if date <= last {
      if rule.OccursOn(date) && plan.BadTime(rule, date) {
        assert plan.WindowError(rule, date, last) == Some(InvalidEffectiveTime(rule.id, date));
      } else {
        WindowErrorIsBadTime(plan, rule, date + 1, last);
      }
    }
  }

  lemma {:induction false} SomeExceptionIsWrong(plan: Plan, rule: RecurrenceRule, rest: seq<LessonException>)
    requires rule.groupId in plan.groups
    ensures plan.ExceptionsError(rule, rest).Some? ==>
              exists e | e in rest :: plan.ExceptionError(rule, e) == plan.ExceptionsError(rule, rest)
    decreases rest
  {
    if rest != [] {
      SomeExceptionIsWrong(plan, rule, rest[1..]);
      assert rest[0] in rest && forall e | e in rest[1..] :: e in rest;
    }
  }

  // A lesson of a sound rule has bad times only through its exception.
  lemma BadTimeIsAbout(request: Request, rule: RecurrenceRule, date: Day)
    requires DistinctReferences(request.exceptions) && RuleIsSound(rule) && rule.groupId in request.Indexed().groups
    requires request.Indexed().BadTime(rule, date)
    ensures IsAbout(request, rule, InvalidEffectiveTime(rule.id, date))
  {
    var plan := request.Indexed();
    var exception := plan.ExceptionAt(rule, date);
    NamedException(request, rule, date, exception);
    ResolvedFollows(request.policy, plan.groups[rule.groupId], rule, date, exception);
    var o := plan.Resolve(rule, date);
    assert exception.Some?;
    assert TakesPlace(exception.value, rule, o.startTime, o.endTime);
  }

  lemma RuleErrorIsAbout(request: Request, rule: RecurrenceRule)
    requires DistinctReferences(request.exceptions)
    ensures request.Indexed().RuleError(rule).Some? ==> IsAbout(request, rule, request.Indexed().RuleError(rule).value)
  {
    var plan := request.Indexed();
    SoundRule(rule);
    if rule.teacherIdsOverride.Some? {
      DuplicatesExactly(rule.teacherIdsOverride.value);
    }
    if rule.Invalid().Some? {
    } else if rule.groupId !in plan.groups {
      GroupIsMissing(request.groups, rule.groupId);
    } else if plan.Included(rule) {
      WindowErrorIsBadTime(plan, rule, plan.FirstDate(rule), plan.LastDate(rule));
      SomeExceptionIsWrong(plan, rule, plan.exceptions);
      forall d: Day | plan.BadTime(rule, d)
        ensures IsAbout(request, rule, InvalidEffectiveTime(rule.id, d))
      {
        BadTimeIsAbout(request, rule, d);
      }
    }
  }

  lemma {:induction false} GroupIsMissing(groups: seq<Group>, id: Uuid)
    ensures id !in IndexGroups(groups) ==> forall g | g in groups :: g.id != id
  {
    if groups != [] {
      var n := |groups| - 1;
      GroupIsMissing(groups[..n], id);
      assert groups == groups[..n] + [groups[n]];
    }
  }

  lemma {:induction false} FirstWrongRule(plan: Plan, rules: seq<RecurrenceRule>) returns (k: nat)
    requires plan.RulesError(rules).Some?
    ensures k < |rules| && plan.RuleError(rules[k]) == plan.RulesError(rules)
    ensures forall j | 0 <= j < k :: plan.RuleError(rules[j]).None?
    decreases rules
  {
    if plan.RuleError(rules[0]).Some? {
      k := 0;
    } else {
      var m := FirstWrongRule(plan, rules[1..]);
      k := m + 1;
    }
  }

  // With range and exceptions in order, the error reported is about the first rule that
  // is at fault, and true of it.
  lemma ErrorIsAboutTheFirstRule(request: Request, error: ScheduleError) returns (k: nat)
    requires Outcome(request, Failure(error))
    requires request.range.startsOn <= request.range.endsOn && DistinctReferences(request.exceptions)
    ensures k < |request.rules| && IsAbout(request, request.rules[k], error)
    ensures forall j | 0 <= j < k :: SoundIn(request, request.rules[j])
  {
    NoDuplicate({}, request.exceptions);
    k := FirstWrongRule(request.Indexed(), request.rules);
    RuleErrorIsAbout(request, request.rules[k]);
    DistinctReferencesIndex(request);
    forall j | 0 <= j < k
      ensures SoundIn(request, request.rules[j])
    {
      RuleAccepts(request.Indexed(), request.rules[j]);
      SoundRuleOfRequest(request, request.rules[j]);
    }
  }

  // ---------- one occurrence on its own ----------

  // What the single-occurrence entry point returns, for every input: the rule's own
  // fault first, then nothing for a date or group that is not the rule's, then an
  // exception of another lesson, then times in the wrong order.
  lemma SingleOccurrenceExactly(
    policy: SchedulePolicy, group: Group, rule: RecurrenceRule, exception: Option<LessonException>, date: Day)
    ensures var result := MaterializeScheduleOccurrence(policy, group, rule, exception, date);
            var owned := rule.groupId == group.id && rule.startsOn <= date && date <= rule.endsOn
                         && WeekdayOf(date) in rule.weekdays;
            && (!RuleIsSound(rule) ==>
                  result == Failure(if rule.startsOn > rule.endsOn then ReversedRuleRange(rule.id)
                                    else if rule.startTime >= rule.endTime then InvalidRuleTime(rule.id)
                                    else if rule.weekdays == {} then EmptyRuleWeekdays(rule.id)
                                    else DuplicateTeachers(rule.id)))
            && (RuleIsSound(rule) && !owned ==> result == Success(None))
            && (RuleIsSound(rule) && owned ==>
                  if exception.Some? && (exception.value.ruleId != rule.id || exception.value.originalDate != date) then
                    result == Failure(InvalidExceptionReference(exception.value.id))
                  else
                    exists o ::
                      && Follows(o, policy, group, rule, date, exception)
                      && result == (if o.startTime < o.endTime then Success(Some(o))
                                    else Failure(InvalidEffectiveTime(rule.id, date))))
  {
    SoundRule(rule);
    ResolvedFollows(policy, group, rule, date, exception);
  }
}
