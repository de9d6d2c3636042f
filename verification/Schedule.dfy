// Recurrence rules, lesson exceptions, and how one occurrence is resolved.
module Schedule {
  import opened Wrappers
  import opened Calendar
  import opened Booking

  // Local time of day; only its order matters.
  type Time = nat

  datatype Money = Money(amountMinor: nat, currency: string)

  datatype TrialPolicy = Disabled | Free | Paid(price: Money)

  datatype SchedulePolicy = SchedulePolicy(
    defaultTrialPolicy: TrialPolicy,
    trackAttendanceByDefault: bool,
    allowSingleVisitsByDefault: bool)

  datatype Group = Group(
    id: Uuid,
    branchId: Uuid,
    roomId: Option<Uuid>,
    teacherIds: seq<Uuid>,
    capacity: Option<nat>,
    trialPolicyOverride: Option<TrialPolicy>,
    trackAttendanceOverride: Option<bool>,
    allowSingleVisitsOverride: Option<bool>,
    active: bool)

  // A three-state override that tells inheriting apart from clearing.
  datatype NullableOverride<+T> = Inherit | Clear | Set(value: T)

  datatype RecurrenceRule = RecurrenceRule(
    id: Uuid,
    groupId: Uuid,
    startsOn: Day,
    endsOn: Day,
    weekdays: set<Weekday>,
    startTime: Time,
    endTime: Time,
    branchIdOverride: Option<Uuid>,
    roomIdOverride: NullableOverride<Uuid>,
    teacherIdsOverride: Option<seq<Uuid>>,
    capacityOverride: NullableOverride<nat>,
    trialPolicyOverride: Option<TrialPolicy>,
    active: bool)
  {
    predicate OccursOn(date: Day) {
      startsOn <= date <= endsOn && WeekdayOf(date) in weekdays
    }

    // The first complaint about the rule itself, if any.
    function Invalid(): Option<ScheduleError> {
      if startsOn > endsOn then Some(ReversedRuleRange(id))
      else if startTime >= endTime then Some(InvalidRuleTime(id))
      else if weekdays == {} then Some(EmptyRuleWeekdays(id))
      else if teacherIdsOverride.Some? && HasDuplicates(teacherIdsOverride.value) then Some(DuplicateTeachers(id))
      else None
    }
  }

  function Elements(ids: seq<Uuid>): set<Uuid> {
    set id | id in ids
  }

  predicate HasDuplicates(ids: seq<Uuid>) {
    |Elements(ids)| != |ids|
  }

  // The occurrence as it was before an exception touched it.
  datatype LessonOriginal = LessonOriginal(startTime: Time, endTime: Time)

  datatype OccurrenceOverride = OccurrenceOverride(
    date: Option<Day>,
    startTime: Option<Time>,
    endTime: Option<Time>,
    branchId: Option<Uuid>,
    roomId: NullableOverride<Uuid>,
    teacherIds: Option<seq<Uuid>>,
    capacity: NullableOverride<nat>,
    trialPolicy: Option<TrialPolicy>,
    allowSingleVisits: Option<bool>)

  // Fully resolved values, kept when an overridden lesson is cancelled.
  datatype OccurrenceEffective = OccurrenceEffective(
    date: Day,
    startTime: Time,
    endTime: Time,
    branchId: Uuid,
    roomId: Option<Uuid>,
    teacherIds: seq<Uuid>,
    capacity: Option<nat>,
    trialPolicy: TrialPolicy,
    allowSingleVisits: bool)

  datatype LessonExceptionKind =
    | CancelledLesson(effective: Option<OccurrenceEffective>)
    | Override(changes: OccurrenceOverride)

  datatype LessonException = LessonException(
    id: Uuid,
    ruleId: Uuid,
    originalDate: Day,
    original: LessonOriginal,
    kind: LessonExceptionKind)
  {
    function Ref(): LessonRef {
      LessonRef(ruleId, originalDate)
    }

    // The date the exception moves the lesson to, when it names one.
    function TargetDate(): Option<Day> {
      match kind
      case CancelledLesson(effective) => if effective.Some? then Some(effective.value.date) else None
      case Override(changes) => changes.date
    }
  }

  datatype OccurrenceStatus = Scheduled | Moved | Modified | Cancelled

  datatype Occurrence = Occurrence(
    lessonRef: LessonRef,
    groupId: Uuid,
    branchId: Uuid,
    roomId: Option<Uuid>,
    teacherIds: seq<Uuid>,
    originalStartTime: Time,
    originalEndTime: Time,
    date: Day,
    startTime: Time,
    endTime: Time,
    capacity: Option<nat>,
    trialPolicy: TrialPolicy,
    singleVisitAllowed: bool,
    trackAttendance: bool,
    status: OccurrenceStatus,
    exceptionId: Option<Uuid>)
  {
    // What a later cancellation stores about an overridden lesson.
    function Effective(): OccurrenceEffective {
      OccurrenceEffective(date, startTime, endTime, branchId, roomId, teacherIds, capacity, trialPolicy,
                          singleVisitAllowed)
    }
  }

  datatype ScheduleError =
    | ReversedRange
    | ReversedRuleRange(ruleId: Uuid)
    | InvalidRuleTime(ruleId: Uuid)
    | EmptyRuleWeekdays(ruleId: Uuid)
    | DuplicateTeachers(ruleId: Uuid)
    | MissingGroup(ruleId: Uuid, groupId: Uuid)
    | DuplicateException(ruleId: Uuid, originalDate: Day)
    | InvalidExceptionReference(exceptionId: Uuid)
    | InvalidEffectiveTime(ruleId: Uuid, originalDate: Day)
    | DateOverflow

  function ResolveNullable<T>(occurrence: NullableOverride<T>, rule: NullableOverride<T>, group: Option<T>): Option<T> {
    match occurrence
    case Set(value) => Some(value)
    case Clear => None
    case Inherit =>
      match rule
      case Set(value) => Some(value)
      case Clear => None
      case Inherit => group
  }

  const NO_CHANGES := OccurrenceOverride(None, None, None, None, Inherit, None, Inherit, None, None)

  // The values an exception carries, in the two shapes the resolver reads:
  // a snapshot (cancellation of an overridden lesson) and partial changes.
  function SnapshotOf(exception: Option<LessonException>): Option<OccurrenceEffective> {
    if exception.Some? && exception.value.kind.CancelledLesson? then exception.value.kind.effective else None
  }

  function ChangesOf(exception: Option<LessonException>): OccurrenceOverride {
    if exception.Some? && exception.value.kind.Override? then exception.value.kind.changes else NO_CHANGES
  }

  // Snapshot first, then partial change, then rule, group and policy defaults.
  function ResolveOccurrence(
    policy: SchedulePolicy, group: Group, rule: RecurrenceRule, originalDate: Day, exception: Option<LessonException>)
    : Occurrence
  {
    var snapshot := SnapshotOf(exception);
    var changes := ChangesOf(exception);
    var date := if snapshot.Some? then snapshot.value.date else changes.date.GetOr(originalDate);
    var startTime := if snapshot.Some? then snapshot.value.startTime else changes.startTime.GetOr(rule.startTime);
    var endTime := if snapshot.Some? then snapshot.value.endTime else changes.endTime.GetOr(rule.endTime);
    var moved := date != originalDate || startTime != rule.startTime || endTime != rule.endTime;
    Occurrence(
      LessonRef(rule.id, originalDate),
      group.id,
      if snapshot.Some? then snapshot.value.branchId
      else OrElse(changes.branchId, rule.branchIdOverride).GetOr(group.branchId),
      if snapshot.Some? then snapshot.value.roomId
      else ResolveNullable(changes.roomId, rule.roomIdOverride, group.roomId),
      if snapshot.Some? then snapshot.value.teacherIds
      else OrElse(changes.teacherIds, rule.teacherIdsOverride).GetOr(group.teacherIds),
      if exception.Some? then exception.value.original.startTime else rule.startTime,
      if exception.Some? then exception.value.original.endTime else rule.endTime,
      date,
      startTime,
      endTime,
      if snapshot.Some? then snapshot.value.capacity
      else ResolveNullable(changes.capacity, rule.capacityOverride, group.capacity),
      if snapshot.Some? then snapshot.value.trialPolicy
      else OrElse(changes.trialPolicy, OrElse(rule.trialPolicyOverride, group.trialPolicyOverride))
           .GetOr(policy.defaultTrialPolicy),
      if snapshot.Some? then snapshot.value.allowSingleVisits
      else OrElse(changes.allowSingleVisits, group.allowSingleVisitsOverride).GetOr(policy.allowSingleVisitsByDefault),
      group.trackAttendanceOverride.GetOr(policy.trackAttendanceByDefault),
      if exception.None? then Scheduled
      else if exception.value.kind.CancelledLesson? then Cancelled
      else if moved then Moved
      else Modified,
      if exception.Some? then Some(exception.value.id) else None)
  }

  function MaterializeOccurrence(
    policy: SchedulePolicy, group: Group, rule: RecurrenceRule, originalDate: Day, exception: Option<LessonException>)
    : Result<Occurrence, ScheduleError>
  {
    var occurrence := ResolveOccurrence(policy, group, rule, originalDate, exception);
    if occurrence.startTime >= occurrence.endTime then Failure(InvalidEffectiveTime(rule.id, originalDate))
    else Success(occurrence)
  }

  // One stable occurrence, or `None` when the rule does not own it.
  function MaterializeScheduleOccurrence(
    policy: SchedulePolicy, group: Group, rule: RecurrenceRule, exception: Option<LessonException>, originalDate: Day)
    : Result<Option<Occurrence>, ScheduleError>
  {
    if rule.Invalid().Some? then Failure(rule.Invalid().value)
    else if rule.groupId != group.id || !rule.OccursOn(originalDate) then Success(None)
    else if exception.Some? && exception.value.Ref() != LessonRef(rule.id, originalDate) then
      Failure(InvalidExceptionReference(exception.value.id))
    else
      match MaterializeOccurrence(policy, group, rule, originalDate, exception)
      case Success(occurrence) => Success(Some(occurrence))
      case Failure(error) => Failure(error)
  }

  // Cancelling an overridden lesson with its resolved values keeps every
  // effective value: only the status and the exception's own identity change,
  // and the cancelled form is valid exactly when the overridden one was.
  lemma CancellationKeepsTheOverride(
    policy: SchedulePolicy, group: Group, rule: RecurrenceRule, date: Day, override: LessonException, cancelId: Uuid)
    requires override.kind.Override?
    ensures var before := ResolveOccurrence(policy, group, rule, date, Some(override));
            var cancellation := override.(id := cancelId, kind := CancelledLesson(Some(before.Effective())));
            var after := MaterializeOccurrence(policy, group, rule, date, Some(cancellation));
            && cancellation.TargetDate() == Some(before.date)
            && (MaterializeOccurrence(policy, group, rule, date, Some(override)).Success? <==> after.Success?)
            && (after.Success? ==> after.value == before.(status := Cancelled, exceptionId := Some(cancelId)))
  {
  }

  // Without a snapshot, an exception's date is its target date or the original
  // date: nothing else can move a lesson.
  lemma EffectiveDate(
    policy: SchedulePolicy, group: Group, rule: RecurrenceRule, date: Day, exception: Option<LessonException>)
    ensures ResolveOccurrence(policy, group, rule, date, exception).date
            == (if exception.None? then date else exception.value.TargetDate().GetOr(date))
  {
  }
}
