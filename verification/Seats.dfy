// Who occupies a lesson, and why a lesson is never oversold.
module Seats {
  import opened Wrappers
  import opened Calendar
  import opened Booking

  datatype EnrollmentStatus = Active | Paused | Ended

  datatype WeeklySelection = WeeklySelection(ruleId: Uuid, weekday: Weekday)

  datatype Assignment = NeedsAssignment | Configured(selections: set<WeeklySelection>)

  // `date` is the effective date; the reference keeps the original one.
  datatype Lesson = Lesson(groupId: Uuid, date: Day, lessonRef: LessonRef)

  datatype Enrollment = Enrollment(
    childId: Uuid,
    groupId: Uuid,
    startDate: Day,
    endDate: Option<Day>,
    status: EnrollmentStatus,
    assignment: Assignment)
  {
    predicate IsActiveOn(date: Day) {
      status == Active && startDate <= date && (endDate.None? || date <= endDate.value)
    }

    predicate Covers(lesson: Lesson) {
      if groupId != lesson.groupId || !IsActiveOn(lesson.date) then false
      else match assignment
        case NeedsAssignment => true
        case Configured(selections) =>
          WeeklySelection(lesson.lessonRef.ruleId, WeekdayOf(lesson.lessonRef.originalDate)) in selections
    }
  }

  datatype BookingSeat = BookingSeat(childId: Uuid, lessonRef: LessonRef, status: BookingStatus)
  {
    predicate HoldsSeatFor(lesson: Lesson) {
      status.HoldsSeat() && lessonRef == lesson.lessonRef
    }
  }

  function ParticipantChildIds(lesson: Lesson, enrollments: seq<Enrollment>, bookings: seq<BookingSeat>): set<Uuid> {
    (set e | e in enrollments && e.Covers(lesson) :: e.childId)
    + (set b | b in bookings && b.HoldsSeatFor(lesson) :: b.childId)
  }

  function Occupancy(lesson: Lesson, enrollments: seq<Enrollment>, bookings: seq<BookingSeat>): nat {
    |ParticipantChildIds(lesson, enrollments, bookings)|
  }

  function HasCapacityForChild(
    lesson: Lesson, capacity: Option<nat>, childId: Uuid, enrollments: seq<Enrollment>, bookings: seq<BookingSeat>)
    : bool
  {
    var participants := ParticipantChildIds(lesson, enrollments, bookings);
    childId in participants || capacity.None? || |participants| < capacity.value
  }

  // ---------- one booking ----------

  // The seats a lesson has once one more booking is made.
  lemma ParticipantsAfterBooking(
    lesson: Lesson, enrollments: seq<Enrollment>, bookings: seq<BookingSeat>, seat: BookingSeat)
    ensures ParticipantChildIds(lesson, enrollments, bookings + [seat])
            == ParticipantChildIds(lesson, enrollments, bookings)
               + (if seat.HoldsSeatFor(lesson) then {seat.childId} else {})
  {
    assert forall b :: b in bookings + [seat] <==> b in bookings || b == seat;
  }

  // The capacity check passes exactly when admitting the child leaves the
  // occupancy as it was or within the limit.
  lemma CapacityCheckIsExact(
    lesson: Lesson, capacity: Option<nat>, enrollments: seq<Enrollment>, bookings: seq<BookingSeat>, seat: BookingSeat)
    requires seat.HoldsSeatFor(lesson)
    ensures var before := Occupancy(lesson, enrollments, bookings);
            var after := Occupancy(lesson, enrollments, bookings + [seat]);
            HasCapacityForChild(lesson, capacity, seat.childId, enrollments, bookings)
            <==> (after == before || capacity.None? || after <= capacity.value)
  {
    ParticipantsAfterBooking(lesson, enrollments, bookings, seat);
    var participants := ParticipantChildIds(lesson, enrollments, bookings);
    if seat.childId in participants {
      assert participants + {seat.childId} == participants;
    } else {
      assert |participants + {seat.childId}| == |participants| + 1;
    }
  }

  // A child who is enrolled and booked, or booked twice, takes one seat.
  lemma OneSeatPerChild(
    lesson: Lesson, enrollments: seq<Enrollment>, bookings: seq<BookingSeat>, seat: BookingSeat)
    requires seat.childId in ParticipantChildIds(lesson, enrollments, bookings)
    ensures Occupancy(lesson, enrollments, bookings + [seat]) == Occupancy(lesson, enrollments, bookings)
  {
    ParticipantsAfterBooking(lesson, enrollments, bookings, seat);
    var participants := ParticipantChildIds(lesson, enrollments, bookings);
    assert participants + {seat.childId} == participants;
  }

  // A moved lesson keeps the enrollments of its original weekday: within the
  // enrollment's dates, moving it changes no configured coverage.
  lemma MovedLessonKeepsCoverage(e: Enrollment, lesson: Lesson, date: Day)
    requires e.IsActiveOn(lesson.date) && e.IsActiveOn(date)
    ensures e.Covers(lesson.(date := date)) <==> e.Covers(lesson)
  {
  }

  // ---------- status changes ----------

  // An accepted transition yields its target, is idempotent, and never turns a
  // status that holds no seat into one that does.
  lemma TransitionsReleaseOnly(from: BookingStatus, target: BookingStatus)
    ensures from.TransitionTo(target).Success? ==>
              && from.TransitionTo(target).value == target
              && target.TransitionTo(target) == Success(target)
              && (target.HoldsSeat() ==> from.HoldsSeat())
    ensures from.TransitionTo(target).Failure? ==>
              && from != target
              && from.TransitionTo(target).error == TransitionError(from, target)
              && (!from.HoldsSeat() || (from.Confirmed? && (target.PendingConfirmation? || target.Rejected?)))
  {
  }

  ghost predicate Reaches(path: seq<BookingStatus>) {
    |path| > 0 && forall i | 0 <= i < |path| - 1 :: path[i].TransitionTo(path[i + 1]) == Success(path[i + 1])
  }

  // Over any history: once a seat is released it stays released, and the status
  // that released it is final.
  lemma {:induction false} ReleasedForGood(path: seq<BookingStatus>)
    requires Reaches(path) && !path[0].HoldsSeat()
    ensures forall i | 0 <= i < |path| :: path[i] == path[0]
  {
    if |path| > 1 {
      assert path[0].TransitionTo(path[1]) == Success(path[1]);
      assert Reaches(path[1..]) by {
        forall i | 0 <= i < |path[1..]| - 1
          ensures path[1..][i].TransitionTo(path[1..][i + 1]) == Success(path[1..][i + 1])
        {
          assert path[i + 1].TransitionTo(path[i + 2]) == Success(path[i + 2]);
        }
      }
      ReleasedForGood(path[1..]);
      assert forall i | 1 <= i < |path| :: path[i] == path[1..][i - 1];
    }
  }

  // ---------- runs ----------

  // A timetable has one lesson per reference, with its capacity.
  datatype Slot = Slot(lesson: Lesson, capacity: Option<nat>)

  type Timetable = map<LessonRef, Slot>

  ghost predicate WellKeyed(timetable: Timetable) {
    forall ref | ref in timetable :: timetable[ref].lesson.lessonRef == ref
  }

  datatype Command =
    | Book(seat: BookingSeat)
    | Change(index: nat, target: BookingStatus)

  // A seat-holding booking is added only when its lesson has room for the child,
  // a status changes only along an allowed transition; other commands do nothing.
  function Apply(timetable: Timetable, enrollments: seq<Enrollment>, bookings: seq<BookingSeat>, command: Command)
    : seq<BookingSeat>
  {
    match command
    case Book(seat) =>
      if !seat.status.HoldsSeat() then bookings + [seat]
      else if seat.lessonRef !in timetable then bookings
      else
        var slot := timetable[seat.lessonRef];
        if HasCapacityForChild(slot.lesson, slot.capacity, seat.childId, enrollments, bookings)
        then bookings + [seat]
        else bookings
    case Change(index, target) =>
      if index < |bookings| && bookings[index].status.TransitionTo(target).Success?
      then bookings[index := bookings[index].(status := bookings[index].status.TransitionTo(target).value)]
      else bookings
  }

  function Run(timetable: Timetable, enrollments: seq<Enrollment>, bookings: seq<BookingSeat>, commands: seq<Command>)
    : seq<BookingSeat>
    decreases commands
  {
    if commands == [] then bookings
    else Run(timetable, enrollments, Apply(timetable, enrollments, bookings, commands[0]), commands[1..])
  }

  ghost predicate WithinLimit(slot: Slot, enrollments: seq<Enrollment>, bookings: seq<BookingSeat>) {
    slot.capacity.Some? ==> Occupancy(slot.lesson, enrollments, bookings) <= slot.capacity.value
  }

  // A status change never adds a participant anywhere.
  lemma ChangeOnlyReleases(
    lesson: Lesson, enrollments: seq<Enrollment>, bookings: seq<BookingSeat>, index: nat, target: BookingStatus)
    requires index < |bookings| && bookings[index].status.CanTransitionTo(target)
    ensures ParticipantChildIds(lesson, enrollments, bookings[index := bookings[index].(status := target)])
            <= ParticipantChildIds(lesson, enrollments, bookings)
  {
    var changed := bookings[index := bookings[index].(status := target)];
    forall b | b in changed && b.HoldsSeatFor(lesson)
      ensures b.childId in ParticipantChildIds(lesson, enrollments, bookings)
    {
      var i :| 0 <= i < |changed| && changed[i] == b;
      assert bookings[i] in bookings && bookings[i].HoldsSeatFor(lesson) && bookings[i].childId == b.childId;
    }
  }

  lemma SubsetIsNoLarger(a: set<Uuid>, b: set<Uuid>)
    requires a <= b
    ensures |a| <= |b|
  {
    assert b == a + (b - a);
  }

  lemma StepKeepsLimit(
    timetable: Timetable, ref: LessonRef, enrollments: seq<Enrollment>, bookings: seq<BookingSeat>, command: Command)
    requires WellKeyed(timetable) && ref in timetable
    requires WithinLimit(timetable[ref], enrollments, bookings)
    ensures WithinLimit(timetable[ref], enrollments, Apply(timetable, enrollments, bookings, command))
  {
    var slot := timetable[ref];
    match command
    case Book(seat) =>
      ParticipantsAfterBooking(slot.lesson, enrollments, bookings, seat);
      if seat.HoldsSeatFor(slot.lesson) {
        CapacityCheckIsExact(slot.lesson, slot.capacity, enrollments, bookings, seat);
      }
    case Change(index, target) =>
      if index < |bookings| && bookings[index].status.CanTransitionTo(target) {
        ChangeOnlyReleases(slot.lesson, enrollments, bookings, index, target);
        SubsetIsNoLarger(
          ParticipantChildIds(slot.lesson, enrollments, bookings[index := bookings[index].(status := target)]),
          ParticipantChildIds(slot.lesson, enrollments, bookings));
      }
  }

  // Seats are never oversold: whatever commands are issued, a lesson that starts
  // within its limit stays within it.
  lemma {:induction false} NeverOversold(
    timetable: Timetable, ref: LessonRef, enrollments: seq<Enrollment>, bookings: seq<BookingSeat>,
    commands: seq<Command>)
    requires WellKeyed(timetable) && ref in timetable
    requires WithinLimit(timetable[ref], enrollments, bookings)
    ensures WithinLimit(timetable[ref], enrollments, Run(timetable, enrollments, bookings, commands))
    decreases commands
  {
    if commands != [] {
      StepKeepsLimit(timetable, ref, enrollments, bookings, commands[0]);
      NeverOversold(
        timetable, ref, enrollments, Apply(timetable, enrollments, bookings, commands[0]), commands[1..]);
    }
  }

  // ---------- in terms of fields ----------

  // An enrollment covers a lesson of its group on an active day: any lesson while it has
  // no assignment, otherwise those of a chosen rule on the chosen original weekday.
  ghost predicate Attends(e: Enrollment, lesson: Lesson) {
    && e.groupId == lesson.groupId && e.status == Active && e.startDate <= lesson.date
    && (forall last :: e.endDate == Some(last) ==> lesson.date <= last)
    && (e.assignment == NeedsAssignment
        || exists chosen: set<WeeklySelection>, s | e.assignment == Configured(chosen) && s in chosen ::
             s.ruleId == lesson.lessonRef.ruleId && s.weekday == WeekdayOf(lesson.lessonRef.originalDate))
  }

  // A child takes a seat exactly when an enrollment covers the lesson or a booking of that
  // very lesson is pending or confirmed.
  lemma SeatsTakenExactly(lesson: Lesson, enrollments: seq<Enrollment>, bookings: seq<BookingSeat>, child: Uuid)
    ensures child in ParticipantChildIds(lesson, enrollments, bookings) <==>
      || (exists e :: e in enrollments && e.childId == child && Attends(e, lesson))
      || (exists b :: b in bookings && b.childId == child && b.lessonRef == lesson.lessonRef
                      && (b.status == PendingConfirmation || b.status == Confirmed))
  {
    forall e: Enrollment
      ensures e.Covers(lesson) <==> Attends(e, lesson)
    {
      var selection := WeeklySelection(lesson.lessonRef.ruleId, WeekdayOf(lesson.lessonRef.originalDate));
      if e.assignment.Configured? && selection in e.assignment.selections {
        assert e.assignment == Configured(e.assignment.selections) && selection in e.assignment.selections;
      }
    }
  }

  // The allowed changes of status, one by one.
  lemma TransitionsExactly(from: BookingStatus, target: BookingStatus)
    ensures from.TransitionTo(target).Success? <==>
      || from == target
      || (from == PendingConfirmation && target != PendingConfirmation)
      || (from == Confirmed && (target == CancelledByParent || target == CancelledByCenter))
  {
  }
}
