// Stable lesson identity and the booking life cycle.
module Booking {
  import opened Wrappers
  import opened Calendar

  // The original date stays fixed when an exception moves the lesson.
  datatype LessonRef = LessonRef(ruleId: Uuid, originalDate: Day)

  datatype BookingStatus =
    | PendingConfirmation
    | Confirmed
    | Rejected
    | CancelledByParent
    | CancelledByCenter
  {
    predicate HoldsSeat() {
      PendingConfirmation? || Confirmed?
    }

    predicate CanTransitionTo(target: BookingStatus) {
      if this == target then true
      else match this
        case PendingConfirmation =>
          target.Confirmed? || target.Rejected? || target.CancelledByParent? || target.CancelledByCenter?
        case Confirmed => target.CancelledByParent? || target.CancelledByCenter?
        case _ => false
    }

    function TransitionTo(target: BookingStatus): Result<BookingStatus, TransitionError> {
      if CanTransitionTo(target) then Success(target) else Failure(TransitionError(this, target))
    }
  }

  datatype TransitionError = TransitionError(current: BookingStatus, target: BookingStatus)
}
