// Day numbers and weekdays.
//
// A calendar day is its number in the proleptic Gregorian calendar, day 1 being
// Monday 1 January of year 1.  The bounds are those of the calendar type the
// program uses, so "the day after" is partial.
module Calendar {

  const MIN_DAY := -95_746_129
  const MAX_DAY := 95_745_399

  type Day = d: int | MIN_DAY <= d <= MAX_DAY witness 1

  datatype Weekday = Monday | Tuesday | Wednesday | Thursday | Friday | Saturday | Sunday

  function WeekdayOf(day: Day): Weekday {
    match (day - 1) % 7
    case 0 => Monday
    case 1 => Tuesday
    case 2 => Wednesday
    case 3 => Thursday
    case 4 => Friday
    case 5 => Saturday
    case _ => Sunday
  }

  // Identifiers are compared and ordered, never inspected.
  type Uuid = nat
}
