// Completed calendar months, age limits and birthdays.
module Age {
  import opened Wrappers

  const MIN_YEAR := -262_143
  const MAX_YEAR := 262_142
  const U32_LIMIT := 0x1_0000_0000

  predicate IsLeap(year: int) {
    year % 4 == 0 && (year % 100 != 0 || year % 400 == 0)
  }

  function DaysInMonth(year: int, month: int): int {
    if month == 2 then (if IsLeap(year) then 29 else 28)
    else if month in {4, 6, 9, 11} then 30
    else 31
  }

  predicate IsDate(year: int, month: int, day: int) {
    MIN_YEAR <= year <= MAX_YEAR && 1 <= month <= 12 && 1 <= day <= DaysInMonth(year, month)
  }

  datatype RawDate = RawDate(year: int, month: int, day: int)

  type Date = d: RawDate | IsDate(d.year, d.month, d.day) witness RawDate(1, 1, 1)

  predicate Earlier(a: Date, b: Date) {
    || a.year < b.year
    || (a.year == b.year && (a.month < b.month || (a.month == b.month && a.day < b.day)))
  }

  predicate AtMost(a: Date, b: Date) {
    a == b || Earlier(a, b)
  }

  // Conversion to an unsigned 32-bit count.
  function ToU32(n: int): Option<nat> {
    if 0 <= n < U32_LIMIT then Some(n) else None
  }

  function CompletedMonthsOn(birth: Date, lesson: Date): Option<nat> {
    if Earlier(lesson, birth) then None
    else
      var years := lesson.year - birth.year;
      var months := years * 12 + lesson.month - birth.month;
      ToU32(if lesson.day < birth.day then months - 1 else months)
  }

  datatype RawLimits = RawLimits(minimumMonths: Option<nat>, maximumMonths: Option<nat>)
  {
    predicate ContainsCompletedMonths(months: nat) {
      && (minimumMonths.None? || months >= minimumMonths.value)
      && (maximumMonths.None? || months <= maximumMonths.value)
    }

    predicate ContainsBirthDate(birth: Date, lesson: Date) {
      var months := CompletedMonthsOn(birth, lesson);
      months.Some? && ContainsCompletedMonths(months.value)
    }
  }

  predicate InOrder(limits: RawLimits) {
    limits.minimumMonths.Some? && limits.maximumMonths.Some? ==>
      limits.minimumMonths.value <= limits.maximumMonths.value
  }

  type AgeLimits = limits: RawLimits | InOrder(limits) witness RawLimits(None, None)

  function NewLimits(minimumMonths: Option<nat>, maximumMonths: Option<nat>): Result<AgeLimits, ()> {
    if minimumMonths.Some? && maximumMonths.Some? && minimumMonths.value > maximumMonths.value then Failure(())
    else Success(RawLimits(minimumMonths, maximumMonths))
  }

  // ---------- completed months ----------

  // An age exists exactly from the birth date on; the narrowing to 32 bits never fails.
  lemma AgeExistsFromBirth(birth: Date, lesson: Date)
    ensures CompletedMonthsOn(birth, lesson).Some? <==> AtMost(birth, lesson)
  {
  }

  // The month count is the largest `m` such that `m` calendar months after the
  // birth month, the birth day has been reached.
  lemma CountsMonthsReached(birth: Date, lesson: Date, m: nat)
    requires AtMost(birth, lesson)
    ensures var index := birth.year * 12 + birth.month + m;
            var now := lesson.year * 12 + lesson.month;
            m <= CompletedMonthsOn(birth, lesson).value
            <==> index < now || (index == now && birth.day <= lesson.day)
  {
  }

  lemma RisesWithLesson(birth: Date, lesson: Date, later: Date)
    requires AtMost(birth, lesson) && AtMost(lesson, later)
    ensures AtMost(birth, later)
    ensures CompletedMonthsOn(birth, lesson).value <= CompletedMonthsOn(birth, later).value
  {
  }

  lemma FallsWithBirth(birth: Date, laterBirth: Date, lesson: Date)
    requires AtMost(birth, laterBirth) && AtMost(laterBirth, lesson)
    ensures AtMost(birth, lesson)
    ensures CompletedMonthsOn(laterBirth, lesson).value <= CompletedMonthsOn(birth, lesson).value
  {
  }

  // Splitting an age at any date loses at most one month, and never gains one.
  lemma AgeSplits(birth: Date, middle: Date, lesson: Date)
    requires AtMost(birth, middle) && AtMost(middle, lesson)
    ensures AtMost(birth, lesson)
    ensures var parts := CompletedMonthsOn(birth, middle).value + CompletedMonthsOn(middle, lesson).value;
            parts <= CompletedMonthsOn(birth, lesson).value <= parts + 1
  {
  }

  // The birth dates a group accepts on a lesson date form an interval.
  lemma AcceptedBirthDatesFormAnInterval(limits: AgeLimits, first: Date, between: Date, last: Date, lesson: Date)
    requires AtMost(first, between) && AtMost(between, last)
    requires limits.ContainsBirthDate(first, lesson) && limits.ContainsBirthDate(last, lesson)
    ensures limits.ContainsBirthDate(between, lesson)
  {
    AgeExistsFromBirth(last, lesson);
    AgeExistsFromBirth(between, lesson);
    FallsWithBirth(between, last, lesson);
    FallsWithBirth(first, between, lesson);
  }

  // Accepted limits are satisfied by some age; reversed limits would be by none.
  lemma LimitsAreSatisfiable(minimumMonths: Option<nat>, maximumMonths: Option<nat>)
    ensures NewLimits(minimumMonths, maximumMonths).Success?
            <==> exists months: nat :: RawLimits(minimumMonths, maximumMonths).ContainsCompletedMonths(months)
  {
    if NewLimits(minimumMonths, maximumMonths).Success? {
      assert RawLimits(minimumMonths, maximumMonths).ContainsCompletedMonths(minimumMonths.GetOr(0));
    }
  }

  // ---------- birthdays ----------

  function FromYmd(year: int, month: int, day: int): Option<Date> {
    if IsDate(year, month, day) then Some(RawDate(year, month, day)) else None
  }

  // A 29 February birthday falls on 28 February in a common year.
  function Anniversary(birth: Date, year: int): Option<Date> {
    OrElse(FromYmd(year, birth.month, birth.day),
           if birth.month == 2 && birth.day == 29 then FromYmd(year, 2, 28) else None)
  }

  function BirthdayAgeOn(birth: Date, date: Date): Option<nat> {
    var anniversary := Anniversary(birth, date.year);
    if anniversary == Some(date) && Earlier(birth, date) then ToU32(date.year - birth.year) else None
  }

  // Each year after the birth year has exactly one birthday, with that age; the
  // years up to and including the birth year have none.
  lemma OneBirthdayAYear(birth: Date, year: int)
    requires MIN_YEAR <= year <= MAX_YEAR
    ensures year > birth.year ==>
              && Anniversary(birth, year).Some?
              && var day := Anniversary(birth, year).value;
                 day.year == year && BirthdayAgeOn(birth, day) == Some(year - birth.year)
    ensures forall date: Date | date.year == year && BirthdayAgeOn(birth, date).Some? ::
              year > birth.year && Anniversary(birth, year) == Some(date)
  {
  }

  // On a birthday the completed months are twelve per year of age, one fewer
  // exactly when a 29 February birthday is kept on the 28th.
  lemma BirthdayCompletesYears(birth: Date, date: Date)
    requires BirthdayAgeOn(birth, date).Some?
    ensures var age := BirthdayAgeOn(birth, date).value;
            CompletedMonthsOn(birth, date)
            == Some(if birth.day == 29 && date.day == 28 then 12 * age - 1 else 12 * age)
  {
  }

  // ---------- accepted birth dates ----------

  // Whether `months` calendar months have passed since the birth date.
  ghost predicate HasReached(birth: Date, lesson: Date, months: nat) {
    var due := birth.year * 12 + birth.month + months;
    var now := lesson.year * 12 + lesson.month;
    due < now || (due == now && birth.day <= lesson.day)
  }

  // A birth date is accepted exactly when it is not after the lesson, the youngest age has
  // been reached, and the month after the oldest has not.
  lemma AcceptedExactly(limits: AgeLimits, birth: Date, lesson: Date)
    ensures limits.ContainsBirthDate(birth, lesson) <==>
      && AtMost(birth, lesson)
      && (forall youngest :: limits.minimumMonths == Some(youngest) ==> HasReached(birth, lesson, youngest))
      && (forall oldest :: limits.maximumMonths == Some(oldest) ==> !HasReached(birth, lesson, oldest + 1))
  {
    AgeExistsFromBirth(birth, lesson);
    if AtMost(birth, lesson) {
      CountsMonthsReached(birth, lesson, limits.minimumMonths.GetOr(0));
      CountsMonthsReached(birth, lesson, limits.maximumMonths.GetOr(0) + 1);
    }
  }

  // The date of a birthday: the birth day and month in a later year, or 28 February for a
  // birth on the 29th when that year is not a leap year.
  lemma BirthdayExactly(birth: Date, date: Date, age: nat)
    ensures BirthdayAgeOn(birth, date) == Some(age) <==>
      && age >= 1 && date.year == birth.year + age
      && ((date.month == birth.month && date.day == birth.day)
          || (birth.month == 2 && birth.day == 29 && date.month == 2 && date.day == 28
              && (date.year % 4 != 0 || (date.year % 100 == 0 && date.year % 400 != 0))))
  {
  }

  // Dates are ordered as year, month and day are.
  lemma DatesAreOrdered(a: Date, b: Date)
    ensures Earlier(a, b) <==> (a.year * 12 + a.month) * 31 + a.day < (b.year * 12 + b.month) * 31 + b.day
    ensures AtMost(a, b) <==> !Earlier(b, a)
  {
  }
}
