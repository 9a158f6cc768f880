/** The arithmetic of `add_duration_to_datetime`: fixed-length units become an offset in seconds,
    "months" carries between month and year and clamps the day, "years" moves the year alone,
    and any other unit is refused. Parsing the input string, `Time` arithmetic on the offset
    and formatting the result are not modelled. */
module MonthMath {
  import opened Wrappers

  /** The broken-down fields of the parsed `Time`. */
  datatype Moment = Moment(year: int, month: int, day: int, hour: int, minute: int, second: int)

  /** What the case expression builds: `date + seconds` for the fixed-length units, or a
      `Time.new` from explicit fields for "months" and "years". */
  datatype Shifted = Offset(seconds: int) | Fields(moment: Moment)

  /** The seconds in one unit, for the units that have a fixed length. */
  function UnitSeconds(unit: string): (r: Option<int>)
    ensures r.Some? <==> unit in {"seconds", "minutes", "hours", "days", "weeks"}
  {
    if unit == "seconds" then Some(1)
    else if unit == "minutes" then Some(60)
    else if unit == "hours" then Some(3600)
    else if unit == "days" then Some(86400)
    else if unit == "weeks" then Some(604800)
    else None
  }

  /** The Gregorian rule: every fourth year, except centuries not divisible by 400. */
  predicate IsLeap(year: int) {
    year % 4 == 0 && (year % 100 != 0 || year % 400 == 0)
  }

  /** The days-per-month table, with February looked up by the leap-year rule. */
  function DaysInMonth(year: int, month: int): (r: int)
    requires 1 <= month <= 12
    ensures 28 <= r <= 31
  {
    [31, if IsLeap(year) then 29 else 28, 31, 30, 31, 30, 31, 31, 30, 31, 30, 31][month - 1]
  }

  /** The index of a month counted from year 0. */
  function MonthIndex(year: int, month: int): int {
    year * 12 + month - 1
  }

  /** The month/year carry of the "months" branch. Ruby's `/` and `%` round toward negative
      infinity; with the positive divisor 12 Dafny's Euclidean `/` and `%` give the same values.
      The carry always lands on a month in 1..12 and moves the month index by exactly
      `duration`, backwards as well as forwards. */
  function AddMonths(year: int, month: int, duration: int): (r: (int, int))
    ensures 1 <= r.1 <= 12
    ensures MonthIndex(r.0, r.1) == MonthIndex(year, month) + duration
  {
    var m := month + duration;
    var y := year + m / 12;
    var m' := m % 12;
    assert m == (m / 12) * 12 + m';
    if m' == 0 then (y - 1, 12) else (y, m')
  }

  /** `add_duration_to_datetime` once the input has been parsed into `date`: the five
      fixed-length units give an offset, "months" and "years" give new fields, and any other
      unit is refused with a message naming it. */
  function AddDuration(date: Moment, duration: int, unit: string): (r: Result<Shifted, string>)
    ensures r.Success? && r.value.Offset? <==> unit in {"seconds", "minutes", "hours", "days", "weeks"}
    ensures r.Success? && r.value.Fields? <==> unit in {"months", "years"}
    ensures r.Failure? ==> r.error == "Unsupported time unit: " + unit
  {
    match UnitSeconds(unit)
    case Some(perUnit) => Success(Offset(duration * perUnit))
    case None =>
      if unit == "months" then
        var (year, month) := AddMonths(date.year, date.month, duration);
        var day := Min(date.day, DaysInMonth(year, month));
        Success(Fields(Moment(year, month, day, date.hour, date.minute, date.second)))
      else if unit == "years" then
        Success(Fields(date.(year := date.year + duration)))
      else
        Failure("Unsupported time unit: " + unit)
  }

  /** A month index determines the year and the month. */
  lemma MonthIndexInjective(y1: int, m1: int, y2: int, m2: int)
    requires 1 <= m1 <= 12 && 1 <= m2 <= 12
    requires MonthIndex(y1, m1) == MonthIndex(y2, m2)
    ensures y1 == y2 && m1 == m2
  {
    assert (y1 - y2) * 12 == m2 - m1;
  }

  /** Adding `a` months and then `b` months lands on the same year and month as adding
      `a + b`; in particular adding `-d` undoes adding `d`. */
  lemma AddMonthsComposes(year: int, month: int, a: int, b: int)
    requires 1 <= month <= 12
    ensures var (y1, m1) := AddMonths(year, month, a);
      AddMonths(y1, m1, b) == AddMonths(year, month, a + b)
    ensures var (y1, m1) := AddMonths(year, month, a);
      AddMonths(y1, m1, -a) == (year, month)
  {
    var (y1, m1) := AddMonths(year, month, a);
    var (y2, m2) := AddMonths(y1, m1, b);
    var (y3, m3) := AddMonths(year, month, a + b);
    MonthIndexInjective(y2, m2, y3, m3);
    var (y4, m4) := AddMonths(y1, m1, -a);
    MonthIndexInjective(y4, m4, year, month);
  }

  /** February has 29 days exactly in leap years, and the twelve months add up to 366 days in
      a leap year and 365 otherwise. */
  lemma DaysInMonthTable(year: int)
    ensures DaysInMonth(year, 2) == 29 <==> year % 4 == 0 && (year % 100 != 0 || year % 400 == 0)
    ensures DaysInMonth(year, 1) + DaysInMonth(year, 2) + DaysInMonth(year, 3) + DaysInMonth(year, 4)
          + DaysInMonth(year, 5) + DaysInMonth(year, 6) + DaysInMonth(year, 7) + DaysInMonth(year, 8)
          + DaysInMonth(year, 9) + DaysInMonth(year, 10) + DaysInMonth(year, 11) + DaysInMonth(year, 12)
         == if IsLeap(year) then 366 else 365
  {
  }

  /** The leap-year rule repeats every 400 years. */
  lemma LeapCycle(year: int)
    ensures IsLeap(year + 400) <==> IsLeap(year)
  {
    assert (year + 400) % 4 == year % 4;
    assert (year + 400) % 100 == year % 100;
    assert (year + 400) % 400 == year % 400;
  }

  /** "months": the result is a valid month whose index is `duration` months on, with the day
      clamped to the length of that month and the time of day kept. */
  lemma MonthsResult(date: Moment, duration: int)
    requires 1 <= date.day
    ensures AddDuration(date, duration, "months").Success?
    ensures AddDuration(date, duration, "months").value.Fields?
    ensures var m := AddDuration(date, duration, "months").value.moment;
      && 1 <= m.month <= 12
      && MonthIndex(m.year, m.month) == MonthIndex(date.year, date.month) + duration
      && m.day == Min(date.day, DaysInMonth(m.year, m.month))
      && 1 <= m.day <= DaysInMonth(m.year, m.month)
      && (date.day <= 28 ==> m.day == date.day)
      && (m.hour, m.minute, m.second) == (date.hour, date.minute, date.second)
  {
  }

  /** "years" changes the year component and nothing else. */
  lemma YearsResult(date: Moment, duration: int)
    ensures AddDuration(date, duration, "years").Success?
    ensures AddDuration(date, duration, "years").value.Fields?
    ensures var m := AddDuration(date, duration, "years").value.moment;
      m.year == date.year + duration && m.(year := date.year) == date
  {
  }

  /** The fixed-length units agree with each other: a week is seven days, a day 24 hours, an
      hour 60 minutes, a minute 60 seconds. */
  lemma FixedUnitsAgree(date: Moment, n: int)
    ensures AddDuration(date, n, "weeks") == AddDuration(date, 7 * n, "days")
    ensures AddDuration(date, n, "days") == AddDuration(date, 24 * n, "hours")
    ensures AddDuration(date, n, "hours") == AddDuration(date, 60 * n, "minutes")
    ensures AddDuration(date, n, "minutes") == AddDuration(date, 60 * n, "seconds")
    ensures AddDuration(date, n, "seconds") == Success(Offset(n))
  {
  }

  /** Exactly the seven listed units are accepted; any other raises "Unsupported time unit". */
  lemma UnsupportedUnit(date: Moment, duration: int, unit: string)
    ensures AddDuration(date, duration, unit).Failure?
        <==> unit !in {"seconds", "minutes", "hours", "days", "weeks", "months", "years"}
    ensures AddDuration(date, duration, unit).Failure? ==>
      AddDuration(date, duration, unit).error == "Unsupported time unit: " + unit
  {
  }
}
