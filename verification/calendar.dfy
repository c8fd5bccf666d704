/** The hourly time axis both decoders use: instants are whole hours counted from
    2016-01-01 00:00. 2016 is a leap year, so its calendar has 366 days and February 29. */
module Calendar {
  import opened Wrappers

  /** Hours since 2016-01-01 00:00. */
  type Instant = nat

  const HoursPerDay := 24
  const DaysInYear := 366

  datatype DateTime = DateTime(month: int, day: int, hour: int)

  function DaysInMonth(month: int): nat
    requires 1 <= month <= 12
  {
    if month == 2 then 29 else if month == 4 || month == 6 || month == 9 || month == 11 then 30 else 31
  }

  /** Days of 2016 before the first of `month` (13 stands for the end of the year). */
  function DaysBefore(month: int): (n: nat)
    requires 1 <= month <= 13
    ensures n <= DaysInYear && (month == 13 <==> n == DaysInYear)
  {
    [0, 31, 60, 91, 121, 152, 182, 213, 244, 274, 305, 335, 366][month - 1]
  }

  predicate ValidDate(month: int, day: int) {
    1 <= month <= 12 && 1 <= day <= DaysInMonth(month)
  }

  /** Zero-based day of the year of 2016-`month`-`day`; `None` for a date that does not exist
      (where `pd.Timestamp(year=2016, month=…, day=…)` raises). */
  function DayIndex(month: int, day: int): (r: Option<nat>)
    ensures r.Some? <==> ValidDate(month, day)
    ensures r.Some? ==> r.value < DaysInYear
  {
    if ValidDate(month, day) then Some(DaysBefore(month) + day - 1) else None
  }

  function MonthContaining(d: nat, month: int): (m: int)
    requires 1 <= month <= 12 && DaysBefore(month) <= d < DaysInYear
    ensures month <= m <= 12 && DaysBefore(m) <= d < DaysBefore(m + 1)
    decreases 12 - month
  {
    if d < DaysBefore(month + 1) then month else MonthContaining(d, month + 1)
  }

  /** The calendar date and hour of an instant within 2016. */
  function ToDateTime(t: Instant): (dt: DateTime)
    requires t < DaysInYear * HoursPerDay
    ensures ValidDate(dt.month, dt.day) && 0 <= dt.hour < HoursPerDay
    ensures DayIndex(dt.month, dt.day) == Some(t / HoursPerDay)
  {
    var d := t / HoursPerDay;
    var m := MonthContaining(d, 1);
    DateTime(m, d - DaysBefore(m) + 1, t % HoursPerDay)
  }

  /** The instant of 2016-`month`-`day` 00:00 plus `hour` hours. */
  function InstantOf(month: int, day: int, hour: nat): (r: Option<Instant>)
    requires hour < HoursPerDay
    ensures r.Some? <==> ValidDate(month, day)
    ensures r.Some? ==> r.value % HoursPerDay == hour && r.value / HoursPerDay == DayIndex(month, day).value
    ensures r.Some? ==> r.value - hour + HoursPerDay <= DaysInYear * HoursPerDay
  {
    match DayIndex(month, day)
    case None => None
    case Some(d) => Some(d * HoursPerDay + hour)
  }

  /** Distinct dates have distinct day indices. */
  lemma {:induction false} DayIndexInjective(m1: int, d1: int, m2: int, d2: int)
    requires ValidDate(m1, d1) && ValidDate(m2, d2)
    requires DayIndex(m1, d1) == DayIndex(m2, d2)
    ensures m1 == m2 && d1 == d2
  {
    if m1 < m2 {
      DaysBeforeMonotone(m1 + 1, m2);
      assert false;
    } else if m2 < m1 {
      DaysBeforeMonotone(m2 + 1, m1);
      assert false;
    }
  }

  lemma {:induction false} DaysBeforeMonotone(a: int, b: int)
    requires 1 <= a <= b <= 13
    ensures DaysBefore(a) <= DaysBefore(b)
    decreases b - a
  {
    if a < b {
      DaysBeforeMonotone(a + 1, b);
    }
  }

  /** Reading an instant back from its date and hour gives the instant. */
  lemma InstantOfToDateTime(t: Instant)
    requires t < DaysInYear * HoursPerDay
    ensures InstantOf(ToDateTime(t).month, ToDateTime(t).day, ToDateTime(t).hour) == Some(t)
  {
  }

  /** The date and hour of an instant built from a date and hour are that date and hour. */
  lemma ToDateTimeOfInstant(month: int, day: int, hour: nat)
    requires hour < HoursPerDay && ValidDate(month, day)
    ensures InstantOf(month, day, hour).value < DaysInYear * HoursPerDay
    ensures ToDateTime(InstantOf(month, day, hour).value) == DateTime(month, day, hour)
  {
    var t := InstantOf(month, day, hour).value;
    var dt := ToDateTime(t);
    assert t / HoursPerDay == DayIndex(month, day).value;
    DayIndexInjective(dt.month, dt.day, month, day);
  }

  /** `hour` hours after midnight of a valid date falls on that date at that hour. */
  lemma HoursAfterMidnight(month: int, day: int, midnight: Instant, hour: nat)
    requires hour < HoursPerDay && InstantOf(month, day, 0) == Some(midnight)
    ensures midnight + hour < DaysInYear * HoursPerDay
    ensures ToDateTime(midnight + hour) == DateTime(month, day, hour)
  {
    assert InstantOf(month, day, hour) == Some(midnight + hour);
    ToDateTimeOfInstant(month, day, hour);
  }
}
