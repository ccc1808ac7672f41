/**
 * Calendar timestamps as `chrono` treats them: proleptic Gregorian dates
 * checked the way `NaiveDate::from_ymd_opt` and `NaiveTime::from_hms_opt`
 * check them, a second count since 1970-01-01T00:00:00 on the same naive
 * scale, and the 30-minute freshness rule.
 */
module Timestamps {
  import opened Options

  /** The year range of `chrono::NaiveDate` (chrono 0.4.32 and later). */
  const MinYear := -262143
  const MaxYear := 262142

  const SecondsPerDay := 86400

  datatype DateTime = DateTime(year: int, month: int, day: int, hour: int, minute: int, second: int)

  predicate IsLeapYear(y: int) {
    y % 4 == 0 && (y % 100 != 0 || y % 400 == 0)
  }

  function YearLength(y: int): int {
    if IsLeapYear(y) then 366 else 365
  }

  function DaysInMonth(y: int, m: int): int
    requires 1 <= m <= 12
  {
    if m == 2 then (if IsLeapYear(y) then 29 else 28)
    else if m == 4 || m == 6 || m == 9 || m == 11 then 30
    else 31
  }

  predicate ValidDate(y: int, m: int, d: int) {
    MinYear <= y <= MaxYear && 1 <= m <= 12 && 1 <= d <= DaysInMonth(y, m)
  }

  /** `from_hms_opt` admits no leap second. */
  predicate ValidTime(h: int, mi: int, s: int) {
    0 <= h < 24 && 0 <= mi < 60 && 0 <= s < 60
  }

  predicate Valid(t: DateTime) {
    ValidDate(t.year, t.month, t.day) && ValidTime(t.hour, t.minute, t.second)
  }

  /** The order of `NaiveDateTime`: by date, then by time of day. */
  predicate Before(a: DateTime, b: DateTime) {
    if a.year != b.year then a.year < b.year
    else if a.month != b.month then a.month < b.month
    else if a.day != b.day then a.day < b.day
    else if a.hour != b.hour then a.hour < b.hour
    else if a.minute != b.minute then a.minute < b.minute
    else a.second < b.second
  }

  /** Leap years among the years 1..n (for n < 1, minus those among n+1..0). */
  function LeapYearsThrough(n: int): int {
    n / 4 - n / 100 + n / 400
  }

  function DaysBeforeYear(y: int): int {
    365 * (y - 1970) + LeapYearsThrough(y - 1) - LeapYearsThrough(1969)
  }

  function DaysBeforeMonth(y: int, m: int): int
    requires 1 <= m <= 12
  {
    var common :=
      if m == 1 then 0 else if m == 2 then 31 else if m == 3 then 59
      else if m == 4 then 90 else if m == 5 then 120 else if m == 6 then 151
      else if m == 7 then 181 else if m == 8 then 212 else if m == 9 then 243
      else if m == 10 then 273 else if m == 11 then 304 else 334;
    if m > 2 && IsLeapYear(y) then common + 1 else common
  }

  /** Days from 1970-01-01 to the given date (negative before it). */
  function DayNumber(y: int, m: int, d: int): int
    requires 1 <= m <= 12
  {
    DaysBeforeYear(y) + DaysBeforeMonth(y, m) + d - 1
  }

  function TimeOfDay(t: DateTime): int {
    t.hour * 3600 + t.minute * 60 + t.second
  }

  /** Seconds from 1970-01-01T00:00:00 to `t`, on the naive (zone-less) scale. */
  function Seconds(t: DateTime): int
    requires 1 <= t.month <= 12
  {
    DayNumber(t.year, t.month, t.day) * SecondsPerDay + TimeOfDay(t)
  }

  lemma EpochIsZero()
    ensures Seconds(DateTime(1970, 1, 1, 0, 0, 0)) == 0
  {
    assert DaysBeforeYear(1970) == 0;
    assert DaysBeforeMonth(1970, 1) == 0;
    assert DayNumber(1970, 1, 1) == 0;
  }

  /** Going from `n - 1` to `n`, `n / k` grows by one exactly when `k` divides `n`. */
  lemma FloorStep(n: int, k: int)
    requires k == 4 || k == 100 || k == 400
    ensures n / k - (n - 1) / k == if n % k == 0 then 1 else 0
  {
    if k == 4 {
      assert n / 4 - (n - 1) / 4 == if n % 4 == 0 then 1 else 0;
    } else if k == 100 {
      assert n / 100 - (n - 1) / 100 == if n % 100 == 0 then 1 else 0;
    } else {
      assert n / 400 - (n - 1) / 400 == if n % 400 == 0 then 1 else 0;
    }
  }

  /** Year `y` adds one to the leap count exactly when it is a leap year. */
  lemma LeapStep(y: int)
    ensures LeapYearsThrough(y) - LeapYearsThrough(y - 1) == if IsLeapYear(y) then 1 else 0
  {
    FloorStep(y, 4);
    FloorStep(y, 100);
    FloorStep(y, 400);
    if y % 400 == 0 {
      CenturyOf400(y);
      QuadOfCentury(y);
    } else if y % 100 == 0 {
      QuadOfCentury(y);
    }
  }

  lemma CenturyOf400(y: int)
    requires y % 400 == 0
    ensures y % 100 == 0
  {
    var q := y / 400;
    assert y == 100 * (4 * q);
  }

  lemma QuadOfCentury(y: int)
    requires y % 100 == 0
    ensures y % 4 == 0
  {
    var q := y / 100;
    assert y == 4 * (25 * q);
  }

  lemma YearLengthIsStep(y: int)
    ensures DaysBeforeYear(y + 1) == DaysBeforeYear(y) + YearLength(y)
  {
    LeapStep(y);
    assert DaysBeforeYear(y + 1) - DaysBeforeYear(y) == 365 + LeapYearsThrough(y) - LeapYearsThrough(y - 1);
  }

  lemma {:induction false} YearsAdvance(y1: int, y2: int)
    requires y1 < y2
    ensures DaysBeforeYear(y1) + YearLength(y1) <= DaysBeforeYear(y2)
    decreases y2 - y1
  {
    YearLengthIsStep(y1);
    if y1 + 1 < y2 {
      YearsAdvance(y1 + 1, y2);
    }
  }

  lemma MonthsAdvance(y: int, m1: int, m2: int)
    requires 1 <= m1 < m2 <= 12
    ensures DaysBeforeMonth(y, m1) + DaysInMonth(y, m1) <= DaysBeforeMonth(y, m2)
  {
  }

  lemma MonthWithinYear(y: int, m: int)
    requires 1 <= m <= 12
    ensures DaysBeforeMonth(y, m) + DaysInMonth(y, m) <= YearLength(y)
  {
  }

  /** An earlier calendar date has a smaller day number. */
  lemma DayNumberIncreasing(a: DateTime, b: DateTime)
    requires ValidDate(a.year, a.month, a.day) && ValidDate(b.year, b.month, b.day)
    requires a.year < b.year || (a.year == b.year && (a.month < b.month || (a.month == b.month && a.day < b.day)))
    ensures DayNumber(a.year, a.month, a.day) < DayNumber(b.year, b.month, b.day)
  {
    if a.year < b.year {
      MonthWithinYear(a.year, a.month);
      YearsAdvance(a.year, b.year);
    } else if a.month < b.month {
      MonthsAdvance(a.year, a.month, b.month);
    }
  }

  /**
   * The second count is an order isomorphism: on valid date-times it orders
   * exactly as `NaiveDateTime` does, and distinct date-times never share a
   * count. Ranking candidates by `Seconds` is ranking them by their stamps.
   */
  lemma ChronologicalOrder(a: DateTime, b: DateTime)
    requires Valid(a) && Valid(b)
    ensures Before(a, b) <==> Seconds(a) < Seconds(b)
    ensures a == b <==> Seconds(a) == Seconds(b)
  {
    if a.year != b.year || a.month != b.month || a.day != b.day {
      if Before(a, b) {
        DayNumberIncreasing(a, b);
      } else {
        DayNumberIncreasing(b, a);
      }
    }
  }

  /** The bracketed log stamp, split into its captured decimal fields; a field whose digits do not parse is `None`. */
  datatype Stamp = Stamp(year: Option<int>, month: Option<int>, day: Option<int>,
                         hour: Option<int>, minute: Option<int>, second: Option<int>)

  /** The stamp's fields, with 2024, 1, 1, 0, 0, 0 in place of those that did not parse. */
  function Defaulted(s: Stamp): DateTime {
    DateTime(s.year.GetOr(2024), s.month.GetOr(1), s.day.GetOr(1),
             s.hour.GetOr(0), s.minute.GetOr(0), s.second.GetOr(0))
  }

  /**
   * The date-time a stamp denotes: unparsable fields take the defaults
   * 2024, 1, 1, 0, 0, 0, and the result exists only when it is a real
   * calendar date and clock time.
   */
  function ParseStamp(s: Stamp): (t: Option<DateTime>)
    ensures t.Some? ==> Valid(t.value)
    ensures t.Some? ==> t.value == Defaulted(s)
    ensures Valid(Defaulted(s)) ==> t.Some?
  {
    var t := Defaulted(s);
    if Valid(t) then Some(t) else None
  }

  /** A fully parsed stamp is accepted exactly when its fields form a real date and time, and then denotes them. */
  lemma ParseStampAccepts(y: int, mo: int, d: int, h: int, mi: int, se: int)
    ensures var t := DateTime(y, mo, d, h, mi, se);
            ParseStamp(Stamp(Some(y), Some(mo), Some(d), Some(h), Some(mi), Some(se))) == if Valid(t) then Some(t) else None
  {
  }

  /** February 29th is accepted exactly in Gregorian leap years (so 1900 is refused and 2000 accepted). */
  lemma LeapDay(y: int)
    requires 0 <= y <= 9999
    ensures ParseStamp(Stamp(Some(y), Some(2), Some(29), Some(0), Some(0), Some(0))).Some? <==> IsLeapYear(y)
  {
  }

  lemma TwentyFourHundredHoursRefused(s: Stamp)
    requires s.hour == Some(24)
    ensures ParseStamp(s).None?
  {
  }

  const ExpiryMinutes := 30
  const NanosPerSecond := 1_000_000_000

  type Nanos = n: int | 0 <= n < 1_000_000_000

  /** The current local time: whole seconds on the naive scale plus the sub-second part. */
  datatype Instant = Instant(seconds: int, nanos: Nanos)

  /** `now.signed_duration_since(ts)` in nanoseconds, for a stamp with no sub-second part. */
  function ElapsedNanos(now: Instant, ts: int): int {
    (now.seconds - ts) * NanosPerSecond + now.nanos
  }

  predicate Expired(now: Instant, ts: int) {
    ElapsedNanos(now, ts) > ExpiryMinutes * 60 * NanosPerSecond
  }

  /**
   * A link is expired exactly when more than 30 minutes have passed: a
   * whole 1800 seconds or less is fresh, 1800 seconds and any fraction is
   * expired.
   */
  lemma ExpiredIff(now: Instant, ts: int)
    ensures Expired(now, ts) <==> now.seconds - ts > 1800 || (now.seconds - ts == 1800 && now.nanos > 0)
  {
  }

  lemma ExactlyThirtyMinutesIsFresh(now: Instant, ts: int)
    requires now.seconds - ts == 1800 && now.nanos == 0
    ensures !Expired(now, ts)
  {
  }
}
