/** Calendar dates as integer day numbers (day 0 is 1970-01-01, a
    Thursday), and the two kinds of instant the calendar code compares:
    local midnight of a day, and the last millisecond of a day (what
    `endOfWeek`/`endOfMonth` return). Time zones and daylight saving are
    not modelled: every day is exactly one day long. */
module Dates {

  predicate IsLeapYear(y: int) {
    (y % 4 == 0 && y % 100 != 0) || y % 400 == 0
  }

  function DaysInMonth(y: int, m: int): (r: int)
    requires 1 <= m <= 12
    ensures 28 <= r <= 31
  {
    if m == 2 then (if IsLeapYear(y) then 29 else 28)
    else if m == 4 || m == 6 || m == 9 || m == 11 then 30
    else 31
  }

  /** Day number of the first of month `m` in year `y` (proleptic
      Gregorian calendar; the year is counted from March so that the leap
      day comes last). */
  function MonthBase(y: int, m: int): int
    requires 1 <= m <= 12
  {
    var y' := if m <= 2 then y - 1 else y;
    var mp := if m >= 3 then m - 3 else m + 9;
    YearStart(y') + MarchOffset(mp) - 719468
  }

  /** Days from 1 March to the first of the month `mp` months later. */
  function MarchOffset(mp: int): int
    requires 0 <= mp < 12
  {
    (153 * mp + 2) / 5
  }

  /** Days from 1 March of year 0 to 1 March of year `y`, counted in
      400-year eras of 146097 days. */
  function YearStart(y: int): int
  {
    var era := y / 400;
    var yoe := y - era * 400;
    era * 146097 + yoe * 365 + yoe / 4 - yoe / 100
  }

  /** The months from March to January have the lengths 31, 30, 31, 30,
      31, 31, 30, 31, 30, 31, 31. */
  lemma MarchOffsetStep(mp: int)
    requires 0 <= mp < 11
    ensures MarchOffset(mp + 1) - MarchOffset(mp) == if mp == 1 || mp == 3 || mp == 6 || mp == 8 then 30 else 31
  {
  }

  /** The year that starts on 1 March of `y - 1` holds the leap day of
      `y`. */
  lemma YearLength(y: int)
    ensures YearStart(y) - YearStart(y - 1) == if IsLeapYear(y) then 366 else 365
  {
    var e := y / 400;
    var r := y % 400;
    if r == 0 {
      assert (y - 1) / 400 == e - 1;
      assert YearStart(y) == e * 146097;
      assert YearStart(y - 1) == (e - 1) * 146097 + 145731;
    } else {
      assert (y - 1) / 400 == e;
      assert YearStart(y) - YearStart(y - 1) == 365 + (r / 4 - (r - 1) / 4) - (r / 100 - (r - 1) / 100);
      StepDiv(r);
      ShiftMod(y, e, r);
    }
  }

  /** Counting one more makes the quotient grow exactly at multiples. */
  lemma StepDiv(r: int)
    requires 1 <= r
    ensures r / 4 - (r - 1) / 4 == if r % 4 == 0 then 1 else 0
    ensures r / 100 - (r - 1) / 100 == if r % 100 == 0 then 1 else 0
  {
  }

  /** Adding whole eras does not change the remainders the leap-year
      test looks at. */
  lemma ShiftMod(y: int, e: int, r: int)
    requires y == 400 * e + r
    ensures y % 4 == r % 4 && y % 100 == r % 100 && y % 400 == r % 400
  {
    Mod4(100 * e, r);
    Mod100(4 * e, r);
    Mod400(e, r);
  }

  lemma Mod4(q: int, r: int)
    ensures (4 * q + r) % 4 == r % 4
  {
    assert 4 * q + r == 4 * (q + r / 4) + r % 4;
  }

  lemma Mod100(q: int, r: int)
    ensures (100 * q + r) % 100 == r % 100
  {
    assert 100 * q + r == 100 * (q + r / 100) + r % 100;
  }

  lemma Mod400(q: int, r: int)
    ensures (400 * q + r) % 400 == r % 400
  {
    assert 400 * q + r == 400 * (q + r / 400) + r % 400;
  }

  /** Month lengths agree with the day numbers: the first of the next
      month (January of the next year after December) lies `DaysInMonth`
      days after the first of this one. */
  lemma MonthLength(y: int, m: int)
    requires 1 <= m <= 12
    ensures MonthBase(y, m) + DaysInMonth(y, m) == if m == 12 then MonthBase(y + 1, 1) else MonthBase(y, m + 1)
  {
    if m == 2 {
      YearLength(y);
      assert MarchOffset(11) == 337;
    } else if m == 12 {
      MarchOffsetStep(9);
    } else if m == 1 {
      MarchOffsetStep(10);
    } else {
      MarchOffsetStep(m - 3);
    }
  }

  /** `new Date(y, m - 1, d)` as a day number. */
  function DayNumber(y: int, m: int, d: int): int
    requires 1 <= m <= 12
  {
    MonthBase(y, m) + d - 1
  }

  /** `getDay()`: 0 for Sunday through 6 for Saturday. */
  function Weekday(day: int): (r: int)
    ensures 0 <= r < 7
  {
    (day + 4) % 7
  }

  /** The week day advances by one each day and wraps after Saturday. */
  lemma WeekdayShift(day: int, k: int)
    requires 0 <= k && Weekday(day) + k < 7
    ensures Weekday(day + k) == Weekday(day) + k
  {
    var q := (day + 4) / 7;
    assert day + 4 == 7 * q + Weekday(day);
    assert day + k + 4 == 7 * q + (Weekday(day) + k);
  }

  /** The Sunday that starts the week of `day` (`startOfWeek` with
      `weekStartsOn: 0`). */
  function StartOfWeek(day: int): (r: int)
    ensures r <= day < r + 7
    ensures Weekday(r) == 0
  {
    var r := day - Weekday(day);
    assert Weekday(r) == 0 by {
      var q := (day + 4) / 7;
      assert day + 4 == 7 * q + Weekday(day);
      assert r + 4 == 7 * q;
    }
    r
  }

  /** The Saturday that ends the week of `day`. */
  function LastDayOfWeek(day: int): (r: int)
    ensures r - 7 < day <= r
    ensures Weekday(r) == 6
  {
    var s := StartOfWeek(day);
    WeekdayShift(s, 6);
    s + 6
  }

  // ------------------------------------------------------------ instants

  /** A point in time on the calendar: midnight of a day, or the end of
      that day (23:59:59.999). */
  datatype Instant = At(day: int) | EndOf(day: int)

  /** A rank that orders instants as time does. An end of day is placed
      half-way to the next midnight: it lies after its own midnight and
      before the next, which is all the comparisons below observe. */
  function Rank(t: Instant): int {
    match t
    case At(d) => 2 * d
    case EndOf(d) => 2 * d + 1
  }

  predicate Before(a: Instant, b: Instant) {
    Rank(a) < Rank(b)
  }

  predicate NotAfter(a: Instant, b: Instant) {
    Rank(a) <= Rank(b)
  }

  /** Division rounding toward zero, as `Math.trunc(a / b)`. */
  function TruncDiv(a: int, b: int): int
    requires b > 0
  {
    if a >= 0 then a / b else -((-a) / b)
  }

  /** `differenceInDays(a, b)`: the number of whole days from `b` to `a`,
      truncated toward zero. An end of day lies one millisecond short of
      the next midnight, so counting it as half a day truncates the same
      way. */
  function DifferenceInDays(a: Instant, b: Instant): (r: int)
    ensures a.At? && b.At? ==> r == a.day - b.day
    ensures a.EndOf? && b.At? && a.day >= b.day ==> r == a.day - b.day
  {
    TruncDiv(Rank(a) - Rank(b), 2)
  }
}
