/** The part of the platform `DateTime` the struct stands on: a count of
    100-nanosecond ticks since 0001-01-01T00:00:00 in the proleptic Gregorian
    calendar, its calendar fields, the validating constructor from fields,
    `AddTicks`, `AddMicroseconds`, `AddMonths`, `Subtract` and `Date`.
    The kind (UTC or unspecified) is not modelled: equality and `Subtract`
    ignore it. */
module Calendar {
  import opened Errors
  import opened Machine

  const TicksPerMicrosecond: int := 10
  const TicksPerMillisecond: int := 10_000
  const TicksPerSecond: int := 10_000_000
  const TicksPerMinute: int := 600_000_000
  const TicksPerHour: int := 36_000_000_000
  const TicksPerDay: int := 864_000_000_000
  const MaxYear: int := 9999
  /** Days from 0001-01-01 to 10000-01-01. */
  const DaysTo10000: int := 3_652_059
  /** The last tick of 9999-12-31, `DaysTo10000 * TicksPerDay - 1`. */
  const MaxTicks: int := 3_155_378_975_999_999_999

  type Ticks = t: int | 0 <= t <= MaxTicks

  datatype DateTime = DateTime(ticks: Ticks)

  datatype CivilDate = CivilDate(year: int, month: int, day: int)

  // ---------------------------------------------------------------- calendar

  predicate IsLeapYear(y: int) {
    y % 4 == 0 && (y % 100 != 0 || y % 400 == 0)
  }

  function DaysInYear(y: int): int {
    if IsLeapYear(y) then 366 else 365
  }

  /** Days of year `y` before the first day of month `m` (13 for the whole year). */
  function DaysToMonth(y: int, m: int): (r: int)
    requires 1 <= m <= 13
    ensures m == 13 ==> r == DaysInYear(y)
  {
    var table := [0, 31, 59, 90, 120, 151, 181, 212, 243, 273, 304, 334, 365];
    table[m - 1] + if m > 2 && IsLeapYear(y) then 1 else 0
  }

  /** Month lengths, by the rhyme; they agree with the cumulative table. */
  function DaysInMonth(y: int, m: int): (r: int)
    requires 1 <= m <= 12
    ensures r == DaysToMonth(y, m + 1) - DaysToMonth(y, m)
    ensures 28 <= r <= 31
  {
    if m == 2 then (if IsLeapYear(y) then 29 else 28)
    else if m == 4 || m == 6 || m == 9 || m == 11 then 30
    else 31
  }

  /** Days from 0001-01-01 to the first day of year `y`. */
  function DaysToYear(y: int): int
    requires y >= 1
  {
    var p := y - 1;
    365 * p + p / 4 - p / 100 + p / 400
  }

  lemma {:induction false} DaysToYearStep(y: int)
    requires y >= 1
    ensures DaysToYear(y + 1) == DaysToYear(y) + DaysInYear(y)
  {
    var p := y - 1;
    NextQuotient(p, 4);
    NextQuotient(p, 100);
    NextQuotient(p, 400);
  }

  /** The quotient by `k` goes up by one exactly at multiples of `k`. */
  lemma {:induction false} NextQuotient(p: int, k: int)
    requires k == 4 || k == 100 || k == 400
    ensures (p + 1) / k == p / k + (if (p + 1) % k == 0 then 1 else 0)
  {
    var q, r := p / k, p % k;
    if r == k - 1 {
      DivMod(p + 1, q + 1, 0, k);
    } else {
      DivMod(p + 1, q, r + 1, k);
    }
  }

  /** Every year has at least 365 days, so `DaysToYear` is increasing. */
  lemma {:induction false} DaysToYearMonotone(a: int, b: int)
    requires 1 <= a <= b
    ensures DaysToYear(a) + 365 * (b - a) <= DaysToYear(b)
    decreases b - a
  {
    if a < b {
      DaysToYearMonotone(a, b - 1);
      DaysToYearStep(b - 1);
    }
  }

  predicate ValidDate(date: CivilDate) {
    1 <= date.year <= MaxYear && 1 <= date.month <= 12 && 1 <= date.day <= DaysInMonth(date.year, date.month)
  }

  /** Days from 0001-01-01 to a valid date. */
  function DayNumber(date: CivilDate): (n: int)
    requires ValidDate(date)
    ensures DaysToYear(date.year) <= n < DaysToYear(date.year + 1)
    ensures 0 <= n < DaysTo10000
  {
    DaysToYearStep(date.year);
    DaysToYearMonotone(date.year + 1, MaxYear + 1);
    LastDay(MaxYear + 1);
    DayOfYear(date.year, date.month, date.day);
    DaysToYear(date.year) + DaysToMonth(date.year, date.month) + date.day - 1
  }

  /** Day numbers run up to the end of year 9999. */
  lemma {:induction false} LastDay(y: int)
    requires y == MaxYear + 1
    ensures DaysToYear(y) == DaysTo10000
  {
  }

  /** A day of a month is a day of its year. */
  lemma {:induction false} DayOfYear(y: int, m: int, d: int)
    requires 1 <= m <= 12 && 1 <= d <= DaysInMonth(y, m)
    ensures 0 <= DaysToMonth(y, m) + d - 1 < DaysInYear(y)
  {
    var leap := if IsLeapYear(y) then 1 else 0;
    assert DaysToMonth(y, m + 1) <= 334 + leap + 31;
  }

  const DaysPer400Years: int := 146_097
  const DaysPer100Years: int := 36_524
  const DaysPer4Years: int := 1_461

  /** The year of day number `n`, counted in whole 400-, 100-, 4- and
      1-year cycles as the platform does; the last year of a cycle is the
      one that may be a day longer. */
  function YearOf(n: int): (y: int)
    requires 0 <= n < DaysTo10000
    ensures 1 <= y <= MaxYear && DaysToYear(y) <= n < DaysToYear(y + 1)
  {
    var y400 := n / DaysPer400Years;
    var n1 := n - y400 * DaysPer400Years;
    var y100 := if n1 / DaysPer100Years == 4 then 3 else n1 / DaysPer100Years;
    var n2 := n1 - y100 * DaysPer100Years;
    var y4 := n2 / DaysPer4Years;
    var n3 := n2 - y4 * DaysPer4Years;
    var y1 := if n3 / 365 == 4 then 3 else n3 / 365;
    var y := y400 * 400 + y100 * 100 + y4 * 4 + y1 + 1;
    Stage400(n, y400, n1);
    Stage100(n1, y100, n2);
    Stage4(n2, y4, n3);
    Stage1(n3, y1);
    LastYear(n, y400, y100, y4, y1, n3);
    YearBracket(n, y400, y100, y4, y1, n3);
    y
  }

  /** The year found from the cycle counts of day `n` contains day `n`. */
  lemma {:induction false} YearBracket(n: int, y400: int, y100: int, y4: int, y1: int, n3: int)
    requires 0 <= y400 && 0 <= y100 <= 3 && 0 <= y4 <= 24 && 0 <= y1 <= 3
    requires n == y400 * DaysPer400Years + y100 * DaysPer100Years + y4 * DaysPer4Years + n3
    requires 0 <= n3 - y1 * 365 < 365 || (n3 == 1460 && y1 == 3)
    requires y4 == 24 && n3 == 1460 ==> y100 == 3
    ensures var y := y400 * 400 + y100 * 100 + y4 * 4 + y1 + 1;
      DaysToYear(y) <= n < DaysToYear(y + 1)
  {
    var y := y400 * 400 + y100 * 100 + y4 * 4 + y1 + 1;
    CycleStart(y400, y100, y4, y1);
    DaysToYearStep(y);
    InCycleYear(n, n3, y1, DaysToYear(y), DaysToYear(y + 1), IsLeapYear(y), y4, y100,
      y400 * DaysPer400Years + y100 * DaysPer100Years + y4 * DaysPer4Years);
  }

  /** Day `n` lies in the year that starts `y1` whole years into its four-year
      cycle, whatever the cycle's start `base` is. */
  lemma {:induction false} InCycleYear(n: int, n3: int, y1: int, start: int, next: int, leap: bool, y4: int, y100: int, base: int)
    requires n == base + n3 && start == base + y1 * 365
    requires next == start + (if leap then 366 else 365)
    requires leap <==> y1 == 3 && (y4 != 24 || y100 == 3)
    requires 0 <= n3 - y1 * 365 < 365 || (n3 == 1460 && y1 == 3)
    requires y4 == 24 && n3 == 1460 ==> y100 == 3
    ensures start <= n < next
  {
  }

  /** The whole 400-year cycles before day `n`, and the day within the cycle. */
  lemma {:induction false} Stage400(n: int, y400: int, n1: int)
    requires 0 <= n < DaysTo10000
    requires y400 == n / DaysPer400Years && n1 == n - y400 * DaysPer400Years
    ensures 0 <= y400 <= 24 && 0 <= n1 < DaysPer400Years
    ensures y400 == 24 ==> n1 < DaysTo10000 - 24 * DaysPer400Years
  {
  }

  /** The whole centuries of a 400-year cycle; the fourth century gets the extra day. */
  lemma {:induction false} Stage100(n1: int, y100: int, n2: int)
    requires 0 <= n1 < DaysPer400Years
    requires y100 == (if n1 / DaysPer100Years == 4 then 3 else n1 / DaysPer100Years)
    requires n2 == n1 - y100 * DaysPer100Years
    ensures 0 <= y100 <= 3 && 0 <= n2 <= DaysPer100Years
    ensures n2 == DaysPer100Years ==> y100 == 3
    ensures n2 == n1 - y100 * DaysPer100Years
  {
  }

  /** The whole four-year cycles of a century. */
  lemma {:induction false} Stage4(n2: int, y4: int, n3: int)
    requires 0 <= n2 <= DaysPer100Years
    requires y4 == n2 / DaysPer4Years && n3 == n2 - y4 * DaysPer4Years
    ensures 0 <= y4 <= 24 && 0 <= n3 < DaysPer4Years
    ensures y4 == 24 ==> n2 == 24 * DaysPer4Years + n3
  {
  }

  /** The whole years of a four-year cycle; the fourth year gets the extra day. */
  lemma {:induction false} Stage1(n3: int, y1: int)
    requires 0 <= n3 < DaysPer4Years
    requires y1 == (if n3 / 365 == 4 then 3 else n3 / 365)
    ensures 0 <= y1 <= 3
    ensures 0 <= n3 - y1 * 365 < 365 || (n3 == 1460 && y1 == 3)
  {
  }

  /** Day numbers below the end of year 9999 fall in a year up to 9999. */
  lemma {:induction false} LastYear(n: int, y400: int, y100: int, y4: int, y1: int, n3: int)
    requires 0 <= y400 <= 24 && 0 <= y100 <= 3 && 0 <= y4 <= 24 && 0 <= y1 <= 3 && 0 <= n3 < DaysPer4Years
    requires n == y400 * DaysPer400Years + y100 * DaysPer100Years + y4 * DaysPer4Years + n3
    requires n < DaysTo10000
    requires 0 <= n3 - y1 * 365
    ensures y400 * 400 + y100 * 100 + y4 * 4 + y1 + 1 <= MaxYear
  {
  }

  /** Days to the start of a year given by its cycle counts. */
  lemma {:induction false} CycleStart(a: int, b: int, c: int, d: int)
    requires a >= 0 && 0 <= b <= 3 && 0 <= c <= 24 && 0 <= d <= 3
    ensures var p := a * 400 + b * 100 + c * 4 + d;
      && DaysToYear(p + 1) == a * DaysPer400Years + b * DaysPer100Years + c * DaysPer4Years + d * 365
      && (IsLeapYear(p + 1) <==> d == 3 && (c != 24 || b == 3))
  {
    var p := a * 400 + b * 100 + c * 4 + d;
    var q4, q100 := a * 100 + b * 25 + c, a * 4 + b;
    assert p == q4 * 4 + d;
    assert p == q100 * 100 + c * 4 + d;
    assert p == a * 400 + (b * 100 + c * 4 + d);
    assert p / 4 == q4;
    assert p / 100 == q100;
    assert p / 400 == a;
    LeapByCycle(p + 1, q4, q100, a, b, c, d);
  }

  lemma {:induction false} LeapByCycle(y: int, q4: int, q100: int, a: int, b: int, c: int, d: int)
    requires a >= 0 && 0 <= b <= 3 && 0 <= c <= 24 && 0 <= d <= 3
    requires y == q4 * 4 + d + 1 && y == q100 * 100 + c * 4 + d + 1 && y == a * 400 + b * 100 + c * 4 + d + 1
    ensures IsLeapYear(y) <==> d == 3 && (c != 24 || b == 3)
  {
    if d == 3 {
      DivMod(y, q4 + 1, 0, 4);
    } else {
      DivMod(y, q4, d + 1, 4);
    }
    var r100 := c * 4 + d + 1;
    if r100 == 100 {
      DivMod(y, q100 + 1, 0, 100);
    } else {
      DivMod(y, q100, r100, 100);
    }
    var r400 := b * 100 + c * 4 + d + 1;
    if r400 == 400 {
      DivMod(y, a + 1, 0, 400);
    } else {
      DivMod(y, a, r400, 400);
    }
  }

  /** The month, from `m` on, whose days contain day `doy` of year `y` (0-based). */
  function FindMonth(y: int, doy: int, m: int): (r: int)
    requires 1 <= m <= 12 && DaysToMonth(y, m) <= doy < DaysInYear(y)
    ensures m <= r <= 12 && DaysToMonth(y, r) <= doy < DaysToMonth(y, r + 1)
    decreases 12 - m
  {
    if doy < DaysToMonth(y, m + 1) then m else FindMonth(y, doy, m + 1)
  }

  /** The valid date of day number `n`: the inverse of `DayNumber`. */
  function CivilFromDays(n: int): (date: CivilDate)
    requires 0 <= n < DaysTo10000
    ensures ValidDate(date) && DayNumber(date) == n
  {
    var y := YearOf(n);
    var doy := n - DaysToYear(y);
    DaysToYearStep(y);
    var m := FindMonth(y, doy, 1);
    CivilDate(y, m, doy - DaysToMonth(y, m) + 1)
  }

  lemma {:induction false} YearBracketUnique(a: int, b: int, n: int)
    requires 1 <= a && 1 <= b
    requires DaysToYear(a) <= n < DaysToYear(a + 1)
    requires DaysToYear(b) <= n < DaysToYear(b + 1)
    ensures a == b
  {
    if a < b {
      DaysToYearMonotone(a + 1, b);
    } else if b < a {
      DaysToYearMonotone(b + 1, a);
    }
  }

  lemma {:induction false} MonthBracketUnique(y: int, a: int, b: int, doy: int)
    requires 1 <= a <= 12 && 1 <= b <= 12
    requires DaysToMonth(y, a) <= doy < DaysToMonth(y, a + 1)
    requires DaysToMonth(y, b) <= doy < DaysToMonth(y, b + 1)
    ensures a == b
  {
    if a < b {
      DaysToMonthMonotone(y, a + 1, b);
    } else if b < a {
      DaysToMonthMonotone(y, b + 1, a);
    }
  }

  lemma {:induction false} DaysToMonthMonotone(y: int, a: int, b: int)
    requires 1 <= a <= b <= 13
    ensures DaysToMonth(y, a) <= DaysToMonth(y, b)
    decreases b - a
  {
    if a < b {
      DaysToMonthMonotone(y, a, b - 1);
      assert DaysInMonth(y, b - 1) > 0;
    }
  }

  /** Day numbers name dates one to one: `CivilFromDays` undoes `DayNumber`. */
  lemma {:induction false} CivilFromDayNumber(date: CivilDate)
    requires ValidDate(date)
    ensures CivilFromDays(DayNumber(date)) == date
  {
    var n := DayNumber(date);
    var r := CivilFromDays(n);
    YearBracketUnique(r.year, date.year, n);
    var doy := n - DaysToYear(date.year);
    MonthBracketUnique(date.year, r.month, date.month, doy);
  }

  // ------------------------------------------------------------ time of day

  predicate ValidTime(hour: int, minute: int, second: int, millisecond: int) {
    0 <= hour < 24 && 0 <= minute < 60 && 0 <= second < 60 && 0 <= millisecond < 1000
  }

  /** The tick count of a date, a time of day and the sub-millisecond ticks. */
  function Compose(date: CivilDate, hour: int, minute: int, second: int, millisecond: int, lowTicks: int): int
    requires ValidDate(date)
  {
    DayNumber(date) * TicksPerDay + (hour * 3600 + minute * 60 + second) * TicksPerSecond
      + millisecond * TicksPerMillisecond + lowTicks
  }

  // ------------------------------------------------------------ fields of a DateTime

  function DateOf(dt: DateTime): CivilDate {
    CivilFromDays(dt.ticks / TicksPerDay)
  }

  function Year(dt: DateTime): nat {
    DateOf(dt).year
  }

  function Month(dt: DateTime): nat {
    DateOf(dt).month
  }

  function Day(dt: DateTime): nat {
    DateOf(dt).day
  }

  function Hour(dt: DateTime): nat {
    dt.ticks / TicksPerHour % 24
  }

  function Minute(dt: DateTime): nat {
    dt.ticks / TicksPerMinute % 60
  }

  function Second(dt: DateTime): nat {
    dt.ticks / TicksPerSecond % 60
  }

  function Millisecond(dt: DateTime): nat {
    dt.ticks / TicksPerMillisecond % 1000
  }

  function Microsecond(dt: DateTime): nat {
    dt.ticks / TicksPerMicrosecond % 1000
  }

  /** Ticks below the millisecond. */
  function SubMillisecondTicks(dt: DateTime): int {
    dt.ticks % TicksPerMillisecond
  }

  /** A value whose day count is the day number of a valid date shows that date. */
  lemma {:induction false} DateOfDayNumber(dt: DateTime, date: CivilDate)
    requires ValidDate(date) && dt.ticks / TicksPerDay == DayNumber(date)
    ensures DateOf(dt) == date
  {
    CivilFromDayNumber(date);
  }

  /** The fields of a `DateTime` rebuild its tick count. */
  lemma {:induction false} FieldsCompose(dt: DateTime)
    ensures dt.ticks == Compose(DateOf(dt), Hour(dt), Minute(dt), Second(dt), Millisecond(dt), SubMillisecondTicks(dt))
  {
    var t := dt.ticks;
    var ms, q1 := t % TicksPerMillisecond, t / TicksPerMillisecond;
    var s, q2 := q1 % 1000, q1 / 1000;
    assert t / TicksPerSecond == q2;
    var mi, q3 := q2 % 60, q2 / 60;
    assert t / TicksPerMinute == q3;
    var h, q4 := q3 % 60, q3 / 60;
    assert t / TicksPerHour == q4;
    assert t / TicksPerDay == q4 / 24;
  }

  /** The fields of the tick count of valid fields are those fields. */
  lemma {:induction false} ComposeFields(date: CivilDate, hour: int, minute: int, second: int, millisecond: int, lowTicks: int)
    requires ValidDate(date) && ValidTime(hour, minute, second, millisecond)
    requires 0 <= lowTicks < TicksPerMillisecond
    ensures 0 <= Compose(date, hour, minute, second, millisecond, lowTicks) <= MaxTicks
    ensures var dt := DateTime(Compose(date, hour, minute, second, millisecond, lowTicks));
      && DateOf(dt) == date && Hour(dt) == hour && Minute(dt) == minute && Second(dt) == second
      && Millisecond(dt) == millisecond && SubMillisecondTicks(dt) == lowTicks
  {
    var n := DayNumber(date);
    var t := Compose(date, hour, minute, second, millisecond, lowTicks);
    var hours := n * 24 + hour;
    var minutes := hours * 60 + minute;
    var seconds := minutes * 60 + second;
    var millis := seconds * 1000 + millisecond;
    DivMod(t, millis, lowTicks, TicksPerMillisecond);
    DivMod(t, seconds, millisecond * TicksPerMillisecond + lowTicks, TicksPerSecond);
    DivMod(t, minutes, second * TicksPerSecond + millisecond * TicksPerMillisecond + lowTicks, TicksPerMinute);
    DivMod(t, hours, (second + minute * 60) * TicksPerSecond + millisecond * TicksPerMillisecond + lowTicks, TicksPerHour);
    DivMod(t, n, (second + minute * 60 + hour * 3600) * TicksPerSecond + millisecond * TicksPerMillisecond + lowTicks, TicksPerDay);
    DivMod(millis, seconds, millisecond, 1000);
    DivMod(seconds, minutes, second, 60);
    DivMod(minutes, hours, minute, 60);
    DivMod(hours, n, hour, 24);
    CivilFromDayNumber(date);
  }

  /** Division by one of the calendar's radices, in the form Euclid states it. */
  lemma {:induction false} DivMod(t: int, q: int, r: int, k: int)
    requires k == 4 || k == 24 || k == 60 || k == 100 || k == 400 || k == 1000 || k == TicksPerMicrosecond || k == TicksPerMillisecond
          || k == TicksPerSecond || k == TicksPerMinute || k == TicksPerHour || k == TicksPerDay
    requires 0 <= r < k && t == q * k + r
    ensures t / k == q && t % k == r
  {
    if k == 4 {
    } else if k == 24 {
    } else if k == 60 {
    } else if k == 100 {
    } else if k == 400 {
    } else if k == 1000 {
    } else if k == TicksPerMicrosecond {
    } else if k == TicksPerMillisecond {
    } else if k == TicksPerSecond {
    } else if k == TicksPerMinute {
    } else if k == TicksPerHour {
    } else {
    }
  }

  // ------------------------------------------------------------ operations

  /** `new DateTime(year, month, day, hour, minute, second, millisecond)`:
      every field must lie in its calendar range (a platform without leap
      seconds, so second 60 is rejected). */
  function NewDateTime(year: int, month: int, day: int, hour: int, minute: int, second: int, millisecond: int): (r: Result<DateTime>)
    ensures r.Ok? <==> ValidDate(CivilDate(year, month, day)) && ValidTime(hour, minute, second, millisecond)
    ensures r.Ok? ==> r.value.ticks == Compose(CivilDate(year, month, day), hour, minute, second, millisecond, 0)
    ensures r.Ok? ==>
      && DateOf(r.value) == CivilDate(year, month, day) && Hour(r.value) == hour && Minute(r.value) == minute
      && Second(r.value) == second && Millisecond(r.value) == millisecond && SubMillisecondTicks(r.value) == 0
  {
    var date := CivilDate(year, month, day);
    if !(ValidDate(date) && ValidTime(hour, minute, second, millisecond)) then Err(ArgumentOutOfRange)
    else
      ComposeFields(date, hour, minute, second, millisecond, 0);
      Ok(DateTime(Compose(date, hour, minute, second, millisecond, 0)))
  }

  /** `dt.AddTicks(value)`: fails when the result leaves 0001-01-01 .. 9999-12-31. */
  function AddTicks(dt: DateTime, value: int): (r: Result<DateTime>)
    ensures r.Ok? <==> 0 <= dt.ticks + value <= MaxTicks
    ensures r.Ok? ==> r.value.ticks - dt.ticks == value
  {
    if 0 <= dt.ticks + value <= MaxTicks then Ok(DateTime(dt.ticks + value)) else Err(ArgumentOutOfRange)
  }

  /** `dt.AddMicroseconds(value)` for an integral `value` of `int` range,
      where the platform's `double` conversion is exact. */
  function AddMicroseconds(dt: DateTime, value: I32): (r: Result<DateTime>)
    ensures r.Ok? <==> 0 <= dt.ticks + value * TicksPerMicrosecond <= MaxTicks
    ensures r.Ok? ==> r.value.ticks == dt.ticks + value * TicksPerMicrosecond
  {
    AddTicks(dt, value * TicksPerMicrosecond)
  }

  /** `a.Subtract(b).Ticks`: the signed tick distance. */
  function Subtract(a: DateTime, b: DateTime): int {
    a.ticks - b.ticks
  }

  /** `dt.Date`: midnight of the same day. */
  function Date(dt: DateTime): (r: DateTime)
    ensures DateOf(r) == DateOf(dt)
    ensures Hour(r) == 0 && Minute(r) == 0 && Second(r) == 0 && Millisecond(r) == 0 && SubMillisecondTicks(r) == 0
    ensures r.ticks <= dt.ticks < r.ticks + TicksPerDay
  {
    var d := DateOf(dt);
    var n := dt.ticks / TicksPerDay;
    assert DayNumber(d) == n;
    DivMod(dt.ticks, n, dt.ticks % TicksPerDay, TicksPerDay);
    ComposeFields(d, 0, 0, 0, 0, 0);
    assert Compose(d, 0, 0, 0, 0, 0) == n * TicksPerDay == dt.ticks - dt.ticks % TicksPerDay;
    DateTime(dt.ticks - dt.ticks % TicksPerDay)
  }

  /** The number of months from 0001-01 to the month of `date`. */
  function MonthIndex(date: CivilDate): int {
    date.year * 12 + date.month - 1
  }

  /** `dt.AddMonths(months)`: move by whole months, keep the time of day,
      and clamp the day to the length of the target month (the calendar
      fields of the result are stated by `AddMonthsFields`). */
  function AddMonths(dt: DateTime, months: I32): (r: Result<DateTime>)
    ensures var target := MonthIndex(DateOf(dt)) + months;
      r.Ok? <==> -120000 <= months <= 120000 && 1 <= target / 12 <= MaxYear
    ensures r.Ok? ==> r.value.ticks % TicksPerDay == dt.ticks % TicksPerDay
  {
    if months < -120000 || months > 120000 then Err(ArgumentOutOfRange)
    else AtDate(MovedDate(DateOf(dt), months), dt.ticks % TicksPerDay)
  }

  /** The instant at time of day `tod` on `date`, a date whose month and day
      are in range; it fails when the year is outside 1 .. 9999. */
  function AtDate(date: CivilDate, tod: int): (r: Result<DateTime>)
    requires 1 <= date.month <= 12 && 1 <= date.day <= DaysInMonth(date.year, date.month) && 0 <= tod < TicksPerDay
    ensures r.Ok? <==> 1 <= date.year <= MaxYear
    ensures r.Ok? ==> DateOf(r.value) == date && r.value.ticks % TicksPerDay == tod
  {
    if date.year < 1 || date.year > MaxYear then Err(ArgumentOutOfRange)
    else
      var t := DayNumber(date) * TicksPerDay + tod;
      AtDayNumber(date, tod, t);
      Ok(DateTime(t))
  }

  /** A valid date lands on its day number. */
  lemma {:induction false} AtDateOk(date: CivilDate, tod: int, t: int)
    requires ValidDate(date) && 0 <= tod < TicksPerDay
    requires t == DayNumber(date) * TicksPerDay + tod && 0 <= t <= MaxTicks
    ensures AtDate(date, tod) == Ok(DateTime(t))
  {
    var r := AtDate(date, tod);
    assert r.Ok?;
    assert r.value.ticks == t;
  }

  /** The date `months` months after `date`, by the platform's month carry:
      the same day of the month, unless the target month is shorter, then
      its last day. */
  function MovedDate(date: CivilDate, months: int): (r: CivilDate)
    requires 1 <= date.month <= 12
    ensures var target := MonthIndex(date) + months;
      r.year == target / 12 && r.month == target % 12 + 1
    ensures 1 <= r.month <= 12
    ensures r.day <= date.day && (r.day == date.day || r.day == DaysInMonth(r.year, r.month))
    ensures 1 <= date.day ==> 1 <= r.day <= DaysInMonth(r.year, r.month)
    ensures 1 <= r.year <= MaxYear && 1 <= date.day ==> ValidDate(r)
  {
    var (y, mo) := MonthCarry(date.year, date.month, months);
    var days := DaysInMonth(y, mo);
    CivilDate(y, mo, if date.day > days then days else date.day)
  }

  /** The date `AddMonths` arrives at is the moved date, and the time of day
      is kept. */
  lemma {:induction false} AddMonthsFields(dt: DateTime, months: I32)
    requires AddMonths(dt, months).Ok?
    ensures ValidDate(MovedDate(DateOf(dt), months))
    ensures DateOf(AddMonths(dt, months).value) == MovedDate(DateOf(dt), months)
    ensures AddMonths(dt, months).value.ticks
      == DayNumber(MovedDate(DateOf(dt), months)) * TicksPerDay + dt.ticks % TicksPerDay
  {
    var date := DateOf(dt);
    var moved := MovedDate(date, months);
    assert 1 <= moved.year <= MaxYear;
    assert ValidDate(moved);
    var tod := dt.ticks % TicksPerDay;
    var t := DayNumber(moved) * TicksPerDay + tod;
    AtDayNumber(moved, tod, t);
    AddMonthsOk(dt, months, moved, t);
  }

  /** Inside the range, `AddMonths` lands on the moved date at the same time of day. */
  lemma {:induction false} AddMonthsOk(dt: DateTime, months: I32, moved: CivilDate, t: int)
    requires -120000 <= months <= 120000
    requires moved == MovedDate(DateOf(dt), months) && ValidDate(moved)
    requires t == DayNumber(moved) * TicksPerDay + dt.ticks % TicksPerDay && 0 <= t <= MaxTicks
    ensures AddMonths(dt, months) == Ok(DateTime(t))
  {
    AtDateOk(moved, dt.ticks % TicksPerDay, t);
  }

  /** The year and month `months` months after `month` of `year`, by the
      platform's carry: for a positive month count `(m - 1) / 12` years,
      otherwise one year less than the truncated quotient.  Both branches
      agree with Euclidean division of the month index. */
  function MonthCarry(year: int, month: int, months: int): (r: (int, int))
    requires 1 <= month <= 12
    ensures var target := year * 12 + month - 1 + months;
      r.0 == target / 12 && r.1 == target % 12 + 1 && 1 <= r.1 <= 12
  {
    var m := month + months;
    var q := if m > 0 then (m - 1) / 12 else CsDiv(m, 12) - 1;
    (year + q, if m > 0 then m - q * 12 else 12 + CsRem(m, 12))
  }

  /** A day number and a time of day within it give a tick count whose date
      and time of day are those. */
  lemma {:induction false} AtDayNumber(date: CivilDate, tod: int, t: int)
    requires ValidDate(date) && 0 <= tod < TicksPerDay
    requires t == DayNumber(date) * TicksPerDay + tod
    ensures 0 <= t <= MaxTicks
    ensures DateOf(DateTime(t)) == date && t % TicksPerDay == tod
  {
    var n := DayNumber(date);
    DivMod(t, n, tod, TicksPerDay);
    CivilFromDayNumber(date);
  }
}
