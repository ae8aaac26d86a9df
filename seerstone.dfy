/** `Seerstone.DateTimeNano`: an instant held as one unsigned 64-bit count
    of nanoseconds since 1970-01-01T00:00:00Z.  Every other view, the
    platform calendar value, the sub-microsecond remainder, the fraction
    of the second and the text form, is computed from that count. */
module Seerstone {
  import opened Machine
  import opened Errors
  import opened Decimal
  import Calendar
  import DatePattern

  /** Ticks from 0001-01-01 to the Unix epoch. */
  const EpochTicks: int := 621_355_968_000_000_000

  datatype DateTimeNano = DateTimeNano(nanosecondsSinceEpoch: U64)

  /** `Epoch`: 1970-01-01T00:00:00, 719162 whole days after 0001-01-01. */
  function Epoch(): (e: Calendar.DateTime)
    ensures e.ticks == EpochTicks
  {
    Calendar.DateTime(EpochTicks)
  }

  /** `Epoch` is the value `new DateTime(1970, 1, 1, 0, 0, 0)` builds. */
  lemma {:induction false} EpochIsUnixEpoch()
    ensures Calendar.NewDateTime(1970, 1, 1, 0, 0, 0, 0) == Ok(Epoch())
  {
    var date := Calendar.CivilDate(1970, 1, 1);
    assert Calendar.DaysToYear(1970) == 719_162;
    assert Calendar.ValidDate(date);
    assert Calendar.DayNumber(date) == 719_162;
    assert Calendar.Compose(date, 0, 0, 0, 0, 0) == EpochTicks;
  }

  // ---------------------------------------------------------------- construction

  /** `new DateTimeNano(ulong)`: the count is stored as given. */
  function FromUnixNanoseconds(nanosecondsSinceEpoch: U64): DateTimeNano {
    DateTimeNano(nanosecondsSinceEpoch)
  }

  /** `ToUnixNanoseconds()`: the stored count. */
  function ToUnixNanoseconds(x: DateTimeNano): U64 {
    x.nanosecondsSinceEpoch
  }

  /** Raw count to value and back is the identity in both directions. */
  lemma {:induction false} UnixNanosecondsRoundTrip(n: U64, x: DateTimeNano)
    ensures ToUnixNanoseconds(FromUnixNanoseconds(n)) == n
    ensures FromUnixNanoseconds(ToUnixNanoseconds(x)) == x
  {
  }

  /** `new DateTimeNano(DateTime)`: the tick distance from the epoch, cast
      to `ulong` and scaled by 100 in unchecked arithmetic.  An instant
      before the epoch, or more than 2^64 ns after it, wraps instead of
      failing. */
  function FromDateTime(dt: Calendar.DateTime): (r: DateTimeNano)
    ensures r.nanosecondsSinceEpoch == ToU64((dt.ticks - EpochTicks) * 100)
    ensures 0 <= (dt.ticks - EpochTicks) * 100 < TWO64 ==>
      r.nanosecondsSinceEpoch == (dt.ticks - EpochTicks) * 100
  {
    var diff := Calendar.Subtract(dt, Epoch());
    MulCongruent(ToU64(diff), diff, 100, TWO64);
    SameLowBits(ToU64(diff) * 100, diff * 100);
    DateTimeNano(ToU64(ToU64(diff) * 100))
  }

  // ---------------------------------------------------------------- views

  /** `TotalTicks`: the epoch plus ten ticks for every whole microsecond
      of the count.  The count is cut to whole microseconds (ten ticks
      each), and the platform never rejects the addition: the largest count
      lands in the year 2554. */
  function TotalTicks(x: DateTimeNano): (t: int)
    ensures EpochTicks <= t <= Calendar.MaxTicks
    ensures (t - EpochTicks) % 10 == 0
    ensures (t - EpochTicks) * 100 <= x.nanosecondsSinceEpoch < (t - EpochTicks) * 100 + 1000
  {
    var micros := ToI64(x.nanosecondsSinceEpoch / 1000);
    var delta := ToI64(micros * 10);
    Calendar.AddTicks(Epoch(), delta).value.ticks
  }

  /** `DateTime` (and `ToDateTimeUtc()`, and the implicit conversion):
      the calendar value at `TotalTicks`. */
  function ToDateTimeUtc(x: DateTimeNano): (dt: Calendar.DateTime)
    ensures dt.ticks == TotalTicks(x)
  {
    Calendar.DateTime(TotalTicks(x))
  }

  /** `Date`: midnight of the calendar day. */
  function Date(x: DateTimeNano): (r: Calendar.DateTime)
    ensures Calendar.DateOf(r) == Calendar.DateOf(ToDateTimeUtc(x))
    ensures Calendar.Hour(r) == 0 && Calendar.Minute(r) == 0 && Calendar.Second(r) == 0
      && Calendar.Millisecond(r) == 0 && Calendar.SubMillisecondTicks(r) == 0
    ensures r.ticks <= TotalTicks(x) < r.ticks + Calendar.TicksPerDay
  {
    Calendar.Date(ToDateTimeUtc(x))
  }

  /** `Nanoseconds`: exactly the part of the count the calendar view drops. */
  function Nanoseconds(x: DateTimeNano): (r: int)
    ensures 0 <= r < 1000
    ensures x.nanosecondsSinceEpoch == (TotalTicks(x) - EpochTicks) * 100 + r
  {
    x.nanosecondsSinceEpoch % 1000
  }

  /** `SecondsFractionInNanoseconds`: the calendar view's milliseconds and
      microseconds with `Nanoseconds` below them make up the count modulo
      one second. */
  function SecondsFractionInNanoseconds(x: DateTimeNano): (r: int)
    ensures r == x.nanosecondsSinceEpoch % 1_000_000_000
    ensures 0 <= r < 1_000_000_000
  {
    var dt := ToDateTimeUtc(x);
    FractionDigits(x);
    Calendar.Millisecond(dt) * 1_000_000 + Calendar.Microsecond(dt) * 1000 + Nanoseconds(x)
  }

  /** The calendar view carries the count's millisecond and microsecond
      digits unchanged, because the epoch falls on a whole second. */
  lemma {:induction false} FractionDigits(x: DateTimeNano)
    ensures var dt := ToDateTimeUtc(x);
      && Calendar.Millisecond(dt) == x.nanosecondsSinceEpoch / 1_000_000 % 1000
      && Calendar.Microsecond(dt) == x.nanosecondsSinceEpoch / 1000 % 1000
      && Calendar.SubMillisecondTicks(dt) == Calendar.Microsecond(dt) * 10
      && x.nanosecondsSinceEpoch % 1_000_000_000
         == Calendar.Millisecond(dt) * 1_000_000 + Calendar.Microsecond(dt) * 1000 + Nanoseconds(x)
  {
    var n := x.nanosecondsSinceEpoch;
    var t := TotalTicks(x);
    var q := n / 1000;
    assert t == EpochTicks + q * 10;
    Calendar.DivMod(t, EpochTicks / 10 + q, 0, Calendar.TicksPerMicrosecond);
    var p := q / 1000;
    Calendar.DivMod(t, EpochTicks / 10_000 + p, (q % 1000) * 10, Calendar.TicksPerMillisecond);
    Calendar.DivMod(EpochTicks / 10 + q, EpochTicks / 10_000 + p, q % 1000, 1000);
    Calendar.DivMod(EpochTicks / 10_000 + p, EpochTicks / 10_000_000 + p / 1000, p % 1000, 1000);
    assert n / 1_000_000 == p;
    assert n == ((p / 1000) * 1000 + p % 1000) * 1_000_000 + (q % 1000) * 1000 + n % 1000;
    Chunks(n, p / 1000, p % 1000 * 1_000_000 + (q % 1000) * 1000 + n % 1000);
  }

  lemma {:induction false} Chunks(n: int, hi: int, lo: int)
    requires 0 <= lo < 1_000_000_000 && n == hi * 1_000_000_000 + lo
    ensures n % 1_000_000_000 == lo
  {
  }

  // ---------------------------------------------------------------- arithmetic

  /** `AddNanoseconds(long)`: the amount reinterpreted as unsigned and added
      in unchecked `ulong` arithmetic, a new value: the value shifted by the
      amount, the count taken modulo 2^64 (`ShiftedWrap` spells out both
      ends). */
  function AddNanoseconds(x: DateTimeNano, nanoseconds: I64): (r: DateTimeNano)
    ensures r == Shifted(x, nanoseconds)
  {
    UncheckedAdd(x.nanosecondsSinceEpoch, nanoseconds);
    DateTimeNano(ToU64(x.nanosecondsSinceEpoch + ToU64(nanoseconds)))
  }

  /** Adding and then subtracting the same amount gives the value back, wrap
      or not.  The negation is C#'s unchecked `-d`, which is `d` itself for
      the smallest `long`; for every other amount it is the true `-d`. */
  lemma {:induction false} AddNanosecondsInverse(x: DateTimeNano, d: I64)
    ensures AddNanoseconds(AddNanoseconds(x, d), ToI64(-(d as int))) == x
  {
    ShiftedCompose(x, d, ToI64(-(d as int)), 0);
  }

  /** Two additions are one addition of the wrapped sum of the amounts. */
  lemma {:induction false} AddNanosecondsCompose(x: DateTimeNano, a: I64, b: I64)
    ensures AddNanoseconds(AddNanoseconds(x, a), b) == AddNanoseconds(x, ToI64(a + b))
  {
    ShiftedCompose(x, a, b, ToI64(a + b));
  }

  /** Shifts compose up to the wrap of the amount. */
  lemma {:induction false} ShiftedCompose(x: DateTimeNano, a: int, b: int, c: int)
    requires (c - (a + b)) % TWO64 == 0
    ensures Shifted(Shifted(x, a), b) == Shifted(x, c)
  {
    SumCount(x.nanosecondsSinceEpoch, a, b, c);
  }

  lemma {:induction false} SumCount(n: int, a: int, b: int, c: int)
    requires (c - (a + b)) % TWO64 == 0
    ensures ToU64(ToU64(n + a) + b) == ToU64(n + c)
  {
    var first := ToU64(n + a);
    var k := (first - (n + a)) / TWO64;
    var l := (c - (a + b)) / TWO64;
    assert first + b == n + a + b + k * TWO64;
    assert n + c == n + a + b + l * TWO64;
    ModShift(n + a + b, k);
    ModShift(n + a + b, l);
  }

  /** Adding zero is the identity. */
  lemma {:induction false} AddNanosecondsZero(x: DateTimeNano)
    ensures AddNanoseconds(x, 0) == x
  {
  }

  /** The value `amount` nanoseconds after `x`, with the count taken modulo
      2^64: the reference every adder below is stated against. */
  function Shifted(x: DateTimeNano, amount: int): DateTimeNano {
    DateTimeNano(ToU64(x.nanosecondsSinceEpoch + amount))
  }

  /** A shift by an amount of `long` range is exact inside the range of the
      count and wraps by exactly 2^64 past either end. */
  lemma {:induction false} ShiftedWrap(x: DateTimeNano, amount: I64)
    ensures var sum := x.nanosecondsSinceEpoch + amount;
      && (0 <= sum < TWO64 ==> Shifted(x, amount).nanosecondsSinceEpoch == sum)
      && (sum < 0 ==> Shifted(x, amount).nanosecondsSinceEpoch == sum + TWO64)
      && (sum >= TWO64 ==> Shifted(x, amount).nanosecondsSinceEpoch == sum - TWO64)
  {
    var sum := x.nanosecondsSinceEpoch + amount;
    if sum < 0 {
      ModShift(sum, 1);
    } else if sum >= TWO64 {
      ModShift(sum - TWO64, 1);
    }
  }

  /** `AddMicroseconds(long)`: a thousand nanoseconds per microsecond, the
      product in unchecked `long` arithmetic. */
  function AddMicroseconds(x: DateTimeNano, microseconds: I64): (r: DateTimeNano)
    ensures r == Shifted(x, microseconds * 1000)
    ensures 0 <= x.nanosecondsSinceEpoch + microseconds * 1000 < TWO64 ==> r.nanosecondsSinceEpoch == x.nanosecondsSinceEpoch + microseconds * 1000
  {
    AddScaled(x, microseconds * 1000);
    AddNanoseconds(x, ToI64(microseconds * 1000))
  }

  /** `AddMilliseconds(long)`: a million nanoseconds per millisecond. */
  function AddMilliseconds(x: DateTimeNano, milliseconds: I64): (r: DateTimeNano)
    ensures r == Shifted(x, milliseconds * 1_000_000)
    ensures 0 <= x.nanosecondsSinceEpoch + milliseconds * 1_000_000 < TWO64 ==> r.nanosecondsSinceEpoch == x.nanosecondsSinceEpoch + milliseconds * 1_000_000
  {
    AddScaled(x, milliseconds * 1_000_000);
    AddNanoseconds(x, ToI64(milliseconds * 1_000_000))
  }

  /** `AddSeconds(long)`: a billion nanoseconds per second. */
  function AddSeconds(x: DateTimeNano, seconds: I64): (r: DateTimeNano)
    ensures r == Shifted(x, seconds * 1_000_000_000)
    ensures 0 <= x.nanosecondsSinceEpoch + seconds * 1_000_000_000 < TWO64 ==> r.nanosecondsSinceEpoch == x.nanosecondsSinceEpoch + seconds * 1_000_000_000
  {
    AddScaled(x, seconds * 1_000_000_000);
    AddNanoseconds(x, ToI64(seconds * 1_000_000_000))
  }

  /** `AddMinutes(long)`: sixty seconds' worth of nanoseconds per minute,
      each product wrapping in `long`. */
  function AddMinutes(x: DateTimeNano, minutes: I64): (r: DateTimeNano)
    ensures r == Shifted(x, minutes * 60_000_000_000)
    ensures 0 <= x.nanosecondsSinceEpoch + minutes * 60_000_000_000 < TWO64 ==> r.nanosecondsSinceEpoch == x.nanosecondsSinceEpoch + minutes * 60_000_000_000
  {
    Wrap64Mul(minutes * 60, 1_000_000_000);
    AddScaled(x, minutes * 60_000_000_000);
    AddNanoseconds(x, ToI64(ToI64(minutes * 60) * 1_000_000_000))
  }

  /** `AddHours(long)`: sixty minutes' worth of nanoseconds per hour, each
      product wrapping in `long`. */
  function AddHours(x: DateTimeNano, hours: I64): (r: DateTimeNano)
    ensures r == Shifted(x, hours * 3_600_000_000_000)
    ensures 0 <= x.nanosecondsSinceEpoch + hours * 3_600_000_000_000 < TWO64 ==> r.nanosecondsSinceEpoch == x.nanosecondsSinceEpoch + hours * 3_600_000_000_000
  {
    var perMinute := ToI64(hours * 60);
    var perSecond := ToI64(perMinute * 60);
    Wrap64Mul(hours * 60, 60);
    assert perSecond == ToI64(hours * 3600);
    Wrap64Mul(hours * 3600, 1_000_000_000);
    assert ToI64(perSecond * 1_000_000_000) == ToI64(hours * 3_600_000_000_000);
    AddScaled(x, hours * 3_600_000_000_000);
    AddNanoseconds(x, ToI64(perSecond * 1_000_000_000))
  }

  /** `AddDays(int)`: a day's worth of nanoseconds per day, where every
      factor of the product is an `int`, so the product wraps modulo 2^32 and
      is then sign-extended to `long`. */
  function AddDays(x: DateTimeNano, days: I32): (r: DateTimeNano)
    ensures r == Shifted(x, ToI32(days * 86_400_000_000_000))
  {
    Wrap32Mul(days * 24, 60);
    Wrap32Mul(days * 1440, 60);
    Wrap32Mul(days * 86400, 1_000_000_000);
    AddScaled(x, ToI32(days * 86_400_000_000_000));
    AddNanoseconds(x, ToI32(ToI32(ToI32(ToI32(days * 24) * 60) * 60) * 1_000_000_000))
  }

  /** What `AddDays` evidently means: the product in 64-bit arithmetic. */
  function AddDaysIntended(x: DateTimeNano, days: I32): (r: DateTimeNano)
    ensures r == Shifted(x, days * 86_400_000_000_000)
    ensures 0 <= x.nanosecondsSinceEpoch + days * 86_400_000_000_000 < TWO64 ==> r.nanosecondsSinceEpoch == x.nanosecondsSinceEpoch + days * 86_400_000_000_000
  {
    AddScaled(x, days * 86_400_000_000_000);
    AddNanoseconds(x, ToI64(days * 86_400_000_000_000))
  }

  /** Adding a product wrapped to `long` is the shift by the exact product. */
  lemma {:induction false} AddScaled(x: DateTimeNano, amount: int)
    ensures AddNanoseconds(x, ToI64(amount)) == Shifted(x, amount)
  {
    var r := AddNanoseconds(x, ToI64(amount));
    CongruentTrans(r.nanosecondsSinceEpoch, x.nanosecondsSinceEpoch + ToI64(amount), x.nanosecondsSinceEpoch + amount);
    SameLowBits(r.nanosecondsSinceEpoch, x.nanosecondsSinceEpoch + amount);
  }

  // ---------------------------------------------------------------- construction from parts

  /** A count whose calendar view is `ticks` and whose remainder is `ns`. */
  lemma {:induction false} ViewAt(x: DateTimeNano, ticks: int, ns: int)
    requires EpochTicks <= ticks <= Calendar.MaxTicks && (ticks - EpochTicks) % 10 == 0 && 0 <= ns < 1000
    requires x.nanosecondsSinceEpoch == (ticks - EpochTicks) * 100 + ns
    ensures TotalTicks(x) == ticks && Nanoseconds(x) == ns
  {
    var t := TotalTicks(x);
    var a, b := (t - EpochTicks) / 10, (ticks - EpochTicks) / 10;
    assert t - EpochTicks == a * 10 && ticks - EpochTicks == b * 10;
    assert a * 1000 <= x.nanosecondsSinceEpoch < a * 1000 + 1000;
    assert b * 1000 <= x.nanosecondsSinceEpoch < b * 1000 + 1000;
    assert a == b;
  }

  /** `new DateTimeNano(year, month, day, hour, minute, second, millisecond,
      microseconds, nanoseconds)`: the platform constructor validates the
      first seven fields, `AddMicroseconds` fails when it leaves the
      calendar range, and the nanoseconds are added to the scaled tick distance in
      unchecked `long` arithmetic before the `(ulong)` cast. */
  function FromParts(year: I32, month: I32, day: I32, hour: I32, minute: I32, second: I32,
                     millisecond: I32, microseconds: I32, nanoseconds: I32): (r: Result<DateTimeNano>)
    ensures r.Ok? <==>
      && Calendar.ValidDate(Calendar.CivilDate(year, month, day)) && Calendar.ValidTime(hour, minute, second, millisecond)
      && 0 <= Calendar.Compose(Calendar.CivilDate(year, month, day), hour, minute, second, millisecond, 0)
              + microseconds * Calendar.TicksPerMicrosecond <= Calendar.MaxTicks
    ensures r.Ok? ==>
      CountsInstant(r.value, Calendar.Compose(Calendar.CivilDate(year, month, day), hour, minute, second, millisecond, 0)
                             + microseconds * Calendar.TicksPerMicrosecond, nanoseconds)
  {
    var date := Calendar.CivilDate(year, month, day);
    var ticks := if Calendar.ValidDate(date) then Calendar.Compose(date, hour, minute, second, millisecond, 0) else 0;
    AfterMicroseconds(Calendar.NewDateTime(year, month, day, hour, minute, second, millisecond), ticks, microseconds, nanoseconds)
  }

  /** A constructed calendar value at `ticks` moved by `microseconds`, then
      counted with `nanoseconds` added; a construction error passes through. */
  function AfterMicroseconds(dt: Result<Calendar.DateTime>, ticks: int, microseconds: I32, nanoseconds: I32): (r: Result<DateTimeNano>)
    requires dt.Ok? ==> dt.value.ticks == ticks
    ensures r.Ok? <==> dt.Ok? && 0 <= ticks + microseconds * Calendar.TicksPerMicrosecond <= Calendar.MaxTicks
    ensures r.Ok? ==> CountsInstant(r.value, ticks + microseconds * Calendar.TicksPerMicrosecond, nanoseconds)
  {
    var start :- dt;
    var moved :- Calendar.AddMicroseconds(start, microseconds);
    Ok(AtInstant(moved, nanoseconds))
  }

  /** `x` is what unchecked arithmetic leaves of the exact count
      `(ticks - epoch ticks) * 100 + ns`: equal to it modulo 2^64, and equal
      outright when it lies in the `ulong` range. */
  predicate CountsInstant(x: DateTimeNano, ticks: int, ns: int)
  {
    var exact := (ticks - EpochTicks) * 100 + ns;
    && (x.nanosecondsSinceEpoch - exact) % TWO64 == 0
    && (0 <= exact < TWO64 ==> x.nanosecondsSinceEpoch == exact)
  }

  /** The count of a calendar instant plus `nanoseconds`: the tick distance
      to the epoch times 100, plus `nanoseconds`, in unchecked `long`
      arithmetic, then cast to `ulong`. */
  function AtInstant(moved: Calendar.DateTime, nanoseconds: I32): (r: DateTimeNano)
    ensures CountsInstant(r, moved.ticks, nanoseconds)
  {
    SignedSum(Calendar.Subtract(moved, Epoch()) * 100, nanoseconds);
    DateTimeNano(ToU64(ToI64(ToI64(Calendar.Subtract(moved, Epoch()) * 100) + nanoseconds)))
  }

  // ---------------------------------------------------------------- calendar months

  /** Whole days keep a tick count's place within its microsecond. */
  lemma {:induction false} SameTimeOfDay(a: int, b: int)
    requires a >= 0 && b >= 0 && a % Calendar.TicksPerDay == b % Calendar.TicksPerDay
    ensures (a - b) % 10 == 0
  {
    var k := a / Calendar.TicksPerDay - b / Calendar.TicksPerDay;
    assert a - b == k * Calendar.TicksPerDay;
    assert k * Calendar.TicksPerDay == (k * 86_400_000_000) * 10;
  }

  /** The count of a calendar value with `ns` added is the exact count modulo 2^64. */
  lemma {:induction false} MovedCongruent(moved: Calendar.DateTime, ns: I64, r: DateTimeNano)
    requires r == AddNanoseconds(FromDateTime(moved), ns)
    ensures (r.nanosecondsSinceEpoch - ((moved.ticks - EpochTicks) * 100 + ns)) % TWO64 == 0
  {
    var d := moved.ticks - EpochTicks;
    UncheckedAdd(ns, d * 100);
    assert r.nanosecondsSinceEpoch == ToU64(ns + ToU64(d * 100));
  }

  /** A calendar value on the same time of day as `x`, with `x`'s remainder
      added, reads back as that calendar value and that remainder. */
  lemma {:induction false} MovedCountExact(x: DateTimeNano, moved: Calendar.DateTime, r: DateTimeNano)
    requires moved.ticks % Calendar.TicksPerDay == ToDateTimeUtc(x).ticks % Calendar.TicksPerDay
    requires r == AddNanoseconds(FromDateTime(moved), Nanoseconds(x))
    requires EpochTicks <= moved.ticks && (moved.ticks - EpochTicks) * 100 + 1000 <= TWO64
    ensures ToDateTimeUtc(r) == moved && Nanoseconds(r) == Nanoseconds(x)
  {
    var ns := Nanoseconds(x);
    var t := TotalTicks(x);
    assert ToDateTimeUtc(x).ticks == t;
    MovedSum(moved, ns, r);
    Aligned(moved.ticks, t);
    ViewAt(r, moved.ticks, ns);
    assert ToDateTimeUtc(r).ticks == moved.ticks;
  }

  /** Below the top of the range, the moved value's count plus the
      remainder does not wrap. */
  lemma {:induction false} MovedSum(moved: Calendar.DateTime, ns: I64, r: DateTimeNano)
    requires 0 <= ns < 1000 && r == AddNanoseconds(FromDateTime(moved), ns)
    requires EpochTicks <= moved.ticks && (moved.ticks - EpochTicks) * 100 + 1000 <= TWO64
    ensures r.nanosecondsSinceEpoch == (moved.ticks - EpochTicks) * 100 + ns
  {
    var d := moved.ticks - EpochTicks;
    assert FromDateTime(moved).nanosecondsSinceEpoch == d * 100;
    assert r == Shifted(FromDateTime(moved), ns);
  }

  /** A tick count with the same time of day as a whole-microsecond count
      after the epoch is a whole number of microseconds after the epoch too. */
  lemma {:induction false} Aligned(moved: int, t: int)
    requires EpochTicks <= moved && EpochTicks <= t && (t - EpochTicks) % 10 == 0
    requires moved % Calendar.TicksPerDay == t % Calendar.TicksPerDay
    ensures (moved - EpochTicks) % 10 == 0
  {
    SameTimeOfDay(moved, t);
  }

  /** `AddMonths(int)`: the calendar view moved by `DateTime.AddMonths`,
      turned back into a count and given the sub-microsecond remainder
      again.  It fails exactly when the calendar move fails. */
  function AddMonths(x: DateTimeNano, months: I32): (r: Result<DateTimeNano>)
    ensures r.Ok? <==> Calendar.AddMonths(ToDateTimeUtc(x), months).Ok?
  {
    WithNanoseconds(Calendar.AddMonths(ToDateTimeUtc(x), months), Nanoseconds(x))
  }

  /** A calendar result turned back into a count, with `nanoseconds` added;
      an error passes through. */
  function WithNanoseconds(shifted: Result<Calendar.DateTime>, nanoseconds: I64): (r: Result<DateTimeNano>)
    ensures r.Ok? <==> shifted.Ok?
    ensures shifted.Err? ==> r == Err(shifted.error)
    ensures shifted.Ok? ==> CountsInstant(r.value, shifted.value.ticks, nanoseconds)
  {
    if shifted.Err? then Err(shifted.error)
    else
      var v := AddNanoseconds(FromDateTime(shifted.value), nanoseconds);
      ExactCount(shifted.value, nanoseconds, v);
      Ok(v)
  }

  /** The count of a converted calendar value with `ns` added: the exact
      count modulo 2^64, and the exact count when that is in range. */
  lemma {:induction false} ExactCount(moved: Calendar.DateTime, ns: I64, r: DateTimeNano)
    requires r == AddNanoseconds(FromDateTime(moved), ns)
    ensures CountsInstant(r, moved.ticks, ns)
  {
    var exact := (moved.ticks - EpochTicks) * 100 + ns;
    MovedCongruent(moved, ns, r);
    if 0 <= exact < TWO64 {
      CongruentInRange(r.nanosecondsSinceEpoch, exact);
    }
  }

  /** `AddMonths` converts the moved calendar value back with
      `FromDateTime` and adds the remainder with `AddNanoseconds`, so its
      count is the moved value's count plus the remainder modulo 2^64
      (`ExactCount`): it wraps when the moved instant lies before the
      epoch. */
  lemma {:induction false} AddMonthsResult(x: DateTimeNano, months: I32, moved: Calendar.DateTime, r: DateTimeNano)
    requires Calendar.AddMonths(ToDateTimeUtc(x), months) == Ok(moved)
    requires AddMonths(x, months) == Ok(r)
    ensures r == AddNanoseconds(FromDateTime(moved), Nanoseconds(x))
    ensures CountsInstant(r, moved.ticks, Nanoseconds(x))
  {
    ExactCount(moved, Nanoseconds(x), r);
  }

  /** When the moved instant is at or after the epoch and its count fits,
      the calendar view after `AddMonths` is the moved value and the
      remainder below the microsecond is kept. */
  lemma {:induction false} AddMonthsView(x: DateTimeNano, months: I32, moved: Calendar.DateTime, r: DateTimeNano)
    requires Calendar.AddMonths(ToDateTimeUtc(x), months) == Ok(moved)
    requires AddMonths(x, months) == Ok(r)
    requires EpochTicks <= moved.ticks && (moved.ticks - EpochTicks) * 100 + 1000 <= TWO64
    ensures ToDateTimeUtc(r) == moved && Nanoseconds(r) == Nanoseconds(x)
  {
    AddMonthsResult(x, months, moved, r);
    MovedCountExact(x, moved, r);
  }

  // ---------------------------------------------------------------- text

  /** `{dt:yyyy-MM-dd HH:mm:ss}` in the invariant culture: zero-padded
      fields, a space between date and time, `:` between time fields
      (`FormatDateTimeLayout` says where each field sits). */
  function FormatDateTime(dt: Calendar.DateTime): (s: string)
    ensures |s| == 19
  {
    assert Pow10(4) == 10000 && Pow10(2) == 100;
    ClockText(Calendar.Year(dt), Calendar.Month(dt), Calendar.Day(dt), Calendar.Hour(dt), Calendar.Minute(dt), Calendar.Second(dt))
  }

  /** The fields of `yyyy-MM-dd HH:mm:ss`, each zero-padded. */
  function ClockText(year: nat, month: nat, day: nat, hour: nat, minute: nat, second: nat): string {
    PadDecimal(year, 4) + ("-" + (PadDecimal(month, 2) + ("-" + (PadDecimal(day, 2) + (" " + (PadDecimal(hour, 2)
      + (":" + (PadDecimal(minute, 2) + (":" + PadDecimal(second, 2))))))))))
  }

  /** The text of a calendar value shows each of its fields as a digit run
      in a fixed place, between fixed separators. */
  lemma {:induction false} FormatDateTimeLayout(dt: Calendar.DateTime)
    ensures var s := FormatDateTime(dt);
      && |s| == 19 && AllDigits(s[..4]) && AllDigits(s[5..7]) && AllDigits(s[8..10])
      && AllDigits(s[11..13]) && AllDigits(s[14..16]) && AllDigits(s[17..])
      && s[4] == '-' && s[7] == '-' && s[10] == ' ' && s[13] == ':' && s[16] == ':'
      && Value(s[..4]) == Calendar.Year(dt) && Value(s[5..7]) == Calendar.Month(dt)
      && Value(s[8..10]) == Calendar.Day(dt) && Value(s[11..13]) == Calendar.Hour(dt)
      && Value(s[14..16]) == Calendar.Minute(dt) && Value(s[17..]) == Calendar.Second(dt)
  {
    var g := ClockGroups(dt, 0, "");
    assert Pow10(4) == 10000 && Pow10(2) == 100;
    ClockLayout(g.year, g.month, g.day, g.hour, g.minute, g.second);
  }

  /** Where each field of `yyyy-MM-dd HH:mm:ss` sits. */
  lemma {:induction false} ClockLayout(yyyy: string, mm: string, dd: string, hh: string, mi: string, ss: string)
    requires |yyyy| == 4 && |mm| == 2 && |dd| == 2 && |hh| == 2 && |mi| == 2 && |ss| == 2
    ensures var s := yyyy + ("-" + (mm + ("-" + (dd + (" " + (hh + (":" + (mi + (":" + ss)))))))));
      && |s| == 19 && s[..4] == yyyy && s[5..7] == mm && s[8..10] == dd
      && s[11..13] == hh && s[14..16] == mi && s[17..] == ss
      && s[4] == '-' && s[7] == '-' && s[10] == ' ' && s[13] == ':' && s[16] == ':'
  {
    var time := hh + (":" + (mi + (":" + ss)));
    var s := yyyy + ("-" + (mm + ("-" + (dd + (" " + time)))));
    DateLayout(yyyy, mm, dd, " " + time);
    TimeLayout(hh, mi, ss);
    assert s[10..] == " " + time;
    SliceOfSlice(s, 11, 0, 2);
    SliceOfSlice(s, 11, 3, 5);
    SliceOfSlice(s, 11, 6, 8);
    assert s[11..] == time;
  }

  lemma {:induction false} DateLayout(yyyy: string, mm: string, dd: string, rest: string)
    requires |yyyy| == 4 && |mm| == 2 && |dd| == 2
    ensures var s := yyyy + ("-" + (mm + ("-" + (dd + rest))));
      && |s| == 10 + |rest| && s[..4] == yyyy && s[4] == '-' && s[5..7] == mm && s[7] == '-'
      && s[8..10] == dd && s[10..] == rest
  {
    var d1 := dd + rest;
    var c2 := "-" + d1;
    var m1 := mm + c2;
    var c1 := "-" + m1;
    var s := yyyy + c1;
    assert s[5..] == m1;
    SliceOfSlice(s, 5, 0, 2);
    assert s[8..] == d1;
    SliceOfSlice(s, 8, 0, 2);
  }

  lemma {:induction false} TimeLayout(hh: string, mi: string, ss: string)
    requires |hh| == 2 && |mi| == 2 && |ss| == 2
    ensures var s := hh + (":" + (mi + (":" + ss)));
      && |s| == 8 && s[..2] == hh && s[2] == ':' && s[3..5] == mi && s[5] == ':' && s[6..] == ss
  {
    var s := hh + (":" + (mi + (":" + ss)));
    assert s[3..] == mi + (":" + ss);
    SliceOfSlice(s, 3, 0, 2);
  }

  lemma {:induction false} SliceOfSlice(s: string, i: nat, a: nat, b: nat)
    requires a <= b && i + b <= |s|
    ensures s[i..][a..b] == s[i + a..i + b]
  {
  }

  /** The groups of the pattern `Parse` matches that spell a calendar value
      followed by `dots` dots and the fraction digits `fraction`. */
  function ClockGroups(dt: Calendar.DateTime, dots: nat, fraction: string): (g: DatePattern.Groups)
    requires |fraction| <= 9
  {
    var (ms, us, ns) := DatePattern.FractionGroups(fraction);
    DatePattern.Groups(
      PadDecimal(Calendar.Year(dt), 4), PadDecimal(Calendar.Month(dt), 2), PadDecimal(Calendar.Day(dt), 2), ' ',
      PadDecimal(Calendar.Hour(dt), 2), PadDecimal(Calendar.Minute(dt), 2), PadDecimal(Calendar.Second(dt), 2),
      dots, ms, us, ns)
  }

  /** `ToString()`: the calendar view as `yyyy-MM-dd HH:mm:ss`, a dot, and the
      fraction of the second as nine digits (`ToStringLayout`). */
  function ToString(x: DateTimeNano): (s: string)
    ensures |s| == 29
  {
    var fraction := PadDecimal(SecondsFractionInNanoseconds(x), 9);
    assert Pow10(9) == 1_000_000_000;
    FormatDateTime(ToDateTimeUtc(x)) + "." + fraction
  }

  /** The text of a value is the text of its calendar view, a dot, and the
      count modulo one second as a digit run. */
  lemma {:induction false} ToStringLayout(x: DateTimeNano)
    ensures var s := ToString(x);
      && |s| == 29 && s[..19] == FormatDateTime(ToDateTimeUtc(x)) && s[19] == '.'
      && AllDigits(s[20..]) && Value(s[20..]) == x.nanosecondsSinceEpoch % 1_000_000_000
  {
    assert Pow10(9) == 1_000_000_000;
    DotLayout(FormatDateTime(ToDateTimeUtc(x)), PadDecimal(SecondsFractionInNanoseconds(x), 9));
  }

  /** Where the two parts of `ToString` sit around the dot. */
  lemma {:induction false} DotLayout(clock: string, fraction: string)
    requires |clock| == 19 && |fraction| == 9
    ensures var s := clock + "." + fraction;
      && |s| == 29 && s[..19] == clock && s[19] == '.' && s[20..] == fraction
  {
    var s := clock + "." + fraction;
    assert s[20..] == fraction;
  }

  /** `int.Parse` of a run of ASCII digits: its value, or an overflow past
      `int.MaxValue`. */
  function ParseInt(digits: string): (r: Result<I32>)
    requires AllDigits(digits) && digits != []
    ensures r.Ok? <==> Value(digits) < TWO31
    ensures r.Ok? ==> r.value == Value(digits)
  {
    if Value(digits) < TWO31 then Ok(Value(digits)) else Err(Overflow)
  }

  /** A fraction group: 0 when it is empty, its value otherwise. */
  function ParseFraction(digits: string): (r: I32)
    requires AllDigits(digits) && |digits| <= 3
    ensures 0 <= r < 1000 && (digits != [] ==> r == Value(digits))
  {
    assert Pow10(|digits|) <= 1000 by {
      assert Pow10(0) == 1 && Pow10(1) == 10 && Pow10(2) == 100 && Pow10(3) == 1000;
    }
    if digits == [] then 0 else ParseInt(digits).value
  }

  /** `Parse(string)`: match the pattern and read its groups (`ReadGroups`).
      Text the pattern does not match is an `ArgumentException`. */
  function Parse(text: string): (r: Result<DateTimeNano>)
    ensures DatePattern.Match(text).None? ==> r == Err(InvalidFormat(text))
    ensures DatePattern.Match(text).Some? ==> r == ReadGroups(DatePattern.Match(text).value)
  {
    match DatePattern.Match(text)
    case None => Err(InvalidFormat(text))
    case Some(g) => ReadGroups(g)
  }

  /** The groups of a match read with `int.Parse` (an empty fraction group
      is 0) and built into a value with the constructor from parts; a
      group past `int.MaxValue` is an `OverflowException`. */
  function ReadGroups(g: DatePattern.Groups): (r: Result<DateTimeNano>)
    requires DatePattern.WellFormed(g)
    ensures
      if Value(g.year) < TWO31 && Value(g.month) < TWO31 && Value(g.day) < TWO31
         && Value(g.hour) < TWO31 && Value(g.minute) < TWO31 && Value(g.second) < TWO31
      then r == FromParts(Value(g.year), Value(g.month), Value(g.day), Value(g.hour), Value(g.minute), Value(g.second),
                          ParseFraction(g.millisecond), ParseFraction(g.microsecond), ParseFraction(g.nanosecond))
      else r == Err(Overflow)
  {
    var year :- ParseInt(g.year);
    var month :- ParseInt(g.month);
    var day :- ParseInt(g.day);
    var hour :- ParseInt(g.hour);
    var minute :- ParseInt(g.minute);
    var second :- ParseInt(g.second);
    FromParts(year, month, day, hour, minute, second,
              ParseFraction(g.millisecond), ParseFraction(g.microsecond), ParseFraction(g.nanosecond))
  }

  // ---------------------------------------------------------------- round trips

  /** Moving the count by a whole number of microseconds, short of a wrap,
      moves the calendar view by ten ticks each and keeps the remainder. */
  lemma {:induction false} ShiftView(x: DateTimeNano, micros: int, amount: int)
    requires amount == micros * 1000 && 0 <= x.nanosecondsSinceEpoch + amount < TWO64
    ensures TotalTicks(Shifted(x, amount)) == TotalTicks(x) + micros * 10
    ensures Nanoseconds(Shifted(x, amount)) == Nanoseconds(x)
  {
    ShiftCount(x, micros, amount, TotalTicks(x), Nanoseconds(x));
    ViewAt(Shifted(x, amount), TotalTicks(x) + micros * 10, Nanoseconds(x));
  }

  /** The shifted count, split as `ViewAt` wants it. */
  lemma {:induction false} ShiftCount(x: DateTimeNano, micros: int, amount: int, t: int, ns: int)
    requires amount == micros * 1000 && 0 <= x.nanosecondsSinceEpoch + amount < TWO64
    requires EpochTicks <= t && (t - EpochTicks) % 10 == 0 && 0 <= ns < 1000
    requires x.nanosecondsSinceEpoch == (t - EpochTicks) * 100 + ns
    ensures var u := t + micros * 10;
      && EpochTicks <= u <= Calendar.MaxTicks && (u - EpochTicks) % 10 == 0
      && Shifted(x, amount).nanosecondsSinceEpoch == (u - EpochTicks) * 100 + ns
  {
  }

  /** A calendar value after the epoch comes back from a count cut to the
      microsecond; the dropped ticks reappear as whole hundreds of nanoseconds. */
  lemma {:induction false} FromDateTimeRoundTrip(dt: Calendar.DateTime)
    requires EpochTicks <= dt.ticks && (dt.ticks - EpochTicks) * 100 < TWO64
    ensures TotalTicks(FromDateTime(dt)) == dt.ticks - (dt.ticks - EpochTicks) % 10
    ensures Nanoseconds(FromDateTime(dt)) == (dt.ticks - EpochTicks) % 10 * 100
    ensures (dt.ticks - EpochTicks) % 10 == 0 ==> ToDateTimeUtc(FromDateTime(dt)) == dt
  {
    var low := (dt.ticks - EpochTicks) % 10;
    ViewAt(FromDateTime(dt), dt.ticks - low, low * 100);
  }

  /** The calendar view turned back into a count loses exactly `Nanoseconds`. */
  lemma {:induction false} ViewRoundTrip(x: DateTimeNano)
    ensures FromDateTime(ToDateTimeUtc(x)).nanosecondsSinceEpoch == x.nanosecondsSinceEpoch - Nanoseconds(x)
  {
  }

  /** Groups with one dot render as the clock text, the dot and the fraction. */
  lemma {:induction false} RenderClock(g: DatePattern.Groups, fraction: string)
    requires g.sep == ' ' && g.dots == 1 && g.millisecond + (g.microsecond + g.nanosecond) == fraction
    ensures DatePattern.Render(g)
      == g.year + ("-" + (g.month + ("-" + (g.day + (" " + (g.hour + (":" + (g.minute + (":" + g.second))))))))) + "." + fraction
  {
    assert [g.sep] == " " && Dots(1) == ".";
  }

  /** The text of a value shows the groups of its calendar view. */
  lemma {:induction false} ToStringGroups(x: DateTimeNano)
    ensures var fraction := PadDecimal(SecondsFractionInNanoseconds(x), 9);
      |fraction| == 9 && ToString(x) == DatePattern.Render(ClockGroups(ToDateTimeUtc(x), 1, fraction))
  {
    var dt := ToDateTimeUtc(x);
    var fraction := PadDecimal(SecondsFractionInNanoseconds(x), 9);
    assert Pow10(9) == 1_000_000_000;
    var g := ClockGroups(dt, 1, fraction);
    RenderClock(g, fraction);
  }

  /** Zero-padded fields and a nine-digit fraction make groups a match can
      produce, and each group reads back as the number it was written from. */
  lemma {:induction false} PaddedGroups(year: nat, month: nat, day: nat, hour: nat, minute: nat, second: nat, dots: nat,
                     fraction: string, millisecond: nat, microsecond: nat, nanosecond: nat)
    requires year < 10000 && month < 100 && day < 100 && hour < 100 && minute < 100 && second < 100 && dots >= 1
    requires millisecond < 1000 && microsecond < 1000 && nanosecond < 1000
    requires AllDigits(fraction) && |fraction| == 9
    requires Value(fraction) == (millisecond * 1000 + microsecond) * 1000 + nanosecond
    ensures var (ms, us, ns) := DatePattern.FractionGroups(fraction);
      var g := DatePattern.Groups(PadDecimal(year, 4), PadDecimal(month, 2), PadDecimal(day, 2), ' ',
        PadDecimal(hour, 2), PadDecimal(minute, 2), PadDecimal(second, 2), dots, ms, us, ns);
      && DatePattern.WellFormed(g)
      && Value(g.year) == year && Value(g.month) == month && Value(g.day) == day
      && Value(g.hour) == hour && Value(g.minute) == minute && Value(g.second) == second
      && ParseFraction(ms) == millisecond && ParseFraction(us) == microsecond && ParseFraction(ns) == nanosecond
  {
    assert Pow10(4) == 10000 && Pow10(2) == 100;
    FractionRead(fraction, millisecond, microsecond, nanosecond);
  }

  /** A nine-digit fraction splits into three full groups that read back as
      milliseconds, microseconds and nanoseconds. */
  lemma {:induction false} FractionRead(fraction: string, millisecond: nat, microsecond: nat, nanosecond: nat)
    requires millisecond < 1000 && microsecond < 1000 && nanosecond < 1000
    requires AllDigits(fraction) && |fraction| == 9
    requires Value(fraction) == (millisecond * 1000 + microsecond) * 1000 + nanosecond
    ensures var (ms, us, ns) := DatePattern.FractionGroups(fraction);
      && ms == fraction[..3] && us == fraction[3..6] && ns == fraction[6..]
      && AllDigits(ms) && AllDigits(us) && AllDigits(ns) && |ms| == 3 && |us| == 3 && |ns| == 3
      && ParseFraction(ms) == millisecond && ParseFraction(us) == microsecond && ParseFraction(ns) == nanosecond
  {
    ValueOfThreeGroups(fraction);
    GroupsOfThree(Value(fraction), millisecond, microsecond, nanosecond);
  }

  /** The groups of the text of a value are well formed and read back as the
      fields of its calendar view and the remainder. */
  lemma {:induction false} ViewGroups(x: DateTimeNano)
    ensures Reads(ClockGroups(ToDateTimeUtc(x), 1, PadDecimal(SecondsFractionInNanoseconds(x), 9)), ViewParts(x))
  {
    var dt := ToDateTimeUtc(x);
    var fraction := PadDecimal(SecondsFractionInNanoseconds(x), 9);
    assert Pow10(9) == 1_000_000_000;
    PaddedGroups(Calendar.Year(dt), Calendar.Month(dt), Calendar.Day(dt), Calendar.Hour(dt), Calendar.Minute(dt),
                 Calendar.Second(dt), 1, fraction, Calendar.Millisecond(dt), Calendar.Microsecond(dt), Nanoseconds(x));
  }

  /** The nine numbers `new DateTimeNano(...)` takes. */
  datatype Parts = Parts(year: I32, month: I32, day: I32, hour: I32, minute: I32, second: I32,
                         millisecond: I32, microsecond: I32, nanosecond: I32)

  /** The constructor from parts, applied to a bundle of them. */
  function Build(p: Parts): Result<DateTimeNano> {
    FromParts(p.year, p.month, p.day, p.hour, p.minute, p.second, p.millisecond, p.microsecond, p.nanosecond)
  }

  /** The fields of the calendar view, and the nanoseconds below it. */
  function ViewParts(x: DateTimeNano): Parts {
    var dt := ToDateTimeUtc(x);
    Parts(Calendar.Year(dt), Calendar.Month(dt), Calendar.Day(dt), Calendar.Hour(dt), Calendar.Minute(dt),
          Calendar.Second(dt), Calendar.Millisecond(dt), Calendar.Microsecond(dt), Nanoseconds(x))
  }

  /** Well-formed groups that `Parse` reads, with `int.Parse` and the empty
      fraction rule, as the numbers `p`. */
  predicate Reads(g: DatePattern.Groups, p: Parts) {
    && DatePattern.WellFormed(g)
    && Value(g.year) == p.year && Value(g.month) == p.month && Value(g.day) == p.day
    && Value(g.hour) == p.hour && Value(g.minute) == p.minute && Value(g.second) == p.second
    && ParseFraction(g.millisecond) == p.millisecond && ParseFraction(g.microsecond) == p.microsecond
    && ParseFraction(g.nanosecond) == p.nanosecond
  }

  /** Groups that read as numbers fitting an `int` parse, from their
      rendered text, to the value those numbers build. */
  lemma {:induction false} ParseRender(g: DatePattern.Groups, p: Parts)
    requires Reads(g, p)
    ensures Parse(DatePattern.Render(g)) == Build(p)
  {
    ParseRenderAt(g, p.year, p.month, p.day, p.hour, p.minute, p.second, p.millisecond, p.microsecond, p.nanosecond);
  }

  /** The same, for the numbers one by one. */
  lemma {:induction false} ParseRenderAt(g: DatePattern.Groups, year: int, month: int, day: int, hour: int, minute: int,
                                         second: int, millisecond: int, microsecond: int, nanosecond: int)
    requires DatePattern.WellFormed(g)
    requires Value(g.year) == year && Value(g.month) == month && Value(g.day) == day
    requires Value(g.hour) == hour && Value(g.minute) == minute && Value(g.second) == second
    requires year < TWO31 && month < TWO31 && day < TWO31 && hour < TWO31 && minute < TWO31 && second < TWO31
    requires ParseFraction(g.millisecond) == millisecond && ParseFraction(g.microsecond) == microsecond
    requires ParseFraction(g.nanosecond) == nanosecond
    ensures Parse(DatePattern.Render(g)) == FromParts(year, month, day, hour, minute, second, millisecond, microsecond, nanosecond)
  {
    DatePattern.MatchRender(g);
    ReadGroupsAt(g, year, month, day, hour, minute, second, millisecond, microsecond, nanosecond);
  }

  lemma {:induction false} ReadGroupsAt(g: DatePattern.Groups, year: int, month: int, day: int, hour: int, minute: int,
                                        second: int, millisecond: int, microsecond: int, nanosecond: int)
    requires DatePattern.WellFormed(g)
    requires Value(g.year) == year && Value(g.month) == month && Value(g.day) == day
    requires Value(g.hour) == hour && Value(g.minute) == minute && Value(g.second) == second
    requires year < TWO31 && month < TWO31 && day < TWO31 && hour < TWO31 && minute < TWO31 && second < TWO31
    requires ParseFraction(g.millisecond) == millisecond && ParseFraction(g.microsecond) == microsecond
    requires ParseFraction(g.nanosecond) == nanosecond
    ensures ReadGroups(g) == FromParts(year, month, day, hour, minute, second, millisecond, microsecond, nanosecond)
  {
  }

  /** `Parse` reads back every value `ToString` writes. */
  lemma {:induction false} ParseToString(x: DateTimeNano)
    ensures Parse(ToString(x)) == Ok(x)
  {
    var g := ClockGroups(ToDateTimeUtc(x), 1, PadDecimal(SecondsFractionInNanoseconds(x), 9));
    ToStringGroups(x);
    ViewGroups(x);
    ParseRender(g, ViewParts(x));
    FromPartsOfView(x);
  }

  /** The fields of the calendar view, its microseconds and `Nanoseconds`
      rebuild the value. */
  lemma {:induction false} FromPartsOfView(x: DateTimeNano)
    ensures Build(ViewParts(x)) == Ok(x)
  {
    var dt := ToDateTimeUtc(x);
    Calendar.FieldsCompose(dt);
    FractionDigits(x);
    Rebuild(x, ViewParts(x), Calendar.DateOf(dt));
  }

  /** Parts that name a valid instant and compose to the calendar view of
      `x`, with its nanoseconds, build `x`. */
  lemma {:induction false} Rebuild(x: DateTimeNano, p: Parts, date: Calendar.CivilDate)
    requires date == Calendar.CivilDate(p.year, p.month, p.day) && Calendar.ValidDate(date)
    requires Calendar.ValidTime(p.hour, p.minute, p.second, p.millisecond) && 0 <= p.microsecond < 1000
    requires Calendar.Compose(date, p.hour, p.minute, p.second, p.millisecond, p.microsecond * Calendar.TicksPerMicrosecond)
             == TotalTicks(x)
    requires p.nanosecond == Nanoseconds(x)
    ensures Build(p) == Ok(x)
  {
    var t := Calendar.Compose(date, p.hour, p.minute, p.second, p.millisecond, 0) + p.microsecond * Calendar.TicksPerMicrosecond;
    assert t == TotalTicks(x);
    var r := Build(p);
    assert r.Ok?;
    assert (t - EpochTicks) * 100 + p.nanosecond == x.nanosecondsSinceEpoch;
    assert r.value.nanosecondsSinceEpoch == x.nanosecondsSinceEpoch;
  }

  /** `r` is a value whose calendar view is `new DateTime(year, month, day,
      hour, minute, second, millisecond).AddMicroseconds(microsecond)` for
      the fields of `p`, with `p.nanosecond` nanoseconds below it. */
  predicate Shows(r: Result<DateTimeNano>, p: Parts) {
    var dt := Calendar.NewDateTime(p.year, p.month, p.day, p.hour, p.minute, p.second, p.millisecond);
    && r.Ok? && dt.Ok? && Calendar.AddMicroseconds(dt.value, p.microsecond).Ok?
    && ToDateTimeUtc(r.value) == Calendar.AddMicroseconds(dt.value, p.microsecond).value
    && Nanoseconds(r.value) == p.nanosecond
  }

  /** The tick count of a value that shows `p` is the one its fields compose to. */
  lemma {:induction false} ShownTicks(r: Result<DateTimeNano>, p: Parts)
    requires Shows(r, p)
    ensures Calendar.ValidDate(Calendar.CivilDate(p.year, p.month, p.day))
    ensures TotalTicks(r.value)
      == Calendar.Compose(Calendar.CivilDate(p.year, p.month, p.day), p.hour, p.minute, p.second, p.millisecond, 0)
         + p.microsecond * Calendar.TicksPerMicrosecond
  {
  }

  /** The value a successful construction from parts builds shows those
      parts, when the instant is after the epoch and the count does not wrap. */
  lemma {:induction false} FromPartsView(p: Parts)
    requires Build(p).Ok? && 0 <= p.nanosecond < 1000
    requires Calendar.ValidDate(Calendar.CivilDate(p.year, p.month, p.day))
    requires var t := Calendar.Compose(Calendar.CivilDate(p.year, p.month, p.day), p.hour, p.minute, p.second, p.millisecond, 0)
                      + p.microsecond * Calendar.TicksPerMicrosecond;
      EpochTicks <= t && (t - EpochTicks) * 100 + p.nanosecond < TWO64
    ensures Shows(Build(p), p)
  {
    var date := Calendar.CivilDate(p.year, p.month, p.day);
    var t := Calendar.Compose(date, p.hour, p.minute, p.second, p.millisecond, 0) + p.microsecond * Calendar.TicksPerMicrosecond;
    BuildCount(p, t);
    WholeMicroseconds(date, p.hour, p.minute, p.second, p.millisecond, p.microsecond);
    ViewAt(Build(p).value, t, p.nanosecond);
    ShowsTicks(Build(p), p, t);
  }

  /** The count a successful construction builds, when it does not wrap. */
  lemma {:induction false} BuildCount(p: Parts, t: int)
    requires Build(p).Ok? && Calendar.ValidDate(Calendar.CivilDate(p.year, p.month, p.day))
    requires t == Calendar.Compose(Calendar.CivilDate(p.year, p.month, p.day), p.hour, p.minute, p.second, p.millisecond, 0)
                  + p.microsecond * Calendar.TicksPerMicrosecond
    requires EpochTicks <= t && 0 <= p.nanosecond && (t - EpochTicks) * 100 + p.nanosecond < TWO64
    ensures Calendar.ValidTime(p.hour, p.minute, p.second, p.millisecond) && t <= Calendar.MaxTicks
    ensures Build(p).value.nanosecondsSinceEpoch == (t - EpochTicks) * 100 + p.nanosecond
  {
  }

  /** A value whose tick count is the one the fields of `p` compose to, and
      whose remainder is `p.nanosecond`, shows `p`. */
  lemma {:induction false} ShowsTicks(r: Result<DateTimeNano>, p: Parts, t: int)
    requires Calendar.ValidDate(Calendar.CivilDate(p.year, p.month, p.day))
    requires Calendar.ValidTime(p.hour, p.minute, p.second, p.millisecond)
    requires t == Calendar.Compose(Calendar.CivilDate(p.year, p.month, p.day), p.hour, p.minute, p.second, p.millisecond, 0)
                  + p.microsecond * Calendar.TicksPerMicrosecond
    requires 0 <= t <= Calendar.MaxTicks
    requires r.Ok? && TotalTicks(r.value) == t && Nanoseconds(r.value) == p.nanosecond
    ensures Shows(r, p)
  {
  }

  /** Fields down to the microsecond give a whole number of microseconds
      since the epoch. */
  lemma {:induction false} WholeMicroseconds(date: Calendar.CivilDate, hour: int, minute: int, second: int,
                                             millisecond: int, microseconds: int)
    requires Calendar.ValidDate(date)
    ensures (Calendar.Compose(date, hour, minute, second, millisecond, 0) + microseconds * Calendar.TicksPerMicrosecond
             - EpochTicks) % 10 == 0
  {
    var d := Calendar.DayNumber(date);
    var q := d * 86_400_000_000 + (hour * 3600 + minute * 60 + second) * 1_000_000 + millisecond * 1000 + microseconds
             - EpochTicks / 10;
    assert Calendar.Compose(date, hour, minute, second, millisecond, 0) + microseconds * Calendar.TicksPerMicrosecond
           - EpochTicks == q * 10;
  }

  // ---------------------------------------------------------------- units

  /** Shifting by a count wrapped to `long` and then scaled is shifting by
      the exact scaled count. */
  lemma {:induction false} ScaledShift(x: DateTimeNano, k: int, unit: int, total: int)
    requires total == k * unit
    ensures Shifted(x, ToI64(k) * unit) == Shifted(x, total)
  {
    MulCongruent(ToI64(k), k, unit, TWO64);
    SameLowBits(x.nanosecondsSinceEpoch + ToI64(k) * unit, x.nanosecondsSinceEpoch + total);
  }

  /** A microsecond is a thousand nanoseconds, also when the product wraps. */
  lemma {:induction false} MicrosecondsAsNanoseconds(x: DateTimeNano, microseconds: I64)
    ensures AddMicroseconds(x, microseconds) == AddNanoseconds(x, ToI64(microseconds * 1000))
  {
    AddScaled(x, microseconds * 1000);
  }

  /** A millisecond is a thousand microseconds, also when the product wraps. */
  lemma {:induction false} MillisecondsAsMicroseconds(x: DateTimeNano, milliseconds: I64)
    ensures AddMilliseconds(x, milliseconds) == AddMicroseconds(x, ToI64(milliseconds * 1000))
  {
    ScaledShift(x, milliseconds * 1000, 1000, milliseconds * 1_000_000);
  }

  /** A second is a thousand milliseconds, also when the product wraps. */
  lemma {:induction false} SecondsAsMilliseconds(x: DateTimeNano, seconds: I64)
    ensures AddSeconds(x, seconds) == AddMilliseconds(x, ToI64(seconds * 1000))
  {
    ScaledShift(x, seconds * 1000, 1_000_000, seconds * 1_000_000_000);
  }

  /** A minute is sixty seconds, also when the product wraps. */
  lemma {:induction false} MinutesAsSeconds(x: DateTimeNano, minutes: I64)
    ensures AddMinutes(x, minutes) == AddSeconds(x, ToI64(minutes * 60))
  {
    ScaledShift(x, minutes * 60, 1_000_000_000, minutes * 60_000_000_000);
  }

  /** An hour is sixty minutes, also when the product wraps. */
  lemma {:induction false} HoursAsMinutes(x: DateTimeNano, hours: I64)
    ensures AddHours(x, hours) == AddMinutes(x, ToI64(hours * 60))
  {
    ScaledShift(x, hours * 60, 60_000_000_000, hours * 3_600_000_000_000);
  }

  /** The corrected day adder moves by twenty-four hours. */
  lemma {:induction false} DaysIntendedAsHours(x: DateTimeNano, days: I32)
    ensures AddDaysIntended(x, days) == AddHours(x, days * 24)
  {
    assert (days * 24) * 3_600_000_000_000 == days * 86_400_000_000_000;
  }

  /** Without a wrap, adding microseconds moves the calendar view by ten
      ticks each and keeps the nanoseconds. */
  lemma {:induction false} AddMicrosecondsView(x: DateTimeNano, microseconds: I64)
    requires 0 <= x.nanosecondsSinceEpoch + microseconds * 1000 < TWO64
    ensures TotalTicks(AddMicroseconds(x, microseconds)) == TotalTicks(x) + microseconds * Calendar.TicksPerMicrosecond
    ensures Nanoseconds(AddMicroseconds(x, microseconds)) == Nanoseconds(x)
  {
    ShiftView(x, microseconds, microseconds * 1000);
  }

  /** Without a wrap, the corrected day adder moves the calendar view by
      whole days and keeps the nanoseconds. */
  lemma {:induction false} AddDaysIntendedView(x: DateTimeNano, days: I32)
    requires 0 <= x.nanosecondsSinceEpoch + days * 86_400_000_000_000 < TWO64
    ensures TotalTicks(AddDaysIntended(x, days)) == TotalTicks(x) + days * Calendar.TicksPerDay
    ensures Nanoseconds(AddDaysIntended(x, days)) == Nanoseconds(x)
  {
    ShiftView(x, days * 86_400_000_000, days * 86_400_000_000_000);
  }

  /** Without a wrap, the corrected day adder keeps the time of day. */
  lemma {:induction false} AddDaysIntendedTimeOfDay(x: DateTimeNano, days: I32)
    requires 0 <= x.nanosecondsSinceEpoch + days * 86_400_000_000_000 < TWO64
    ensures TotalTicks(AddDaysIntended(x, days)) % Calendar.TicksPerDay == TotalTicks(x) % Calendar.TicksPerDay
  {
    AddDaysIntendedView(x, days);
    TicksOfDay(TotalTicks(x), days, TotalTicks(AddDaysIntended(x, days)));
  }

  lemma {:induction false} TicksOfDay(t: int, days: int, u: int)
    requires u == t + days * Calendar.TicksPerDay
    ensures u % Calendar.TicksPerDay == t % Calendar.TicksPerDay
  {
    var q := t / Calendar.TicksPerDay;
    assert t + days * Calendar.TicksPerDay == (q + days) * Calendar.TicksPerDay + t % Calendar.TicksPerDay;
  }

  /** `AddDays(1)` moves every value by the 32-bit wrap of a day's
      nanoseconds, -1_857_093_632, where a day is 86_400_000_000_000. */
  lemma {:induction false} AddDaysOneDay(x: DateTimeNano)
    ensures AddDays(x, 1).nanosecondsSinceEpoch == ToU64(x.nanosecondsSinceEpoch - 1_857_093_632)
    ensures AddDaysIntended(x, 1).nanosecondsSinceEpoch == ToU64(x.nanosecondsSinceEpoch + 86_400_000_000_000)
    ensures AddDays(x, 1) != AddDaysIntended(x, 1)
  {
    assert ToI32(86_400_000_000_000) == -1_857_093_632;
    var a, b := AddDays(x, 1), AddDaysIntended(x, 1);
    SameLowBits(a.nanosecondsSinceEpoch, x.nanosecondsSinceEpoch - 1_857_093_632);
    SameLowBits(b.nanosecondsSinceEpoch, x.nanosecondsSinceEpoch + 86_400_000_000_000);
  }
}
