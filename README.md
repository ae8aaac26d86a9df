# DateTimeNano in Dafny

A model of `Seerstone.DateTimeNano`, a value type with nanosecond precision.

The type holds a single unsigned 64-bit count of nanoseconds since 1970-01-01T00:00:00 UTC. It computes every other view from that count:

- the platform calendar value, cut to whole microseconds;
- the sub-microsecond remainder;
- the fraction of the second;
- the `yyyy-MM-dd HH:mm:ss.fffffffff` text form.

It also offers wrapping unit arithmetic, calendar month arithmetic, three constructors and a regex-based parser.

The project has seven modules:

- `Machine` (`machine.dfy`): C# `ulong`, `long` and `int` as subset types of `int`. It writes out every unchecked wrap-around, and the truncating division, explicitly.
- `Errors` (`errors.dfy`): the exceptions the code can raise, modelled as `Result` values.
- `Decimal` (`decimal.dfy`):
  - decimal digit text;
  - the value `int.Parse` reads from a digit run;
  - zero-padded formatting (`yyyy`, `MM`, `D9`, …).
- `Calendar` (`calendar.dfy`): the part of the platform `DateTime` the struct uses.
  - It is a tick count from 0001-01-01, with 10,000,000 ticks per second.
  - It covers proleptic Gregorian civil↔day conversion, including leap years and month lengths.
  - It covers the validating constructor from fields, `AddTicks`, `AddMicroseconds`, `Subtract`, `Date`, and `AddMonths` with day clamping.
- `DatePattern` (`pattern.dfy`): the pattern `Parse` matches against, as an anchored ASCII scanner. All three of its views are proved to agree:
  - the matcher;
  - the renderer of its capture groups;
  - the well-formedness predicate.
- `Seerstone` (`seerstone.dfy`): the struct itself. Its operations are functions over `datatype DateTimeNano(nanosecondsSinceEpoch: U64)`. The lemmas cover:
  - round trips: raw count, calendar value, and `Parse(ToString(x)) == Ok(x)`;
  - the wrap-around laws of the adders;
  - the conversions between units;
  - what month arithmetic keeps.
- `Scenarios` (`scenarios.dfy`): the concrete cases of the repository's tests, as lemmas about the model.

The code raises exceptions from the platform constructor, from `AddTicks`/`AddMonths`, from `int.Parse` and from `Parse`. The model returns them as `Err(ArgumentOutOfRange)`, `Err(Overflow)` and `Err(InvalidFormat(text))`. This covers every constructor and operation that can throw.

C# integer arithmetic is taken to be unchecked, which is the compiler default: each `long`, `int` or `ulong` overflow wraps.

Two behaviours of the code are worth knowing before reading the table:

- **Instants before the epoch.** The code casts the negative tick distance to `ulong`, so it wraps rather than failing. `Seerstone.FromDateTime` models the wrap.
- **The `AddDays` product.** Unlike the other adders, the code multiplies the days by the nanoseconds per day in `int`. `Seerstone.AddDays` models that product, and the wrap it causes is logged under "Findings".

## Model

| member | source | states |
|---|---|---|
| Seerstone.Epoch | DateTimeNano/DateTimeNano.cs:34 | The epoch is 621,355,968,000,000,000 ticks after 0001-01-01, the constant the tests use. |
| Seerstone.EpochIsUnixEpoch | DateTimeNano/DateTimeNano.cs:34 | The platform constructor succeeds on 1970-01-01 00:00:00 and returns exactly that epoch value. |
| Seerstone.UnixNanosecondsRoundTrip | DateTimeNano/DateTimeNano.cs:107-110 | Building from a raw count stores it verbatim, and `ToUnixNanoseconds` (lines 200-203) returns it. Raw→value→raw and value→raw→value are both the identity. |
| Seerstone.FromDateTime | DateTimeNano/DateTimeNano.cs:97-100 | The count is the tick distance from the epoch times 100, taken modulo 2^64 (pre-epoch instants wrap). It is exactly that product whenever the product is in range. |
| Seerstone.FromDateTimeRoundTrip | DateTimeNano/DateTimeNano.cs:97-100 | For an instant at or after the epoch the view cuts the instant to whole microseconds. The remainder is the dropped ticks times 100. A microsecond-aligned instant comes back unchanged. |
| Seerstone.ViewRoundTrip | DateTimeNano/DateTimeNano.cs:39 | Converting the calendar view back gives the count minus its sub-microsecond remainder. |
| Seerstone.TotalTicks | DateTimeNano/DateTimeNano.cs:52 | `Epoch.AddTicks` never throws for any count. The ticks lie between the epoch and the platform maximum, sit on a whole microsecond after the epoch, and bracket the count: `(t-E)*100 <= n < (t-E)*100 + 1000`. |
| Seerstone.ViewAt | DateTimeNano/DateTimeNano.cs:52-57 | A count written as a microsecond-aligned tick value and a remainder below 1000 has exactly those as `TotalTicks` and `Nanoseconds`. |
| Seerstone.ToDateTimeUtc | DateTimeNano/DateTimeNano.cs:191-194 | The calendar view (also the `DateTime` property, line 39) is the value at `TotalTicks`. |
| Seerstone.Date | DateTimeNano/DateTimeNano.cs:41 | Same calendar date as the view, every time-of-day field zero, and at most one day before the view. |
| Seerstone.Nanoseconds | DateTimeNano/DateTimeNano.cs:57 | The remainder lies in 0..999 and is exactly what the tick view drops: `n == (TotalTicks-E)*100 + r`. |
| Seerstone.SecondsFractionInNanoseconds | DateTimeNano/DateTimeNano.cs:62 | The millisecond, microsecond and nanosecond sum equals `n % 1_000_000_000`, so it lies in 0..999,999,999. |
| Seerstone.FractionDigits | DateTimeNano/DateTimeNano.cs:62 | The view's millisecond and microsecond fields are the count's millisecond and microsecond digits. The view's sub-millisecond ticks are its microseconds times ten. |
| Seerstone.AddNanoseconds | DateTimeNano/DateTimeNano.cs:140-143 | The result is the value shifted by the amount, modulo 2^64 (the reference definition `Shifted`). |
| Seerstone.ShiftedWrap | DateTimeNano/DateTimeNano.cs:142 | The shifted count is the true sum when in range. Below zero it is the sum plus 2^64, and at or above 2^64 it is the sum minus 2^64. |
| Seerstone.AddNanosecondsInverse | DateTimeNano/DateTimeNano.cs:140-143 | Adding `d` and then `-d` gives the value back, wrap or not, for every `long` `d`. The negation is C#'s unchecked one, so for −2^63 it is −2^63 itself. |
| Seerstone.AddNanosecondsCompose | DateTimeNano/DateTimeNano.cs:140-143 | Two additions equal one addition of the 64-bit wrapped sum of the amounts. |
| Seerstone.AddNanosecondsZero | DateTimeNano/DateTimeNano.cs:140-143 | Adding zero is the identity. |
| Seerstone.AddMicroseconds | DateTimeNano/DateTimeNano.cs:150-153 | Shift by the exact product k×1000, modulo 2^64, whatever the `long` product wraps to. The count is the exact sum when that is in range. |
| Seerstone.AddMilliseconds | DateTimeNano/DateTimeNano.cs:155-158 | Shift by the exact product k×10^6, modulo 2^64. The count is the exact sum when in range. |
| Seerstone.AddSeconds | DateTimeNano/DateTimeNano.cs:160-163 | Shift by the exact product k×10^9, modulo 2^64. The count is the exact sum when in range. |
| Seerstone.AddMinutes | DateTimeNano/DateTimeNano.cs:165-168 | Shift by the exact product k×6×10^10 (two wrapping `long` products), modulo 2^64. The count is the exact sum when in range. |
| Seerstone.AddHours | DateTimeNano/DateTimeNano.cs:170-173 | Shift by the exact product k×3.6×10^12 (three wrapping `long` products), modulo 2^64. The count is the exact sum when in range. |
| Seerstone.AddDays | DateTimeNano/DateTimeNano.cs:175-178 | Shift by the 32-bit wrap of days×86,400,000,000,000, the `int` product the code computes, sign-extended. |
| Seerstone.AddDaysIntended | DateTimeNano/DateTimeNano.cs:175-178 | Shift by the exact product days×86,400,000,000,000, modulo 2^64. The count is the exact sum when in range. |
| Seerstone.MicrosecondsAsNanoseconds | DateTimeNano/DateTimeNano.cs:150-153 | Adding k microseconds is adding the wrapped k×1000 nanoseconds. |
| Seerstone.MillisecondsAsMicroseconds | DateTimeNano/DateTimeNano.cs:155-158 | Adding k milliseconds is adding the wrapped k×1000 microseconds. |
| Seerstone.SecondsAsMilliseconds | DateTimeNano/DateTimeNano.cs:160-163 | Adding k seconds is adding the wrapped k×1000 milliseconds. |
| Seerstone.MinutesAsSeconds | DateTimeNano/DateTimeNano.cs:165-168 | Adding k minutes is adding the wrapped k×60 seconds. |
| Seerstone.HoursAsMinutes | DateTimeNano/DateTimeNano.cs:170-173 | Adding k hours is adding the wrapped k×60 minutes. |
| Seerstone.DaysIntendedAsHours | DateTimeNano/DateTimeNano.cs:175-178 | The corrected day adder is adding days×24 hours. |
| Seerstone.AddMicrosecondsView | DateTimeNano/DateTimeNano.cs:150-153 | Without wrap, adding microseconds moves the tick view by ten ticks each and keeps the sub-microsecond remainder. |
| Seerstone.AddDaysIntendedView | DateTimeNano/DateTimeNano.cs:175-178 | Without wrap, the corrected day adder moves the tick view by whole days and keeps the remainder. |
| Seerstone.AddDaysIntendedTimeOfDay | DateTimeNano/DateTimeNano.cs:175-178 | Without wrap, the corrected day adder keeps the time of day. |
| Seerstone.AddDaysOneDay | DateTimeNano/DateTimeNano.cs:177 | `AddDays(1)` moves every count by −1,857,093,632 ns (mod 2^64). The corrected adder moves it by +86,400,000,000,000 ns. The two differ on every value. |
| Seerstone.FromParts | DateTimeNano/DateTimeNano.cs:128-133 | Succeeds iff the date is a valid calendar date, the time fields are in range, and adding the microseconds stays within 0001..9999. The microseconds and nanoseconds are unranged offsets. On success the count is `(t-E)*100 + nanoseconds` modulo 2^64, and exactly that when in range (`Seerstone.CountsInstant`). |
| Seerstone.AtInstant | DateTimeNano/DateTimeNano.cs:132 | The count of a calendar instant with nanoseconds added in `long` and cast to `ulong` is the exact sum modulo 2^64, and the exact sum when in range. |
| Seerstone.FromPartsView | DateTimeNano/DateTimeNano.cs:128-133 | When construction succeeds, the remainder is below 1000 and nothing wraps: the calendar view is the platform constructor's value plus the microseconds, and `Nanoseconds` is the nanosecond argument. |
| Seerstone.BuildCount | DateTimeNano/DateTimeNano.cs:132 | A successful construction with no wrap has the count `(t-E)*100 + nanoseconds`. Its time fields were in range. |
| Seerstone.FromPartsOfView | DateTimeNano/DateTimeNano.cs:128-133 | Constructing from a value's own calendar fields, microsecond and remainder gives the value back. |
| Seerstone.Rebuild | DateTimeNano/DateTimeNano.cs:128-133 | Fields whose composed ticks equal a value's tick view, with that value's remainder, construct exactly that value. |
| Seerstone.AddMonths | DateTimeNano/DateTimeNano.cs:180-183 | Fails exactly when the platform `AddMonths` of the calendar view fails. |
| Seerstone.WithNanoseconds | DateTimeNano/DateTimeNano.cs:182 | Succeeds iff the calendar step succeeded, and a calendar error passes through unchanged. On success the count is the moved instant's exact count `(t-E)*100 + nanoseconds` modulo 2^64, and exactly that when in range. |
| Seerstone.AddMonthsResult | DateTimeNano/DateTimeNano.cs:182 | A successful month move is the moved calendar value converted back, with the original remainder added as nanoseconds. Its count is therefore `(t-E)*100 + remainder` modulo 2^64 for the moved ticks `t`, and exactly that when in range. |
| Seerstone.ExactCount | DateTimeNano/DateTimeNano.cs:182 | Converting a calendar value back and adding `ns` nanoseconds gives the exact count `(t-E)*100 + ns` modulo 2^64, and exactly that when in range. |
| Seerstone.AddMonthsView | DateTimeNano/DateTimeNano.cs:180-183 | When the moved instant does not wrap, the result's calendar view is the platform `AddMonths` of the original view, and the sub-microsecond remainder is kept. |
| Seerstone.MovedCountExact | DateTimeNano/DateTimeNano.cs:182 | A calendar value on the same time of day as `x`, with `x`'s remainder added, reads back as that calendar value and that remainder. |
| Seerstone.FormatDateTime | DateTimeNano/DateTimeNano.cs:211 | The `yyyy-MM-dd HH:mm:ss` text is 19 characters long. |
| Seerstone.FormatDateTimeLayout | DateTimeNano/DateTimeNano.cs:211 | Digit fields at fixed positions read back as the view's year, month, day, hour, minute and second. The separators are `-`, `-`, space, `:`, `:`. |
| Seerstone.ToString | DateTimeNano/DateTimeNano.cs:209-212 | The text is 29 characters long. |
| Seerstone.ToStringLayout | DateTimeNano/DateTimeNano.cs:209-212 | The first 19 characters are the calendar text, then a dot, then nine digits whose value is `n % 1_000_000_000`. |
| Seerstone.ToStringGroups | DateTimeNano/DateTimeNano.cs:211 | The text is the rendering of the parse pattern's groups for the view, with one dot and the nine-digit fraction. |
| Seerstone.ViewGroups | DateTimeNano/DateTimeNano.cs:211 | Those rendered groups read back, group by group, to the value's own fields (`ViewParts`). |
| Seerstone.ParseInt | DateTimeNano/DateTimeNano.cs:78-83 | `int.Parse` of a digit run succeeds iff its value fits in `int`, and then returns that value. |
| Seerstone.ParseFraction | DateTimeNano/DateTimeNano.cs:84-86 | An empty fraction group reads as 0. A non-empty one (at most three digits) reads as its value. |
| Seerstone.Parse | DateTimeNano/DateTimeNano.cs:69-91 | Text the pattern rejects gives the format error. Text it matches gives the reading of the matched groups. |
| Seerstone.ReadGroups | DateTimeNano/DateTimeNano.cs:76-87 | If all six digit-run groups fit in `int`, the result is the constructor from parts on their values and the three fraction readings. Otherwise it is the overflow error. |
| Seerstone.ParseRender | DateTimeNano/DateTimeNano.cs:69-91 | Parsing the rendering of well-formed groups that read as some parts is the constructor applied to those parts. |
| Seerstone.ParseToString | DateTimeNano/DateTimeNano.cs:69-91 | For every value, `Parse(ToString(x)) == Ok(x)`. |
| Calendar.NewDateTime | DateTimeNano/DateTimeNano.cs:131 | The platform constructor succeeds iff the date is valid (year 1..9999, month 1..12, day within the month) and the time fields are in range. Its result has exactly those fields and no sub-millisecond ticks. |
| Calendar.AddTicks | DateTimeNano/DateTimeNano.cs:52 | Succeeds iff the sum stays within 0001-01-01..9999-12-31, and then moves by exactly the amount. |
| Calendar.AddMicroseconds | DateTimeNano/DateTimeNano.cs:131 | Succeeds iff the moved instant stays in range, and then moves by ten ticks per microsecond. |
| Calendar.Date | DateTimeNano/DateTimeNano.cs:41 | Same date, every time field zero, within one day before the instant. |
| Calendar.AddMonths | DateTimeNano/DateTimeNano.cs:182 | Succeeds iff the month count is within ±120,000 and the target year is within 1..9999. The result keeps the time of day. |
| Calendar.AddMonthsFields | DateTimeNano/DateTimeNano.cs:182 | A successful move lands on the clamped moved date, at the original time of day. |
| Calendar.MovedDate | DateTimeNano/DateTimeNano.cs:182 | The target year and month are the month index plus the count, divided by 12. The day is kept, or clamped to the last day of a shorter month. |
| Calendar.MonthCarry | DateTimeNano/DateTimeNano.cs:182 | The platform's year/month carry, with its two branches, agrees with floor division of the month index. |
| Calendar.AtDate | DateTimeNano/DateTimeNano.cs:182 | A date with month and day in range gives an instant on that date at the given time of day iff its year is 1..9999. |
| Calendar.DayNumber | DateTimeNano/DateTimeNano.cs:131 | The day number of a valid date lies within its year's days and below the end of year 9999. |
| Calendar.DaysInMonth | DateTimeNano/DateTimeNano.cs:131 | A month has 28 to 31 days, the gap between consecutive month starts. |
| Calendar.DaysToYearStep | DateTimeNano/DateTimeNano.cs:131 | The closed-form day count of a year start grows by that year's length. |
| Calendar.YearOf | DateTimeNano/DateTimeNano.cs:39 | The 400/100/4/1-year decomposition of a day number gives the year whose days contain it. |
| Calendar.CivilFromDays | DateTimeNano/DateTimeNano.cs:39 | The civil date of a day number is valid and has that day number. |
| Calendar.CivilFromDayNumber | DateTimeNano/DateTimeNano.cs:39 | Day number then civil date is the identity on valid dates. |
| Calendar.FieldsCompose | DateTimeNano/DateTimeNano.cs:39 | An instant is recomposed exactly from its calendar fields. |
| Calendar.ComposeFields | DateTimeNano/DateTimeNano.cs:131 | Composing valid fields gives an in-range instant whose fields are exactly those. |
| DatePattern.Match | DateTimeNano/DateTimeNano.cs:73-75 | A match yields well-formed groups whose rendering is the whole input. |
| DatePattern.MatchRender | DateTimeNano/DateTimeNano.cs:73-75 | The rendering of well-formed groups matches back to the same groups. |
| DatePattern.MatchIff | DateTimeNano/DateTimeNano.cs:73-75 | `Match(s) == Some(g)` iff `g` is well formed and renders as `s`. |
| DatePattern.FractionGroups | DateTimeNano/DateTimeNano.cs:73 | The three fraction groups, taken left to right, concatenate back to the fraction digits. |
| DatePattern.FractionGroupsAt | DateTimeNano/DateTimeNano.cs:73 | Groups that fill from the left are exactly what the split returns. |
| Decimal.PadDecimal | DateTimeNano/DateTimeNano.cs:211 | Zero-padded text is all digits, at least the width long, reads back as the number, and is exactly the width when the number fits. |
| Decimal.Value | DateTimeNano/DateTimeNano.cs:78 | A run of k digits denotes a number below 10^k. |
| Decimal.ValueConcat | DateTimeNano/DateTimeNano.cs:78 | Reading a concatenation shifts the left part by the right part's length. |
| Decimal.SplitDigitsAt | DateTimeNano/DateTimeNano.cs:73 | A digit run followed by the end or a non-digit is split exactly there, as the greedy group takes it. |
| Machine.SignedSum | DateTimeNano/DateTimeNano.cs:132 | A `long` sum cast to `ulong` is the true sum modulo 2^64, and the true sum when in range. |
| Machine.Wrap64Mul | DateTimeNano/DateTimeNano.cs:167 | A chain of unchecked `long` products wraps only once, at the end. |
| Machine.Wrap32Mul | DateTimeNano/DateTimeNano.cs:177 | A chain of unchecked `int` products wraps only once, at the end. |
| Scenarios.EpochCase | DateTimeNano.Tests/DateTimeNanoTests.cs:115-122 | The epoch as a calendar value converts to count 0, its view is the epoch, and its ticks are the test's constant. |
| Scenarios.FromDateTimeCase | DateTimeNano.Tests/DateTimeNanoTests.cs:125-132 | 2025-02-10 20:27:12.123 converts to 1,739,219,232,123,000,000, whose view is that instant, with remainder 0. |
| Scenarios.NanosecondsCase | DateTimeNano.Tests/DateTimeNanoTests.cs:135-143 | Count 1,739,219,232,123,456,789 views as 2025-02-10 20:27:12.123 plus 456 µs, with remainder 789 and fraction 123,456,789. |
| Scenarios.ToStringCase | DateTimeNano.Tests/DateTimeNanoTests.cs:146-151 | That count formats as `2025-02-10 20:27:12.123456789`. |
| Scenarios.ParseNanoseconds | DateTimeNano.Tests/DateTimeNanoTests.cs:153 | The text with nine fraction digits parses to the calendar value 20:27:12.123 plus 456 µs, with remainder 789. |
| Scenarios.ParseMicroseconds | DateTimeNano.Tests/DateTimeNanoTests.cs:154 | Six fraction digits parse to 123 ms and 456 µs, with remainder 0. |
| Scenarios.ParseMilliseconds | DateTimeNano.Tests/DateTimeNanoTests.cs:155 | Three fraction digits parse to 123 ms. |
| Scenarios.ParseWholeSecond | DateTimeNano.Tests/DateTimeNanoTests.cs:156 | The text without a fraction parses to the whole second. |
| Scenarios.AddToWholeSecond | DateTimeNano.Tests/DateTimeNanoTests.cs:164 | Parsing the whole second and adding 123,456,789 ns formats as `…12.123456789`. |
| Scenarios.SubtractToWholeSecond | DateTimeNano.Tests/DateTimeNanoTests.cs:165 | Parsing `…12.123456789` and adding −123,456,789 ns formats as `…12.000000000`. |
| Scenarios.BaseAdders | DateTimeNano.Tests/DateTimeNanoTests.cs:17-69 | From the base count, each unit adder moves the count by the product its test asserts. |
| Scenarios.BaseAddDays | DateTimeNano.Tests/DateTimeNanoTests.cs:71-81 | `AddDays(1)` from the base count equals the test's unchecked `int` expression, 1,699,999,998,142,906,368. The corrected adder gives 1,700,086,400,000,000,000. |
| Scenarios.BaseAddMonths | DateTimeNano.Tests/DateTimeNanoTests.cs:83-91 | Moving the base count (2023-11-14) by two months succeeds, and its view is the platform's move of the view, 2024-01-14. |

## Left out

- Protobuf attributes (DateTimeNano/DateTimeNano.cs:28, 46) and the unused `using` directives: these are serialization plumbing without logic.
- Full .NET regex semantics. The pattern is modelled as an anchored scanner over ASCII digits, where the whole text must match. Unicode `\d`, and leading or trailing text around an unanchored match, are not modelled.
- The current culture in `ToString`: the invariant culture (its Gregorian calendar and its `:` separator) is assumed. Under another culture `yyyy` may print another era's year (the Buddhist era under th-TH, for one), and then the round trip through `Parse` does not hold.
- `DateTimeKind`: equality, `Subtract` and the calendar views ignore it.
- The `double` parameter of the platform `AddMicroseconds`. The argument is always an integral `int`, so the conversion is treated as exact.
- The implicit and explicit conversion operators (DateTimeNano/DateTimeNano.cs:214-216): they are aliases of `ToDateTimeUtc` and `FromDateTime`.
- The public setter of `NanosecondsSinceEpoch`: it is only assigned in the constructors, and the model's values are immutable.
- Leap seconds: second 60 is rejected, as on a platform without leap-second support.
- The exception message text, and the exception types beyond the three error kinds.
- Seerstone.AddMonthsView: requires that the moved instant, converted back with its remainder, does not wrap past 2^64 (the moved instant at or after the epoch and before the year 2554). Past that point the code's count wraps, and the view is no longer the moved calendar value.
- Seerstone.FromPartsView: requires the nanosecond argument in 0..999 and no wrap in the final cast. Outside that range the constructor's count is stated by `Seerstone.FromParts` itself, modulo 2^64.
- Seerstone.Epoch: the public static field `Epoch` is writable. The model assumes it is never reassigned, since reassigning it would change `TotalTicks` and both constructors.
- Seerstone.FromParts: the source gives hour through nanoseconds a default value of 0. The model has no defaults, so every call passes all nine parts.

## Findings

| source | as written | input that shows it | evidently intended | confidence | as-written member | corrected member |
|---|---|---|---|---|---|---|
| DateTimeNano/DateTimeNano.cs:175-178 | The day amount `days * 24 * 60 * 60 * 1_000_000_000` is computed in 32-bit `int` arithmetic, wraps modulo 2^32, and only then widens to `long`. | `days = 1`: the amount is −1,857,093,632 ns, so `AddDays(1)` moves the instant about 1.86 s into the past instead of one day forward. | The product computed in 64 bits, 86,400,000,000,000 ns per day, as the other adders do. | not executed | Seerstone.AddDays, Seerstone.AddDaysOneDay | Seerstone.AddDaysIntended, Seerstone.AddDaysIntendedView |
