/** The concrete cases the repository's own tests check, stated as lemmas
    about the model: the epoch, a calendar value of February 2025 with and
    without nanoseconds, its text, parsing, and the unit adders on a fixed
    count. */
module Scenarios {
  import opened Machine
  import opened Errors
  import Calendar
  import opened Decimal
  import opened Seerstone

  /** The count of nanoseconds near 2023 that the adder cases start from. */
  const BaseCount: U64 := 1_700_000_000_000_000_000

  /** 2025-02-10 20:27:12.123 as a calendar value (`February10Fields`). */
  function February10(): (dt: Calendar.DateTime)
    ensures dt.ticks == 638_748_160_321_230_000
  {
    Calendar.DateTime(638_748_160_321_230_000)
  }

  /** The tick count of `February10` is what the platform constructor gives
      for those fields. */
  lemma {:induction false} February10Fields()
    ensures Calendar.NewDateTime(2025, 2, 10, 20, 27, 12, 123) == Ok(February10())
  {
    assert Calendar.ValidDate(Calendar.CivilDate(2025, 2, 10));
    assert Calendar.DayNumber(Calendar.CivilDate(2025, 2, 10)) == 739_291;
  }

  /** Midnight of 1970-01-01 (`EpochIsUnixEpoch`) is count zero and its view
      shows the epoch's ticks. */
  lemma {:induction false} EpochCase()
    ensures var x := FromDateTime(Epoch());
      && x.nanosecondsSinceEpoch == 0 && ToDateTimeUtc(x) == Epoch() && TotalTicks(x) == EpochTicks
  {
    ViewAt(DateTimeNano(0), EpochTicks, 0);
  }

  /** A calendar value with whole milliseconds becomes the expected count and
      comes back unchanged. */
  lemma {:induction false} FromDateTimeCase()
    ensures var x := FromDateTime(February10());
      && x.nanosecondsSinceEpoch == 1_739_219_232_123_000_000
      && ToDateTimeUtc(x) == February10() && Nanoseconds(x) == 0
  {
    ViewAt(DateTimeNano(1_739_219_232_123_000_000), 638_748_160_321_230_000, 0);
  }

  /** A count with nanoseconds: its view is the calendar value moved by 456
      microseconds, and 789 nanoseconds remain. */
  lemma {:induction false} NanosecondsCase(x: DateTimeNano)
    requires x.nanosecondsSinceEpoch == 1_739_219_232_123_456_789
    ensures Calendar.AddMicroseconds(February10(), 456).Ok?
    ensures ToDateTimeUtc(x) == Calendar.AddMicroseconds(February10(), 456).value
    ensures Nanoseconds(x) == 789 && SecondsFractionInNanoseconds(x) == 123_456_789
  {
    ViewAt(x, 638_748_160_321_234_560, 789);
  }

  /** The date of any instant within the second 2025-02-10 20:27:12. */
  lemma {:induction false} February10Date(dt: Calendar.DateTime)
    requires dt.ticks / 10_000_000 == 63_874_816_032
    ensures Calendar.DateOf(dt) == Calendar.CivilDate(2025, 2, 10)
  {
    assert Calendar.ValidDate(Calendar.CivilDate(2025, 2, 10));
    assert Calendar.DayNumber(Calendar.CivilDate(2025, 2, 10)) == 739_291;
    Calendar.DateOfDayNumber(dt, Calendar.CivilDate(2025, 2, 10));
  }

  /** Its time of day. */
  lemma {:induction false} February10Time(dt: Calendar.DateTime)
    requires dt.ticks / 10_000_000 == 63_874_816_032
    ensures Calendar.Hour(dt) == 20 && Calendar.Minute(dt) == 27 && Calendar.Second(dt) == 12
  {
  }

  /** Its text. */
  lemma {:induction false} February10Format(dt: Calendar.DateTime)
    requires Calendar.DateOf(dt) == Calendar.CivilDate(2025, 2, 10)
    requires Calendar.Hour(dt) == 20 && Calendar.Minute(dt) == 27 && Calendar.Second(dt) == 12
    ensures FormatDateTime(dt) == "2025-02-10 20:27:12"
  {
    February10Text(Calendar.Year(dt), Calendar.Month(dt), Calendar.Day(dt), Calendar.Hour(dt), Calendar.Minute(dt), Calendar.Second(dt));
  }

  lemma {:induction false} February10Text(year: nat, month: nat, day: nat, hour: nat, minute: nat, second: nat)
    requires year == 2025 && month == 2 && day == 10 && hour == 20 && minute == 27 && second == 12
    ensures ClockText(year, month, day, hour, minute, second) == "2025-02-10 20:27:12"
  {
    YearText(year);
    TwoText(month, "02"); TwoText(day, "10"); TwoText(hour, "20"); TwoText(minute, "27"); TwoText(second, "12");
    ClockTextOf(year, month, day, hour, minute, second, "2025", "02", "10", "20", "27", "12");
    ClockJoin("2025", "02", "10", "20", "27", "12");
  }

  lemma {:induction false} YearText(year: nat)
    requires year == 2025
    ensures PadDecimal(year, 4) == "2025"
  {
    PadFour(year);
    assert DigitChar(0) == '0' && DigitChar(2) == '2' && DigitChar(5) == '5';
  }

  lemma {:induction false} TwoText(v: nat, t: string)
    requires v < 100 && |t| == 2 && t[0] == DigitChar(v / 10) && t[1] == DigitChar(v % 10)
    ensures PadDecimal(v, 2) == t
  {
    PadTwo(v);
  }

  lemma {:induction false} ClockTextOf(year: nat, month: nat, day: nat, hour: nat, minute: nat, second: nat,
                                       ys: string, ms: string, ds: string, hs: string, mins: string, ss: string)
    requires PadDecimal(year, 4) == ys && PadDecimal(month, 2) == ms && PadDecimal(day, 2) == ds
    requires PadDecimal(hour, 2) == hs && PadDecimal(minute, 2) == mins && PadDecimal(second, 2) == ss
    ensures ClockText(year, month, day, hour, minute, second)
      == ys + ("-" + (ms + ("-" + (ds + (" " + (hs + (":" + (mins + (":" + ss)))))))))
  {
  }

  lemma {:induction false} ClockJoin(ys: string, ms: string, ds: string, hs: string, mins: string, ss: string)
    requires ys == "2025" && ms == "02" && ds == "10" && hs == "20" && mins == "27" && ss == "12"
    ensures ys + ("-" + (ms + ("-" + (ds + (" " + (hs + (":" + (mins + (":" + ss))))))))) == "2025-02-10 20:27:12"
  {
  }

  /** The text of the same count. */
  lemma {:induction false} ToStringCase(x: DateTimeNano)
    requires x.nanosecondsSinceEpoch == 1_739_219_232_123_456_789
    ensures ToString(x) == "2025-02-10 20:27:12.123456789"
  {
    ViewAt(x, 638_748_160_321_234_560, 789);
    ClockOfCount(x);
    FractionOfCount(x);
    ToStringOfParts(x, "2025-02-10 20:27:12", "123456789");
    JoinText("2025-02-10 20:27:12", "123456789");
  }

  /** `ToString` joins its two parts with a dot. */
  lemma {:induction false} ToStringOfParts(x: DateTimeNano, clock: string, fraction: string)
    requires FormatDateTime(ToDateTimeUtc(x)) == clock
    requires PadDecimal(SecondsFractionInNanoseconds(x), 9) == fraction
    ensures ToString(x) == clock + "." + fraction
  {
  }

  /** The date and time part of the text of any count within that second. */
  lemma {:induction false} ClockOfCount(x: DateTimeNano)
    requires TotalTicks(x) / 10_000_000 == 63_874_816_032
    ensures FormatDateTime(ToDateTimeUtc(x)) == "2025-02-10 20:27:12"
  {
    February10Date(ToDateTimeUtc(x));
    February10Time(ToDateTimeUtc(x));
    February10Format(ToDateTimeUtc(x));
  }

  /** The fraction part of that text. */
  lemma {:induction false} FractionOfCount(x: DateTimeNano)
    requires x.nanosecondsSinceEpoch == 1_739_219_232_123_456_789
    ensures PadDecimal(SecondsFractionInNanoseconds(x), 9) == "123456789"
  {
    NineDigits(SecondsFractionInNanoseconds(x));
  }

  lemma {:induction false} JoinText(clock: string, fraction: string)
    requires clock == "2025-02-10 20:27:12" && fraction == "123456789"
    ensures clock + "." + fraction == "2025-02-10 20:27:12.123456789"
  {
  }

  /** The fraction 123_456_789 as nine digits. */
  lemma {:induction false} NineDigits(v: nat)
    requires v == 123_456_789
    ensures PadDecimal(v, 9) == "123456789"
  {
    PadNine(v);
    PadFour(v / 10 / 10 / 10 / 10 / 10);
    NineDigitValues(v);
  }

  lemma {:induction false} NineDigitValues(v: nat)
    requires v == 123_456_789
    ensures var v1 := v / 10; var v2 := v1 / 10; var v3 := v2 / 10; var v4 := v3 / 10; var w := v4 / 10;
      var w1 := w / 10; var w2 := w1 / 10; var w3 := w2 / 10;
      [DigitChar(w3 % 10)] + [DigitChar(w2 % 10)] + [DigitChar(w1 % 10)] + [DigitChar(w % 10)]
        + [DigitChar(v4 % 10)] + [DigitChar(v3 % 10)] + [DigitChar(v2 % 10)] + [DigitChar(v1 % 10)] + [DigitChar(v % 10)]
      == "123456789"
  {
    var v1 := v / 10; var v2 := v1 / 10; var v3 := v2 / 10; var v4 := v3 / 10; var w := v4 / 10;
    assert v1 == 12_345_678 && v2 == 1_234_567 && v3 == 123_456 && v4 == 12_345 && w == 1234;
    assert w / 10 == 123 && w / 10 / 10 == 12 && w / 10 / 10 / 10 == 1;
    assert DigitChar(1) == '1' && DigitChar(2) == '2' && DigitChar(3) == '3' && DigitChar(4) == '4' && DigitChar(5) == '5';
    assert DigitChar(6) == '6' && DigitChar(7) == '7' && DigitChar(8) == '8' && DigitChar(9) == '9';
  }

  /** The text of the whole second 2025-02-10 20:27:12. */
  lemma {:induction false} ToStringWholeSecond(x: DateTimeNano)
    requires x.nanosecondsSinceEpoch == 1_739_219_232_000_000_000
    ensures ToString(x) == "2025-02-10 20:27:12.000000000"
  {
    ViewAt(x, 638_748_160_320_000_000, 0);
    ClockOfCount(x);
    ZeroFractionOfCount(x);
    ToStringOfParts(x, "2025-02-10 20:27:12", "000000000");
    ZeroJoin("2025-02-10 20:27:12", "000000000");
  }

  lemma {:induction false} ZeroFractionOfCount(x: DateTimeNano)
    requires x.nanosecondsSinceEpoch == 1_739_219_232_000_000_000
    ensures PadDecimal(SecondsFractionInNanoseconds(x), 9) == "000000000"
  {
    ZeroDigits(SecondsFractionInNanoseconds(x));
  }

  lemma {:induction false} ZeroJoin(clock: string, fraction: string)
    requires clock == "2025-02-10 20:27:12" && fraction == "000000000"
    ensures clock + "." + fraction == "2025-02-10 20:27:12.000000000"
  {
  }

  /** A zero fraction as nine zeros. */
  lemma {:induction false} ZeroDigits(v: nat)
    requires v == 0
    ensures PadDecimal(v, 9) == "000000000"
  {
    PadNine(v);
    PadFour(v / 10 / 10 / 10 / 10 / 10);
    ZeroDigitValues(v);
  }

  lemma {:induction false} ZeroDigitValues(v: nat)
    requires v == 0
    ensures var v1 := v / 10; var v2 := v1 / 10; var v3 := v2 / 10; var v4 := v3 / 10; var w := v4 / 10;
      var w1 := w / 10; var w2 := w1 / 10; var w3 := w2 / 10;
      [DigitChar(w3 % 10)] + [DigitChar(w2 % 10)] + [DigitChar(w1 % 10)] + [DigitChar(w % 10)]
        + [DigitChar(v4 % 10)] + [DigitChar(v3 % 10)] + [DigitChar(v2 % 10)] + [DigitChar(v1 % 10)] + [DigitChar(v % 10)]
      == "000000000"
  {
    assert DigitChar(0) == '0';
  }

  // ---------------------------------------------------------------- parsing

  /** The fields 2025-02-10 20:27:12 with any fraction are accepted. */
  lemma {:induction false} February10Accepted(p: Parts)
    requires p.year == 2025 && p.month == 2 && p.day == 10 && p.hour == 20 && p.minute == 27 && p.second == 12
    requires 0 <= p.millisecond < 1000 && 0 <= p.microsecond < 1000
    ensures Build(p).Ok?
  {
    February10Compose(p.millisecond);
    AcceptedParts(p.year, p.month, p.day, p.hour, p.minute, p.second, p.millisecond, p.microsecond, p.nanosecond);
  }

  /** Their instant falls after the epoch, and its count does not wrap. */
  lemma {:induction false} February10Bound(p: Parts)
    requires p.year == 2025 && p.month == 2 && p.day == 10 && p.hour == 20 && p.minute == 27 && p.second == 12
    requires 0 <= p.millisecond < 1000 && 0 <= p.microsecond < 1000 && 0 <= p.nanosecond < 1000
    ensures Calendar.ValidDate(Calendar.CivilDate(p.year, p.month, p.day))
    ensures var t := Calendar.Compose(Calendar.CivilDate(p.year, p.month, p.day), p.hour, p.minute, p.second, p.millisecond, 0)
                     + p.microsecond * Calendar.TicksPerMicrosecond;
      EpochTicks <= t && (t - EpochTicks) * 100 + p.nanosecond < TWO64
  {
    February10Compose(p.millisecond);
    February10Instant(Calendar.Compose(Calendar.CivilDate(p.year, p.month, p.day), p.hour, p.minute, p.second, p.millisecond, 0),
                      p.millisecond, p.microsecond, p.nanosecond);
  }

  lemma {:induction false} February10Instant(c: int, millisecond: int, microsecond: int, nanosecond: int)
    requires 0 <= millisecond < 1000 && 0 <= microsecond < 1000 && 0 <= nanosecond < 1000
    requires c == 638_748_160_320_000_000 + millisecond * 10_000
    ensures var t := c + microsecond * Calendar.TicksPerMicrosecond;
      EpochTicks <= t && (t - EpochTicks) * 100 + nanosecond < TWO64
  {
  }

  lemma {:induction false} AcceptedParts(year: I32, month: I32, day: I32, hour: I32, minute: I32, second: I32,
                                         millisecond: I32, microseconds: I32, nanoseconds: I32)
    requires Calendar.ValidDate(Calendar.CivilDate(year, month, day)) && Calendar.ValidTime(hour, minute, second, millisecond)
    requires 0 <= Calendar.Compose(Calendar.CivilDate(year, month, day), hour, minute, second, millisecond, 0)
                + microseconds * Calendar.TicksPerMicrosecond <= Calendar.MaxTicks
    ensures FromParts(year, month, day, hour, minute, second, millisecond, microseconds, nanoseconds).Ok?
  {
  }

  lemma {:induction false} February10Compose(millisecond: int)
    ensures Calendar.ValidDate(Calendar.CivilDate(2025, 2, 10))
    ensures Calendar.Compose(Calendar.CivilDate(2025, 2, 10), 20, 27, 12, millisecond, 0)
      == 638_748_160_320_000_000 + millisecond * 10_000
  {
    assert Calendar.ValidDate(Calendar.CivilDate(2025, 2, 10));
    assert Calendar.DayNumber(Calendar.CivilDate(2025, 2, 10)) == 739_291;
  }

  /** The digit groups of 2025-02-10 20:27:12 read as those numbers. */
  lemma {:induction false} February10Groups(g: DatePattern.Groups)
    requires g.year == "2025" && g.month == "02" && g.day == "10" && g.hour == "20" && g.minute == "27" && g.second == "12"
    ensures AllDigits(g.year) && AllDigits(g.month) && AllDigits(g.day)
    ensures AllDigits(g.hour) && AllDigits(g.minute) && AllDigits(g.second)
    ensures Value(g.year) == 2025 && Value(g.month) == 2 && Value(g.day) == 10
    ensures Value(g.hour) == 20 && Value(g.minute) == 27 && Value(g.second) == 12
  {
    FourValue(2025, g.year);
    TwoValue(2, g.month); TwoValue(10, g.day); TwoValue(20, g.hour); TwoValue(27, g.minute); TwoValue(12, g.second);
  }

  /** Two digits spelled from `v` read back as `v`. */
  lemma {:induction false} TwoValue(v: nat, t: string)
    requires v < 100 && |t| == 2 && t[0] == DigitChar(v / 10) && t[1] == DigitChar(v % 10)
    ensures AllDigits(t) && Value(t) == v
  {
    PadTwo(v);
  }

  /** Four digits spelled from `v` read back as `v`. */
  lemma {:induction false} FourValue(v: nat, t: string)
    requires v < 10000 && |t| == 4
    requires t[0] == DigitChar(v / 1000 % 10) && t[1] == DigitChar(v / 100 % 10)
    requires t[2] == DigitChar(v / 10 % 10) && t[3] == DigitChar(v % 10)
    ensures AllDigits(t) && Value(t) == v
  {
    PadFour(v);
    assert v / 10 / 10 == v / 100 && v / 10 / 10 / 10 == v / 1000;
    assert PadDecimal(v, 4) == t;
  }

  /** Text that spells 2025-02-10 20:27:12 and a fraction parses to the
      value that shows those fields and the fraction's three groups. */
  lemma {:induction false} ParsedFebruary10(text: string, g: DatePattern.Groups, p: Parts)
    requires p.year == 2025 && p.month == 2 && p.day == 10 && p.hour == 20 && p.minute == 27 && p.second == 12
    requires g.year == "2025" && g.month == "02" && g.day == "10" && g.hour == "20" && g.minute == "27" && g.second == "12"
    requires DatePattern.WellFormed(g) && DatePattern.Render(g) == text
    requires ParseFraction(g.millisecond) == p.millisecond && ParseFraction(g.microsecond) == p.microsecond
    requires ParseFraction(g.nanosecond) == p.nanosecond
    ensures Shows(Parse(text), p)
    ensures Parse(text).value.nanosecondsSinceEpoch
      == 1_739_219_232_000_000_000 + p.millisecond * 1_000_000 + p.microsecond * 1000 + p.nanosecond
  {
    February10Groups(g);
    ParseRender(g, p);
    February10View(p);
  }

  /** The value built from 2025-02-10 20:27:12 and a fraction shows them. */
  lemma {:induction false} February10View(p: Parts)
    requires p.year == 2025 && p.month == 2 && p.day == 10 && p.hour == 20 && p.minute == 27 && p.second == 12
    requires 0 <= p.millisecond < 1000 && 0 <= p.microsecond < 1000 && 0 <= p.nanosecond < 1000
    ensures Shows(Build(p), p)
    ensures Build(p).value.nanosecondsSinceEpoch
      == 1_739_219_232_000_000_000 + p.millisecond * 1_000_000 + p.microsecond * 1000 + p.nanosecond
  {
    February10Accepted(p);
    February10Bound(p);
    FromPartsView(p);
    CountOfFebruary10(Build(p), p);
  }

  /** Three digits of a fraction group read as their number. */
  lemma {:induction false} ThreeText(v: nat, t: string)
    requires v < 1000 && t == [DigitChar(v / 10 / 10), DigitChar(v / 10 % 10), DigitChar(v % 10)]
    ensures AllDigits(t) && ParseFraction(t) == v
  {
    ThreePadded(v);
    PaddedFraction(v, t);
  }

  lemma {:induction false} ThreePadded(v: nat)
    requires v < 1000
    ensures PadDecimal(v, 3) == [DigitChar(v / 10 / 10), DigitChar(v / 10 % 10), DigitChar(v % 10)]
  {
    PadStep(v, 3);
    PadTwo(v / 10);
    assert [DigitChar(v / 10 / 10), DigitChar(v / 10 % 10)] + [DigitChar(v % 10)]
      == [DigitChar(v / 10 / 10), DigitChar(v / 10 % 10), DigitChar(v % 10)];
  }

  lemma {:induction false} PaddedFraction(v: nat, t: string)
    requires v < 1000 && PadDecimal(v, 3) == t
    ensures AllDigits(t) && ParseFraction(t) == v
  {
    assert Pow10(3) == 1000;
  }

  /** An empty fraction group reads as zero. */
  lemma {:induction false} EmptyGroup(t: string)
    requires t == ""
    ensures AllDigits(t) && ParseFraction(t) == 0
  {
  }

  /** "2025-02-10 20:27:12.123456789" */
  lemma {:induction false} ParseNanoseconds(text: string)
    requires text == "2025-02-10 20:27:12.123456789"
    ensures Shows(Parse(text), Parts(2025, 2, 10, 20, 27, 12, 123, 456, 789))
    ensures Parse(text).value.nanosecondsSinceEpoch == 1_739_219_232_123_456_789
  {
    var g := NanosecondsGroups(text);
    ParsedFebruary10(text, g, Parts(2025, 2, 10, 20, 27, 12, 123, 456, 789));
  }

  /** The groups a match of "2025-02-10 20:27:12.123456789" holds. */
  lemma {:induction false} NanosecondsGroups(text: string) returns (g: DatePattern.Groups)
    requires text == "2025-02-10 20:27:12.123456789"
    ensures g.year == "2025" && g.month == "02" && g.day == "10" && g.hour == "20" && g.minute == "27" && g.second == "12"
    ensures DatePattern.WellFormed(g) && DatePattern.Render(g) == text
    ensures ParseFraction(g.millisecond) == 123 && ParseFraction(g.microsecond) == 456 && ParseFraction(g.nanosecond) == 789
  {
    g := DatePattern.Groups("2025", "02", "10", ' ', "20", "27", "12", 1, "123", "456", "789");
    NanosecondsRender(g, text);
    ThreeText(123, "123"); ThreeText(456, "456"); ThreeText(789, "789");
    February10Groups(g);
  }

  lemma {:induction false} NanosecondsRender(g: DatePattern.Groups, text: string)
    requires g == DatePattern.Groups("2025", "02", "10", ' ', "20", "27", "12", 1, "123", "456", "789")
    requires text == "2025-02-10 20:27:12.123456789"
    ensures DatePattern.Render(g) == text
  {
    assert Dots(1) == ".";
  }


  /** "2025-02-10 20:27:12.123456" */
  lemma {:induction false} ParseMicroseconds(text: string)
    requires text == "2025-02-10 20:27:12.123456"
    ensures Shows(Parse(text), Parts(2025, 2, 10, 20, 27, 12, 123, 456, 0))
    ensures Parse(text).value.nanosecondsSinceEpoch == 1_739_219_232_123_456_000
  {
    var g := MicrosecondsGroups(text);
    ParsedFebruary10(text, g, Parts(2025, 2, 10, 20, 27, 12, 123, 456, 0));
  }

  lemma {:induction false} MicrosecondsGroups(text: string) returns (g: DatePattern.Groups)
    requires text == "2025-02-10 20:27:12.123456"
    ensures g.year == "2025" && g.month == "02" && g.day == "10" && g.hour == "20" && g.minute == "27" && g.second == "12"
    ensures DatePattern.WellFormed(g) && DatePattern.Render(g) == text
    ensures ParseFraction(g.millisecond) == 123 && ParseFraction(g.microsecond) == 456 && ParseFraction(g.nanosecond) == 0
  {
    g := DatePattern.Groups("2025", "02", "10", ' ', "20", "27", "12", 1, "123", "456", "");
    MicrosecondsRender(g, text);
    ThreeText(123, "123"); ThreeText(456, "456"); EmptyGroup("");
    February10Groups(g);
  }

  lemma {:induction false} MicrosecondsRender(g: DatePattern.Groups, text: string)
    requires g == DatePattern.Groups("2025", "02", "10", ' ', "20", "27", "12", 1, "123", "456", "")
    requires text == "2025-02-10 20:27:12.123456"
    ensures DatePattern.Render(g) == text
  {
    assert Dots(1) == ".";
  }

  /** "2025-02-10 20:27:12.123" */
  lemma {:induction false} ParseMilliseconds(text: string)
    requires text == "2025-02-10 20:27:12.123"
    ensures Shows(Parse(text), Parts(2025, 2, 10, 20, 27, 12, 123, 0, 0))
    ensures Parse(text).value.nanosecondsSinceEpoch == 1_739_219_232_123_000_000
  {
    var g := MillisecondsGroups(text);
    ParsedFebruary10(text, g, Parts(2025, 2, 10, 20, 27, 12, 123, 0, 0));
  }

  lemma {:induction false} MillisecondsGroups(text: string) returns (g: DatePattern.Groups)
    requires text == "2025-02-10 20:27:12.123"
    ensures g.year == "2025" && g.month == "02" && g.day == "10" && g.hour == "20" && g.minute == "27" && g.second == "12"
    ensures DatePattern.WellFormed(g) && DatePattern.Render(g) == text
    ensures ParseFraction(g.millisecond) == 123 && ParseFraction(g.microsecond) == 0 && ParseFraction(g.nanosecond) == 0
  {
    g := DatePattern.Groups("2025", "02", "10", ' ', "20", "27", "12", 1, "123", "", "");
    MillisecondsRender(g, text);
    ThreeText(123, "123"); EmptyGroup("");
    February10Groups(g);
  }

  lemma {:induction false} MillisecondsRender(g: DatePattern.Groups, text: string)
    requires g == DatePattern.Groups("2025", "02", "10", ' ', "20", "27", "12", 1, "123", "", "")
    requires text == "2025-02-10 20:27:12.123"
    ensures DatePattern.Render(g) == text
  {
    assert Dots(1) == ".";
  }

  /** "2025-02-10 20:27:12" */
  lemma {:induction false} ParseWholeSecond(text: string)
    requires text == "2025-02-10 20:27:12"
    ensures Shows(Parse(text), Parts(2025, 2, 10, 20, 27, 12, 0, 0, 0))
    ensures Parse(text).value.nanosecondsSinceEpoch == 1_739_219_232_000_000_000
  {
    var g := WholeSecondGroups(text);
    ParsedFebruary10(text, g, Parts(2025, 2, 10, 20, 27, 12, 0, 0, 0));
  }

  lemma {:induction false} WholeSecondGroups(text: string) returns (g: DatePattern.Groups)
    requires text == "2025-02-10 20:27:12"
    ensures g.year == "2025" && g.month == "02" && g.day == "10" && g.hour == "20" && g.minute == "27" && g.second == "12"
    ensures DatePattern.WellFormed(g) && DatePattern.Render(g) == text
    ensures ParseFraction(g.millisecond) == 0 && ParseFraction(g.microsecond) == 0 && ParseFraction(g.nanosecond) == 0
  {
    g := DatePattern.Groups("2025", "02", "10", ' ', "20", "27", "12", 0, "", "", "");
    WholeSecondRender(g, text);
    EmptyGroup("");
    February10Groups(g);
  }

  lemma {:induction false} WholeSecondRender(g: DatePattern.Groups, text: string)
    requires g == DatePattern.Groups("2025", "02", "10", ' ', "20", "27", "12", 0, "", "", "")
    requires text == "2025-02-10 20:27:12"
    ensures DatePattern.Render(g) == text
  {
    assert Dots(0) == "";
  }

  // ---------------------------------------------------------------- adding nanoseconds

  /** A value that shows 2025-02-10 20:27:12 with a fraction has the count
      those fields give. */
  lemma {:induction false} CountOfFebruary10(r: Result<DateTimeNano>, p: Parts)
    requires p.year == 2025 && p.month == 2 && p.day == 10 && p.hour == 20 && p.minute == 27 && p.second == 12
    requires 0 <= p.millisecond < 1000 && 0 <= p.microsecond < 1000
    requires Shows(r, p)
    ensures r.Ok?
    ensures r.value.nanosecondsSinceEpoch
      == 1_739_219_232_000_000_000 + p.millisecond * 1_000_000 + p.microsecond * 1000 + p.nanosecond
  {
    ShownTicks(r, p);
    February10Compose(p.millisecond);
    February10Count(r.value, p.millisecond, p.microsecond, p.nanosecond);
  }

  lemma {:induction false} February10Count(x: DateTimeNano, millisecond: int, microsecond: int, nanosecond: int)
    requires TotalTicks(x) == 638_748_160_320_000_000 + millisecond * 10_000 + microsecond * 10
    requires Nanoseconds(x) == nanosecond
    ensures x.nanosecondsSinceEpoch == 1_739_219_232_000_000_000 + millisecond * 1_000_000 + microsecond * 1000 + nanosecond
  {
    CountAt(x, TotalTicks(x), nanosecond);
  }

  /** Text with a whole second, plus 123_456_789 nanoseconds, prints with
      that fraction. */
  lemma {:induction false} AddToWholeSecond(text: string)
    requires text == "2025-02-10 20:27:12"
    ensures Parse(text).Ok?
    ensures ToString(AddNanoseconds(Parse(text).value, 123_456_789)) == "2025-02-10 20:27:12.123456789"
  {
    ParseWholeSecond(text);
    AddFraction(Parse(text).value);
  }

  lemma {:induction false} AddFraction(x: DateTimeNano)
    requires x.nanosecondsSinceEpoch == 1_739_219_232_000_000_000
    ensures ToString(AddNanoseconds(x, 123_456_789)) == "2025-02-10 20:27:12.123456789"
  {
    ToStringCase(AddNanoseconds(x, 123_456_789));
  }

  /** Text with nanoseconds, less 123_456_789 nanoseconds, prints a zero
      fraction. */
  lemma {:induction false} SubtractToWholeSecond(text: string)
    requires text == "2025-02-10 20:27:12.123456789"
    ensures Parse(text).Ok?
    ensures ToString(AddNanoseconds(Parse(text).value, -123_456_789)) == "2025-02-10 20:27:12.000000000"
  {
    ParseNanoseconds(text);
    SubtractFraction(Parse(text).value);
  }

  lemma {:induction false} SubtractFraction(x: DateTimeNano)
    requires x.nanosecondsSinceEpoch == 1_739_219_232_123_456_789
    ensures ToString(AddNanoseconds(x, -123_456_789)) == "2025-02-10 20:27:12.000000000"
  {
    ToStringWholeSecond(AddNanoseconds(x, -123_456_789));
  }

  // ---------------------------------------------------------------- adders on a fixed count

  /** Each unit adder moves `BaseCount` by the amount in nanoseconds. */
  lemma {:induction false} BaseAdders(x: DateTimeNano)
    requires x.nanosecondsSinceEpoch == BaseCount
    ensures ToUnixNanoseconds(AddNanoseconds(x, 500)) == BaseCount + 500
    ensures ToUnixNanoseconds(AddMicroseconds(x, 1000)) == BaseCount + 1_000_000
    ensures ToUnixNanoseconds(AddMilliseconds(x, 2)) == BaseCount + 2_000_000
    ensures ToUnixNanoseconds(AddSeconds(x, 3)) == BaseCount + 3_000_000_000
    ensures ToUnixNanoseconds(AddMinutes(x, 4)) == BaseCount + 240_000_000_000
    ensures ToUnixNanoseconds(AddHours(x, 5)) == BaseCount + 18_000_000_000_000
  {
  }

  /** One day added to `BaseCount` moves it by the wrapped `int` product, as
      the unchecked expectation computes it, not by a day. */
  lemma {:induction false} BaseAddDays(x: DateTimeNano)
    requires x.nanosecondsSinceEpoch == BaseCount
    ensures ToUnixNanoseconds(AddDays(x, 1)) == ToU64(BaseCount + ToI32(1 * 24 * 60 * 60 * 1_000_000_000))
    ensures ToUnixNanoseconds(AddDays(x, 1)) == 1_699_999_998_142_906_368
    ensures ToUnixNanoseconds(AddDaysIntended(x, 1)) == 1_700_086_400_000_000_000
  {
    AddDaysOneDay(x);
  }

  /** The calendar date of `BaseCount`: 2023-11-14, 22:13:20 into the day. */
  lemma {:induction false} BaseDate(dt: Calendar.DateTime)
    requires dt.ticks == 638_355_968_000_000_000
    ensures Calendar.DateOf(dt) == Calendar.CivilDate(2023, 11, 14)
  {
    assert Calendar.ValidDate(Calendar.CivilDate(2023, 11, 14));
    assert Calendar.DayNumber(Calendar.CivilDate(2023, 11, 14)) == 738_837;
    Calendar.DateOfDayNumber(dt, Calendar.CivilDate(2023, 11, 14));
  }

  /** Two months after `BaseCount` is the calendar view moved by two months,
      2024-01-14 at the same time. */
  lemma {:induction false} BaseAddMonths(x: DateTimeNano, months: I32)
    requires x.nanosecondsSinceEpoch == BaseCount && months == 2
    ensures AddMonths(x, months).Ok? && Calendar.AddMonths(ToDateTimeUtc(x), months).Ok?
    ensures ToDateTimeUtc(AddMonths(x, months).value) == Calendar.AddMonths(ToDateTimeUtc(x), months).value
    ensures AddMonths(x, months).value.nanosecondsSinceEpoch == 1_705_270_400_000_000_000
  {
    ViewAt(x, 638_355_968_000_000_000, 0);
    BaseCalendarMove(ToDateTimeUtc(x));
    MovedBase(x, months, Calendar.DateTime(638_408_672_000_000_000));
  }

  /** The value `AddMonths` builds once the calendar move of the view is known. */
  lemma {:induction false} MovedBase(x: DateTimeNano, months: I32, moved: Calendar.DateTime)
    requires Calendar.AddMonths(ToDateTimeUtc(x), months) == Ok(moved)
    requires moved.ticks == 638_408_672_000_000_000 && Nanoseconds(x) == 0
    ensures AddMonths(x, months).Ok?
    ensures ToDateTimeUtc(AddMonths(x, months).value) == moved
    ensures AddMonths(x, months).value.nanosecondsSinceEpoch == 1_705_270_400_000_000_000
  {
    var r := AddMonths(x, months).value;
    AddMonthsView(x, months, moved, r);
    CountAt(r, moved.ticks, 0);
  }

  /** The calendar move of the view of `BaseCount` by two months. */
  lemma {:induction false} BaseCalendarMove(dt: Calendar.DateTime)
    requires dt.ticks == 638_355_968_000_000_000
    ensures Calendar.AddMonths(dt, 2) == Ok(Calendar.DateTime(638_408_672_000_000_000))
  {
    BaseMovedDate(dt);
    BaseMovedTicks(dt, Calendar.CivilDate(2024, 1, 14));
  }

  /** The view of `BaseCount` moves to 14 January 2024. */
  lemma {:induction false} BaseMovedDate(dt: Calendar.DateTime)
    requires dt.ticks == 638_355_968_000_000_000
    ensures Calendar.MovedDate(Calendar.DateOf(dt), 2) == Calendar.CivilDate(2024, 1, 14)
    ensures Calendar.MonthIndex(Calendar.DateOf(dt)) + 2 == 2024 * 12
    ensures dt.ticks % Calendar.TicksPerDay == 800_000_000_000
  {
    BaseDate(dt);
    BaseTimeOfDay(dt.ticks);
    November14(Calendar.DateOf(dt), 2, Calendar.CivilDate(2024, 1, 14));
  }

  /** The ticks the move arrives at, once the date is known. */
  lemma {:induction false} BaseMovedTicks(dt: Calendar.DateTime, moved: Calendar.CivilDate)
    requires moved == Calendar.CivilDate(2024, 1, 14) && Calendar.MovedDate(Calendar.DateOf(dt), 2) == moved
    requires Calendar.MonthIndex(Calendar.DateOf(dt)) + 2 == 2024 * 12
    requires dt.ticks % Calendar.TicksPerDay == 800_000_000_000
    ensures Calendar.AddMonths(dt, 2) == Ok(Calendar.DateTime(638_408_672_000_000_000))
  {
    January14(moved, dt.ticks % Calendar.TicksPerDay, 638_408_672_000_000_000);
    Calendar.AddMonthsOk(dt, 2, moved, 638_408_672_000_000_000);
  }

  lemma {:induction false} BaseTimeOfDay(t: int)
    requires t == 638_355_968_000_000_000
    ensures t % Calendar.TicksPerDay == 800_000_000_000
  {
  }

  /** The count of a value whose calendar view and remainder are known. */
  lemma {:induction false} CountAt(r: DateTimeNano, ticks: int, ns: int)
    requires TotalTicks(r) == ticks && Nanoseconds(r) == ns
    ensures r.nanosecondsSinceEpoch == (ticks - EpochTicks) * 100 + ns
  {
  }

  /** Two months after 14 November 2023 is 14 January 2024. */
  lemma {:induction false} November14(date: Calendar.CivilDate, months: int, moved: Calendar.CivilDate)
    requires date == Calendar.CivilDate(2023, 11, 14) && months == 2
    requires moved == Calendar.CivilDate(2024, 1, 14)
    ensures Calendar.MonthIndex(date) + months == 2024 * 12
    ensures Calendar.MovedDate(date, months) == moved
  {
    assert Calendar.DaysInMonth(2024, 1) == 31;
  }

  /** The tick count of a time of day on 14 January 2024. */
  lemma {:induction false} January14(date: Calendar.CivilDate, tod: int, ticks: int)
    requires date == Calendar.CivilDate(2024, 1, 14)
    requires tod == 800_000_000_000 && ticks == 638_408_672_000_000_000
    ensures Calendar.ValidDate(date) && ticks == Calendar.DayNumber(date) * Calendar.TicksPerDay + tod
  {
    assert Calendar.DayNumber(date) == 738_898;
  }

}
