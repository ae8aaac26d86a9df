/** The pattern `Parse` matches its input against: year, month and day as
    digit runs joined by `-`, one non-digit, hour, minute and second as
    digit runs joined by `:`, any number of dots, and then three fraction
    groups of at most three digits each (DateTimeNano/DateTimeNano.cs:73),
    as an anchored scanner over ASCII digits: the whole text must match.
    Every digit-run group is followed by a non-digit or by the end, so the
    leftmost-greedy match takes the longest digit run there; the three
    fraction groups take up to three digits each, left to right. */
module DatePattern {
  import opened Decimal
  import opened Errors

  /** The captured groups, the separator matched by `\D`, and the number of
      dots matched by `\.*`. */
  datatype Groups = Groups(
    year: string, month: string, day: string, sep: char,
    hour: string, minute: string, second: string, dots: nat,
    millisecond: string, microsecond: string, nanosecond: string)

  /** Groups that a match can produce: the six `\d+` groups are non-empty
      digit runs, the separator is not a digit, the fraction groups hold at
      most three digits and fill from the left, and fraction digits need a
      dot before them (otherwise `second` would have taken them). */
  predicate WellFormed(g: Groups) {
    && AllDigits(g.year) && AllDigits(g.month) && AllDigits(g.day)
    && AllDigits(g.hour) && AllDigits(g.minute) && AllDigits(g.second)
    && g.year != [] && g.month != [] && g.day != [] && g.hour != [] && g.minute != [] && g.second != []
    && !IsDigit(g.sep)
    && AllDigits(g.millisecond) && AllDigits(g.microsecond) && AllDigits(g.nanosecond)
    && |g.millisecond| <= 3 && |g.microsecond| <= 3 && |g.nanosecond| <= 3
    && (g.microsecond != [] ==> |g.millisecond| == 3)
    && (g.nanosecond != [] ==> |g.microsecond| == 3)
    && (g.dots == 0 ==> g.millisecond == [])
  }

  /** The text a match spells out. */
  function Render(g: Groups): string {
    g.year + ("-" + (g.month + ("-" + (g.day + ([g.sep] + (g.hour + (":" + (g.minute + (":" + (g.second
      + (Dots(g.dots) + (g.millisecond + (g.microsecond + g.nanosecond)))))))))))))
  }

  function Min(a: int, b: int): int {
    if a <= b then a else b
  }

  /** Splits up to nine fraction digits into three groups of up to three. */
  function FractionGroups(f: string): (r: (string, string, string))
    requires |f| <= 9
    ensures r.0 + (r.1 + r.2) == f
  {
    var a := Min(3, |f|);
    var b := Min(6, |f|);
    assert f == f[..a] + (f[a..b] + f[b..]);
    (f[..a], f[a..b], f[b..])
  }

  /** A non-empty digit run and the character after it, which is thus not a digit. */
  function Field(s: string): (r: Option<(string, char, string)>)
    ensures r.Some? ==> var (d, c, rest) := r.value;
      AllDigits(d) && d != [] && !IsDigit(c) && s == d + ([c] + rest)
  {
    var (d, rest) := SplitDigits(s);
    if d == [] || rest == [] then None
    else
      assert rest == [rest[0]] + rest[1..];
      Some((d, rest[0], rest[1..]))
  }

  lemma {:induction false} FieldAt(d: string, c: char, rest: string)
    requires AllDigits(d) && d != [] && !IsDigit(c)
    ensures Field(d + ([c] + rest)) == Some((d, c, rest))
  {
    SplitDigitsAt(d, [c] + rest);
    assert ([c] + rest)[1..] == rest;
  }

  /** The seconds group, the dots and the fraction digits that end the text. */
  function Tail(s: string): (r: Option<(string, nat, string)>)
    ensures r.Some? ==> var (second, dots, fraction) := r.value;
      && AllDigits(second) && second != [] && AllDigits(fraction) && |fraction| <= 9
      && (dots == 0 ==> fraction == [])
      && s == second + (Dots(dots) + fraction)
  {
    var (second, r6) := SplitDigits(s);
    var (dots, r7) := SplitDots(r6);
    var (fraction, r8) := SplitDigits(r7);
    if second == [] || r8 != [] || |fraction| > 9 then None
    else
      assert r7 == fraction;
      assert dots == 0 ==> fraction == [];
      Some((second, dots, fraction))
  }

  lemma {:induction false} TailAt(second: string, dots: nat, fraction: string)
    requires AllDigits(second) && second != [] && AllDigits(fraction) && |fraction| <= 9
    requires dots == 0 ==> fraction == []
    ensures Tail(second + (Dots(dots) + fraction)) == Some((second, dots, fraction))
  {
    var r6 := Dots(dots) + fraction;
    if dots == 0 {
      assert r6 == [];
    } else {
      assert r6[0] == '.';
    }
    SplitDigitsAt(second, r6);
    assert fraction == [] || fraction[0] != '.';
    SplitDotsAt(dots, fraction);
    assert fraction + [] == fraction;
    SplitDigitsAt(fraction, []);
  }

  /** The greedy split of fraction digits gives back groups that fill from the left. */
  lemma {:induction false} FractionGroupsAt(ms: string, us: string, ns: string)
    requires |ms| <= 3 && |us| <= 3 && |ns| <= 3
    requires us != [] ==> |ms| == 3
    requires ns != [] ==> |us| == 3
    ensures FractionGroups(ms + (us + ns)) == (ms, us, ns)
  {
    var f := ms + (us + ns);
    if us == [] {
      assert ns == [];
      assert f == ms;
    } else {
      assert |f| >= 6 ==> Min(6, |f|) == 6;
      assert f[..3] == ms;
      assert f[3..Min(6, |f|)] == us;
      assert f[Min(6, |f|)..] == ns;
    }
  }

  /** The match of the pattern against the whole of `s`, if there is one. */
  function Match(s: string): (r: Option<Groups>)
    ensures r.Some? ==> WellFormed(r.value) && Render(r.value) == s
  {
    var f1 := Field(s);
    if f1.None? || f1.value.1 != '-' then None else
    var (year, _, r1) := f1.value;
    var f2 := Field(r1);
    if f2.None? || f2.value.1 != '-' then None else
    var (month, _, r2) := f2.value;
    var f3 := Field(r2);
    if f3.None? then None else
    var (day, sep, r3) := f3.value;
    var m := MatchTime(year, month, day, sep, r3);
    assert m.Some? ==> Render(m.value) == s;
    m
  }

  /** The rest of the match once the date groups and the separator are
      taken: `rest` must spell the time groups and the fraction. */
  function MatchTime(year: string, month: string, day: string, sep: char, rest: string): (r: Option<Groups>)
    ensures r.Some? ==> var g := r.value;
      && g.year == year && g.month == month && g.day == day && g.sep == sep
      && AllDigits(g.hour) && AllDigits(g.minute) && AllDigits(g.second)
      && g.hour != [] && g.minute != [] && g.second != []
      && AllDigits(g.millisecond) && AllDigits(g.microsecond) && AllDigits(g.nanosecond)
      && |g.millisecond| <= 3 && |g.microsecond| <= 3 && |g.nanosecond| <= 3
      && (g.microsecond != [] ==> |g.millisecond| == 3)
      && (g.nanosecond != [] ==> |g.microsecond| == 3)
      && (g.dots == 0 ==> g.millisecond == [])
      && rest == g.hour + (":" + (g.minute + (":" + (g.second
           + (Dots(g.dots) + (g.millisecond + (g.microsecond + g.nanosecond)))))))
  {
    var f4 := Field(rest);
    if f4.None? || f4.value.1 != ':' then None else
    var (hour, _, r4) := f4.value;
    var f5 := Field(r4);
    if f5.None? || f5.value.1 != ':' then None else
    var (minute, _, r5) := f5.value;
    var t := Tail(r5);
    if t.None? then None else
    var (second, dots, fraction) := t.value;
    FractionGroupsShape(fraction);
    var (ms, us, ns) := FractionGroups(fraction);
    Some(Groups(year, month, day, sep, hour, minute, second, dots, ms, us, ns))
  }

  /** The fraction groups hold up to three digits each and fill from the left. */
  lemma {:induction false} FractionGroupsShape(f: string)
    requires AllDigits(f) && |f| <= 9
    ensures var (ms, us, ns) := FractionGroups(f);
      && AllDigits(ms) && AllDigits(us) && AllDigits(ns)
      && |ms| <= 3 && |us| <= 3 && |ns| <= 3
      && (us != [] ==> |ms| == 3) && (ns != [] ==> |us| == 3) && (f == [] ==> ms == [])
  {
  }

  /** Every well-formed set of groups is matched back from the text it spells. */
  lemma {:induction false} MatchRender(g: Groups)
    requires WellFormed(g)
    ensures Match(Render(g)) == Some(g)
  {
    var r3 := g.hour + (":" + (g.minute + (":" + (g.second
      + (Dots(g.dots) + (g.millisecond + (g.microsecond + g.nanosecond)))))));
    var r2 := g.day + ([g.sep] + r3);
    var r1 := g.month + ("-" + r2);
    assert Render(g) == g.year + ("-" + r1);
    FieldAt(g.year, '-', r1);
    FieldAt(g.month, '-', r2);
    FieldAt(g.day, g.sep, r3);
    MatchTimeRender(g, r3);
  }

  /** The time groups of well-formed groups are matched back from their text. */
  lemma {:induction false} MatchTimeRender(g: Groups, rest: string)
    requires WellFormed(g)
    requires rest == g.hour + (":" + (g.minute + (":" + (g.second
      + (Dots(g.dots) + (g.millisecond + (g.microsecond + g.nanosecond)))))))
    ensures MatchTime(g.year, g.month, g.day, g.sep, rest) == Some(g)
  {
    var fraction := g.millisecond + (g.microsecond + g.nanosecond);
    var r5 := g.second + (Dots(g.dots) + fraction);
    var r4 := g.minute + (":" + r5);
    FieldAt(g.hour, ':', r4);
    FieldAt(g.minute, ':', r5);
    assert AllDigits(fraction);
    TailAt(g.second, g.dots, fraction);
    FractionGroupsAt(g.millisecond, g.microsecond, g.nanosecond);
  }

  /** A match exists exactly for the texts that spell well-formed groups,
      and it recovers them. */
  lemma {:induction false} MatchIff(s: string, g: Groups)
    ensures Match(s) == Some(g) <==> WellFormed(g) && Render(g) == s
  {
    if WellFormed(g) && Render(g) == s {
      MatchRender(g);
    }
  }
}
