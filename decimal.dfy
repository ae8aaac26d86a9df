/** Decimal digit text: the ASCII digit class of the parse pattern, the
    value `int.Parse` gives a digit run, and the zero-padded fields of the
    `yyyy`, `MM`, ... and `D9` formats. */
module Decimal {

  predicate IsDigit(c: char) {
    '0' <= c <= '9'
  }

  predicate AllDigits(s: string) {
    forall i :: 0 <= i < |s| ==> IsDigit(s[i])
  }

  function Pow10(k: nat): (r: nat)
    ensures r >= 1
  {
    if k == 0 then 1 else 10 * Pow10(k - 1)
  }

  function DigitChar(d: nat): (c: char)
    requires d < 10
    ensures IsDigit(c) && c as int - '0' as int == d
  {
    ('0' as int + d) as char
  }

  /** The number a run of decimal digits denotes, most significant first. */
  function Value(s: string): (v: nat)
    requires AllDigits(s)
    ensures v < Pow10(|s|)
  {
    if s == [] then 0 else Value(s[..|s| - 1]) * 10 + (s[|s| - 1] as int - '0' as int)
  }

  /** `v` in decimal, left-padded with zeros to at least `width` digits (the
      custom format fields `yyyy`, `MM`, `dd`, `HH`, `mm`, `ss` and the
      standard format `D9`). */
  function PadDecimal(v: nat, width: nat): (s: string)
    ensures AllDigits(s) && |s| >= width && Value(s) == v
    ensures v < Pow10(width) ==> |s| == width
    decreases v + width
  {
    if v == 0 && width == 0 then ""
    else
      var s := PadDecimal(v / 10, if width > 0 then width - 1 else 0) + [DigitChar(v % 10)];
      assert s[..|s| - 1] == PadDecimal(v / 10, if width > 0 then width - 1 else 0);
      s
  }

  /** Two-digit padding spelled out digit by digit. */
  lemma {:induction false} PadTwo(v: nat)
    requires v < 100
    ensures PadDecimal(v, 2) == [DigitChar(v / 10), DigitChar(v % 10)]
  {
    assert PadDecimal(v / 100, 0) == "";
  }

  /** Four-digit padding spelled out digit by digit. */
  lemma {:induction false} PadFour(v: nat)
    requires v < 10000
    ensures var v1 := v / 10; var v2 := v1 / 10; var v3 := v2 / 10;
      PadDecimal(v, 4) == [DigitChar(v3 % 10)] + [DigitChar(v2 % 10)] + [DigitChar(v1 % 10)] + [DigitChar(v % 10)]
  {
    var v1 := v / 10; var v2 := v1 / 10; var v3 := v2 / 10;
    assert v1 < 1000 && v2 < 100 && v3 < 10;
    PadStep(v, 4); PadStep(v1, 3); PadStep(v2, 2); PadStep(v3, 1);
    assert PadDecimal(v3 / 10, 0) == "";
    assert PadDecimal(v3, 1) == [DigitChar(v3 % 10)];
  }

  /** Nine-digit padding: the padding of the leading four digits, then the
      last five digits one by one. */
  lemma {:induction false} PadNine(v: nat)
    ensures var v1 := v / 10; var v2 := v1 / 10; var v3 := v2 / 10; var v4 := v3 / 10;
      PadDecimal(v, 9) == PadDecimal(v4 / 10, 4)
        + [DigitChar(v4 % 10)] + [DigitChar(v3 % 10)] + [DigitChar(v2 % 10)] + [DigitChar(v1 % 10)] + [DigitChar(v % 10)]
  {
    var v1 := v / 10; var v2 := v1 / 10; var v3 := v2 / 10; var v4 := v3 / 10;
    PadStep(v, 9); PadStep(v1, 8); PadStep(v2, 7); PadStep(v3, 6); PadStep(v4, 5);
  }

  /** One step of padding: the last digit, after the padding of the rest. */
  lemma {:induction false} PadStep(v: nat, width: nat)
    requires width > 0
    ensures PadDecimal(v, width) == PadDecimal(v / 10, width - 1) + [DigitChar(v % 10)]
  {
  }

  /** Reading a concatenation: the left part is shifted by the right part's length. */
  lemma {:induction false} ValueConcat(a: string, b: string)
    requires AllDigits(a) && AllDigits(b)
    ensures AllDigits(a + b)
    ensures Value(a + b) == Value(a) * Pow10(|b|) + Value(b)
  {
    if b == [] {
      assert a + b == a;
    } else {
      var b' := b[..|b| - 1];
      var d := b[|b| - 1] as int - '0' as int;
      assert (a + b)[..|a + b| - 1] == a + b';
      assert (a + b)[|a + b| - 1] == b[|b| - 1];
      ValueConcat(a, b');
      var va, vb, p := Value(a), Value(b'), Pow10(|b'|);
      var w := Value(a + b');
      assert Value(a + b) == w * 10 + d;
      assert Value(b) == vb * 10 + d;
      assert Pow10(|b|) == p * 10;
      assert w == va * p + vb;
      MulAssoc(va, p, 10);
    }
  }

  lemma {:induction false} MulAssoc(x: int, y: int, z: int)
    ensures (x * y) * z == x * (y * z)
  {
  }

  /** A nine-digit run read as three groups of three. */
  lemma {:induction false} ValueOfThreeGroups(s: string)
    requires AllDigits(s) && |s| == 9
    ensures AllDigits(s[..3]) && AllDigits(s[3..6]) && AllDigits(s[6..])
    ensures Value(s[..3]) == Value(s) / 1_000_000
    ensures Value(s[3..6]) == Value(s) / 1000 % 1000
    ensures Value(s[6..]) == Value(s) % 1000
  {
    var a, b, c := s[..3], s[3..6], s[6..];
    assert s == a + b + c;
    ValueConcat(a, b);
    ValueConcat(a + b, c);
    assert Pow10(1) == 10 && Pow10(2) == 100 && Pow10(3) == 1000;
    var va, vb, vc := Value(a), Value(b), Value(c);
    assert Value(s) == (va * 1000 + vb) * 1000 + vc;
    GroupsOfThree(Value(s), va, vb, vc);
  }

  lemma {:induction false} GroupsOfThree(v: int, a: int, b: int, c: int)
    requires 0 <= a < 1000 && 0 <= b < 1000 && 0 <= c < 1000
    requires v == (a * 1000 + b) * 1000 + c
    ensures v / 1_000_000 == a && v / 1000 % 1000 == b && v % 1000 == c
  {
    assert v / 1000 == a * 1000 + b;
  }

  /** The longest prefix of digits and what follows it. */
  function SplitDigits(s: string): (r: (string, string))
    ensures r.0 + r.1 == s && AllDigits(r.0)
    ensures r.1 == [] || !IsDigit(r.1[0])
  {
    if s == [] || !IsDigit(s[0]) then ([], s)
    else
      var (a, b) := SplitDigits(s[1..]);
      PrependDigit(s, a, b);
      ([s[0]] + a, b)
  }

  lemma {:induction false} PrependDigit(s: string, a: string, b: string)
    requires s != [] && IsDigit(s[0]) && a + b == s[1..] && AllDigits(a)
    ensures [s[0]] + a + b == s && AllDigits([s[0]] + a)
  {
    assert s == [s[0]] + s[1..];
  }

  /** A digit run followed by the end or a non-digit splits exactly there. */
  lemma {:induction false} SplitDigitsAt(a: string, b: string)
    requires AllDigits(a) && (b == [] || !IsDigit(b[0]))
    ensures SplitDigits(a + b) == (a, b)
  {
    if a == [] {
      assert a + b == b;
    } else {
      assert (a + b)[0] == a[0];
      assert (a + b)[1..] == a[1..] + b;
      SplitDigitsAt(a[1..], b);
      assert [a[0]] + a[1..] == a;
    }
  }

  /** `k` dots. */
  function Dots(k: nat): (s: string)
    ensures |s| == k && forall i :: 0 <= i < k ==> s[i] == '.'
  {
    if k == 0 then "" else "." + Dots(k - 1)
  }

  /** The number of leading dots and what follows them. */
  function SplitDots(s: string): (r: (nat, string))
    ensures Dots(r.0) + r.1 == s
    ensures r.1 == [] || r.1[0] != '.'
  {
    if s == [] || s[0] != '.' then (0, s)
    else
      var (k, b) := SplitDots(s[1..]);
      (k + 1, b)
  }

  lemma {:induction false} SplitDotsAt(k: nat, b: string)
    requires b == [] || b[0] != '.'
    ensures SplitDots(Dots(k) + b) == (k, b)
  {
    if k == 0 {
      assert Dots(k) + b == b;
    } else {
      assert (Dots(k) + b)[0] == '.';
      assert (Dots(k) + b)[1..] == Dots(k - 1) + b;
      SplitDotsAt(k - 1, b);
    }
  }
}
