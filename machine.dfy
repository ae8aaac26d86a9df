/** Fixed-width integers of C#, and the unchecked conversions and truncating
    division that the struct and the platform calendar rely on.  Dafny's `int`
    is unbounded, so every wrap-around is written out here. */
module Machine {

  const TWO31: int := 0x8000_0000
  const TWO32: int := 0x1_0000_0000
  const TWO63: int := 0x8000_0000_0000_0000
  const TWO64: int := 0x1_0000_0000_0000_0000

  /** C# `ulong` */
  type U64 = x: int | 0 <= x < TWO64
  /** C# `long` */
  type I64 = x: int | -TWO63 <= x < TWO63
  /** C# `int` */
  type I32 = x: int | -TWO31 <= x < TWO31

  /** An unchecked conversion (or an unchecked 64-bit result) to `ulong`: the
      low 64 bits of the two's-complement value. */
  function ToU64(x: int): (r: U64)
    ensures (r - x) % TWO64 == 0
    ensures 0 <= x < TWO64 ==> r == x
  {
    x % TWO64
  }

  /** An unchecked 64-bit signed result (`long` arithmetic, or `(long)` of a `ulong`). */
  function ToI64(x: int): (r: I64)
    ensures (r - x) % TWO64 == 0
    ensures -TWO63 <= x < TWO63 ==> r == x
  {
    var u := x % TWO64;
    if u < TWO63 then u else u - TWO64
  }

  /** An unchecked 32-bit signed result (`int` arithmetic). */
  function ToI32(x: int): (r: I32)
    ensures (r - x) % TWO32 == 0
    ensures -TWO31 <= x < TWO31 ==> r == x
  {
    var u := x % TWO32;
    if u < TWO31 then u else u - TWO32
  }

  /** Two values that agree modulo 2^64 have the same low 64 bits. */
  lemma {:induction false} SameLowBits(x: int, y: int)
    requires (x - y) % TWO64 == 0
    ensures ToU64(x) == ToU64(y)
  {
    var k := (x - y) / TWO64;
    assert x == y + k * TWO64;
    ModShift(y, k);
  }

  lemma {:induction false} ModShift(y: int, k: int)
    ensures (y + k * TWO64) % TWO64 == y % TWO64
  {
  }

  /** Adding two unsigned values after reinterpreting the second one as
      unsigned gives the true sum modulo 2^64: `a + (ulong)b`. */
  lemma {:induction false} UncheckedAdd(a: int, b: int)
    ensures ToU64(a + ToU64(b)) == ToU64(a + b)
  {
    SameLowBits(a + ToU64(b), a + b);
  }

  /** Values that agree modulo 2^64 have the same signed 64-bit reading as well. */
  lemma {:induction false} SameSigned64(x: int, y: int)
    requires (x - y) % TWO64 == 0
    ensures ToI64(x) == ToI64(y)
  {
    SameLowBits(x, y);
  }

  lemma {:induction false} SameSigned32(x: int, y: int)
    requires (x - y) % TWO32 == 0
    ensures ToI32(x) == ToI32(y)
  {
    var k := (x - y) / TWO32;
    assert x == y + k * TWO32;
    assert (y + k * TWO32) % TWO32 == y % TWO32;
  }

  /** Multiplying congruent values by the same factor keeps them congruent. */
  lemma {:induction false} MulCongruent(a: int, a': int, b: int, m: int)
    requires (m == TWO32 || m == TWO64) && (a - a') % m == 0
    ensures (a * b - a' * b) % m == 0
  {
    var k := (a - a') / m;
    var kb := k * b;
    assert a - a' == k * m;
    assert a * b - a' * b == (a - a') * b;
    assert (a - a') * b == kb * m;
    if m == TWO32 {
      assert (kb * TWO32) % TWO32 == 0;
    } else {
      assert (kb * TWO64) % TWO64 == 0;
    }
  }

  /** An unchecked 64-bit product wraps only once, at the end. */
  lemma {:induction false} Wrap64Mul(a: int, b: int)
    ensures ToI64(ToI64(a) * b) == ToI64(a * b)
  {
    MulCongruent(ToI64(a), a, b, TWO64);
    SameSigned64(ToI64(a) * b, a * b);
  }

  /** An unchecked 32-bit product wraps only once, at the end. */
  lemma {:induction false} Wrap32Mul(a: int, b: int)
    ensures ToI32(ToI32(a) * b) == ToI32(a * b)
  {
    MulCongruent(ToI32(a), a, b, TWO32);
    SameSigned32(ToI32(a) * b, a * b);
  }

  /** Congruence modulo 2^64 is transitive. */
  lemma {:induction false} CongruentTrans(a: int, b: int, c: int)
    requires (a - b) % TWO64 == 0 && (b - c) % TWO64 == 0
    ensures (a - c) % TWO64 == 0
  {
    var k, l := (a - b) / TWO64, (b - c) / TWO64;
    assert a - c == (k + l) * TWO64;
  }

  /** Two congruent values in the unsigned range are equal. */
  lemma {:induction false} CongruentInRange(a: int, b: int)
    requires (a - b) % TWO64 == 0 && 0 <= a < TWO64 && 0 <= b < TWO64
    ensures a == b
  {
    SameLowBits(a, b);
  }

  /** `(ulong)((long)a + b)` in unchecked arithmetic is the sum modulo 2^64. */
  lemma {:induction false} SignedSum(a: int, b: int)
    ensures (ToU64(ToI64(ToI64(a) + b)) - (a + b)) % TWO64 == 0
    ensures 0 <= a + b < TWO64 ==> ToU64(ToI64(ToI64(a) + b)) == a + b
  {
    var wide := ToI64(a);
    var sum := ToI64(wide + b);
    CongruentTrans(sum, wide + b, a + b);
    CongruentTrans(ToU64(sum), sum, a + b);
    if 0 <= a + b < TWO64 {
      CongruentInRange(ToU64(sum), a + b);
    }
  }

  /** C# `/` on integers truncates toward zero. */
  function CsDiv(a: int, b: int): int
    requires b > 0
  {
    if a >= 0 then a / b else -((-a) / b)
  }

  /** C# `%` on integers takes the sign of the dividend. */
  function CsRem(a: int, b: int): int
    requires b > 0
  {
    if a >= 0 then a % b else -((-a) % b)
  }

  /** The truncating pair satisfies the C# division identity, with the
      remainder on the dividend's side of zero. */
  lemma {:induction false} CsDivRem(a: int, b: int)
    requires b > 0
    ensures CsDiv(a, b) * b + CsRem(a, b) == a
    ensures a >= 0 ==> 0 <= CsRem(a, b) < b
    ensures a < 0 ==> -b < CsRem(a, b) <= 0
  {
  }
}
