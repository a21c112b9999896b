/** Kotlin integer arithmetic as the time helpers use it: `/` and `%` that
    round toward zero, and 32-bit `Int` results that wrap around. `Long`
    values are modelled as unbounded `int`. */
module KotlinInt {

  const IntModulus: int := 0x1_0000_0000
  const IntMin: int := -0x8000_0000
  const IntMax: int := 0x7fff_ffff

  /** A Kotlin `Int`: 32-bit two's complement. */
  type Int32 = x: int | -0x8000_0000 <= x <= 0x7fff_ffff

  /** `a / b` on Kotlin integers for a positive divisor: the quotient is
      rounded toward zero, so the remainder takes the sign of `a`. */
  function Quot(a: int, b: int): (q: int)
    requires b > 0
    ensures a >= 0 ==> 0 <= a - b * q < b
    ensures a < 0 ==> -b < a - b * q <= 0
  {
    if a >= 0 then a / b else -((-a) / b)
  }

  /** `a % b` on Kotlin integers for a positive divisor: what is left after
      taking `Quot(a, b)` times `b` away, never larger in size than `b - 1`. */
  function Rem(a: int, b: int): (r: int)
    requires b > 0
    ensures r == a - b * Quot(a, b)
    ensures a >= 0 ==> 0 <= r < b
    ensures a < 0 ==> -b < r <= 0
  {
    if a >= 0 then a % b else -((-a) % b)
  }

  /** For a non-negative dividend Kotlin's operators agree with Dafny's. */
  lemma QuotRemNonNegative(a: int, b: int)
    requires a >= 0 && b > 0
    ensures Quot(a, b) == a / b && Rem(a, b) == a % b
  {
  }

  /** The value an `Int` computation yields when the exact result is `x`:
      the one 32-bit value that differs from `x` by a multiple of 2^32. */
  function Wrap32(x: int): (r: Int32)
    ensures (r - x) % IntModulus == 0
  {
    var k := (x - IntMin) / IntModulus;
    assert x - IntMin == k * IntModulus + (x - IntMin) % IntModulus;
    MultipleMod(-k);
    (x - IntMin) % IntModulus + IntMin
  }

  lemma MultipleMod(k: int)
    ensures (k * IntModulus) % IntModulus == 0
  {
  }

  /** Two values that differ by a multiple of 2^32 wrap to the same `Int`. */
  lemma {:induction false} Wrap32Congruent(a: int, b: int)
    requires (a - b) % IntModulus == 0
    ensures Wrap32(a) == Wrap32(b)
  {
    var ra, rb := Wrap32(a), Wrap32(b);
    var ka, kb := (ra - a) / IntModulus, (rb - b) / IntModulus;
    var kd := (a - b) / IntModulus;
    assert ra - a == ka * IntModulus;
    assert rb - b == kb * IntModulus;
    assert a - b == kd * IntModulus;
    assert ra - rb == (ka - kb + kd) * IntModulus;
    assert -IntModulus < ra - rb < IntModulus;
  }

  /** A result that fits in an `Int` is not changed by wrapping. */
  lemma Wrap32Small(x: int)
    requires IntMin <= x <= IntMax
    ensures Wrap32(x) == x
  {
    var r := Wrap32(x);
    var k := (r - x) / IntModulus;
    assert r - x == k * IntModulus;
  }

  /** Wrapping an intermediate result of a sum does not change the wrapped
      total: `Int` addition is addition modulo 2^32. */
  lemma Wrap32Sum(a: int, b: int)
    ensures Wrap32(Wrap32(a) + b) == Wrap32(a + b)
    ensures Wrap32(a + Wrap32(b)) == Wrap32(a + b)
  {
    var ka := (Wrap32(a) - a) / IntModulus;
    assert Wrap32(a) - a == ka * IntModulus;
    MultipleMod(ka);
    Wrap32Congruent(Wrap32(a) + b, a + b);
    var kb := (Wrap32(b) - b) / IntModulus;
    assert Wrap32(b) - b == kb * IntModulus;
    MultipleMod(kb);
    Wrap32Congruent(a + Wrap32(b), a + b);
  }

  /** Dividing twice is dividing by the product. */
  lemma DivDiv(a: int, b: int, c: int)
    requires a >= 0 && b > 0 && c > 0
    ensures (a / b) / c == a / (b * c)
  {
    var q := (a / b) / c;
    var r1 := a % b;
    var r2 := (a / b) % c;
    assert a == b * (a / b) + r1;
    assert a / b == c * q + r2;
    Distribute(b, c * q, r2);
    assert a == (b * c) * q + (b * r2 + r1);
    MulAtMost(b, r2, c - 1);
    DivUnique(a, b * c, q, b * r2 + r1);
  }

  lemma Distribute(b: int, x: int, y: int)
    ensures b * (x + y) == b * x + b * y
  {
  }

  lemma MulAtMost(b: int, x: int, y: int)
    requires b >= 0 && x <= y
    ensures b * x <= b * y
  {
  }

  /** The quotient and remainder are the only pair that splits `a` this way. */
  lemma DivUnique(a: int, n: int, q: int, r: int)
    requires n > 0 && 0 <= r < n && a == n * q + r
    ensures a / n == q && a % n == r
  {
    var q0, r0 := a / n, a % n;
    assert n * (q0 - q) == r - r0;
    MulAtLeast(n, q0 - q);
  }

  /** A non-zero multiple of `n` is at least `n` away from zero. */
  lemma MulAtLeast(n: int, k: int)
    requires n > 0
    ensures k >= 1 ==> n * k >= n
    ensures k <= -1 ==> n * k <= -n
  {
  }

  /** Wrapping after each of two additions is wrapping the whole sum once. */
  lemma Wrap32Sum3(a: int, b: int, c: int)
    ensures Wrap32(Wrap32(Wrap32(a) + Wrap32(b)) + c) == Wrap32(a + b + c)
  {
    Wrap32Sum(Wrap32(a) + Wrap32(b), c);
    Wrap32Sum(a, Wrap32(b) + c);
    Wrap32Sum(a + c, b);
  }
}
