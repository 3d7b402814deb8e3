/**
 * Java `int` arithmetic (32-bit two's complement, wrapping on overflow,
 * division truncating toward zero) and the saturating bound arithmetic
 * of util/RegExp.java, where OMEGA = Integer.MAX_VALUE stands for an
 * unbounded repetition count.
 */
module JavaInt {
  const MIN_INT: int := -0x8000_0000
  const MAX_INT: int := 0x7FFF_FFFF

  type int32 = x: int | -0x8000_0000 <= x <= 0x7FFF_FFFF

  /** Integer.MAX_VALUE, the "infinite" bound of repetitions. */
  const OMEGA: int32 := 0x7FFF_FFFF

  /** Reduces a mathematical integer to the Java `int` with the same low 32 bits. */
  function Wrap(x: int): (r: int32)
    ensures MIN_INT <= x <= MAX_INT ==> r == x
    ensures (x - r) % 0x1_0000_0000 == 0
  {
    if MIN_INT <= x <= MAX_INT then x else (x - MIN_INT) % 0x1_0000_0000 + MIN_INT
  }

  /** Java `x + y` on ints. */
  function Add(x: int32, y: int32): (r: int32)
    ensures MIN_INT <= x + y <= MAX_INT ==> r == x + y
    ensures x + y > MAX_INT ==> r == x + y - 0x1_0000_0000
    ensures x + y < MIN_INT ==> r == x + y + 0x1_0000_0000
  {
    Wrap(x + y)
  }

  /** Java `x - y` on ints. */
  function Sub(x: int32, y: int32): (r: int32)
    ensures MIN_INT <= x - y <= MAX_INT ==> r == x - y
    ensures x - y > MAX_INT ==> r == x - y - 0x1_0000_0000
  {
    Wrap(x - y)
  }

  /** Java `x * y` on ints. */
  function Mul(x: int32, y: int32): (r: int32)
    ensures MIN_INT <= x * y <= MAX_INT ==> r == x * y
  {
    Wrap(x * y)
  }

  /** Java `x / y` on ints: truncation toward zero, and MIN_VALUE / -1 wraps. */
  function Div(x: int32, y: int32): (r: int32)
    requires y != 0
    ensures 0 <= x && 0 < y ==> r == x / y
    ensures 0 <= x && y < 0 ==> r == -((x as int) / (-(y as int)))
  {
    var a: nat := if x < 0 then -(x as int) else x;
    var b: nat := if y < 0 then -(y as int) else y;
    var q := Quotient(a, b);
    if (x < 0) != (y < 0) then -(q as int)
    else if q == 0x8000_0000 then MIN_INT  // MIN_VALUE / -1 overflows back to MIN_VALUE
    else q
  }

  /** Quotient of naturals, never above the dividend. */
  function Quotient(a: nat, b: nat): (q: nat)
    requires 0 < b
    ensures q == a / b && q <= a
  {
    DivAtMost(a, b);
    a / b
  }

  lemma DivAtMost(a: nat, b: nat)
    requires 0 < b
    ensures a / b <= a
  {
    var q := a / b;
    assert a == q * b + a % b && 0 <= a % b;
    if q > a {
      MulAtLeast(q, b);
    }
  }

  lemma MulAtLeast(q: nat, b: nat)
    requires 1 <= b
    ensures q * b >= q
  {
    assert q * b == q * (b - 1) + q;
  }

  /**
   * RegExp.plus: `x + y` when `x <= OMEGA && y <= OMEGA - x`, else OMEGA.
   * The guard is evaluated in Java ints, so `OMEGA - x` itself overflows
   * when x is negative.
   */
  function BoundPlus(x: int32, y: int32): (r: int32)
    ensures 0 <= x && 0 <= y ==> r == (if x + y <= OMEGA then x + y else OMEGA)
    ensures 0 <= x && 0 <= y ==> x <= r && y <= r
    ensures x == OMEGA && 0 <= y ==> r == OMEGA
  {
    if x <= OMEGA && y <= Sub(OMEGA, x) then Add(x, y) else OMEGA
  }

  /**
   * RegExp.times: 0 when either factor is 0; `x * y` when
   * `x <= OMEGA && y <= OMEGA / x`; OMEGA otherwise.
   */
  function BoundTimes(x: int32, y: int32): (r: int32)
    ensures x == 0 || y == 0 ==> r == 0
  {
    if x == 0 || y == 0 then 0
    else if x <= OMEGA && y <= Div(OMEGA, x) then Mul(x, y)
    else OMEGA
  }

  /** For positive factors, times is the product while it fits and OMEGA beyond. */
  lemma BoundTimesPositive(x: int32, y: int32)
    requires 0 < x && 0 < y
    ensures BoundTimes(x, y) == (if x * y <= OMEGA then x * y else OMEGA)
    ensures 0 < BoundTimes(x, y) <= OMEGA
  {
    ProductFits(x, y);
    assert Div(OMEGA, x) == OMEGA / x;
    assert 0 < x * y;
  }

  /** For a positive x, `y <= OMEGA / x` is exactly "the product fits". */
  lemma ProductFits(x: int, y: int)
    requires 0 < x && 0 < y
    ensures (y <= OMEGA / x) <==> (x * y <= OMEGA)
  {
    var q := OMEGA / x;
    assert OMEGA == x * q + OMEGA % x;
    if y <= q {
      assert x * y <= x * q;
    } else {
      assert y >= q + 1;
      assert x * y >= x * (q + 1) == x * q + x;
    }
  }

  /** With a negative first argument the guard's `OMEGA - x` overflows: plus(-1, 1) is OMEGA, not 0. */
  lemma BoundPlusNegativeOverflow()
    ensures BoundPlus(-1, 1) == OMEGA
    ensures BoundPlus(-1, MIN_INT) == OMEGA
  {
  }
}
