/**
 * The .NET `decimal` as an exact value mantissa / 10^scale, and the
 * MaxDecimalPlaces computation `Math.Truncate(step * v) / step` with
 * `step = (decimal)Math.Pow(10, n)`.
 */
module Decimals {
  import opened Wrappers
  import opened Entities

  /** 2^96: a decimal's mantissa is a 96-bit magnitude. */
  const MANTISSA_BOUND: int := 0x1_0000_0000_0000_0000_0000_0000
  /** The largest scale a decimal can carry. */
  const MAX_SCALE: int := 28

  /** The number mantissa / 10^scale. */
  datatype DecimalNumber = DecimalNumber(mantissa: int, scale: nat)

  predicate Valid(d: DecimalNumber) {
    -MANTISSA_BOUND < d.mantissa < MANTISSA_BOUND && d.scale <= MAX_SCALE
  }

  /** A representable C# `decimal`. */
  type decimal = d: DecimalNumber | Valid(d) witness DecimalNumber(0, 0)

  function Abs(x: int): nat {
    if x < 0 then -x else x
  }

  function Pow10(n: nat): (r: nat)
    ensures r >= 1
  {
    if n == 0 then 1 else 10 * Pow10(n - 1)
  }

  lemma {:induction false} Pow10Add(a: nat, b: nat)
    ensures Pow10(a + b) == Pow10(a) * Pow10(b)
  {
    if a > 0 {
      Pow10Add(a - 1, b);
      assert Pow10(a + b) == 10 * Pow10(a - 1 + b);
    }
  }

  lemma MulLe(x: int, y: int, c: int)
    requires x <= y && c >= 0
    ensures x * c <= y * c
  {
  }

  lemma MulLt(x: int, y: int, c: int)
    requires x < y && c > 0
    ensures x * c < y * c
  {
  }

  lemma MulAssoc(x: int, y: int, z: int)
    ensures (x * y) * z == x * (y * z)
  {
  }

  lemma AddOneMul(x: int, b: int)
    ensures (x + 1) * b == x * b + b
  {
  }

  lemma SubMul(x: int, y: int, b: int)
    ensures (x - y) * b == x * b - y * b
  {
  }

  lemma AbsMul(x: int, c: nat)
    ensures Abs(x * c) == Abs(x) * c
    ensures x < 0 && c > 0 ==> x * c < 0
    ensures x > 0 && c > 0 ==> x * c > 0
  {
    if x < 0 {
      assert x * c == -((-x) * c);
    }
  }

  lemma DivBounds(a: nat, b: int)
    requires b > 0
    ensures (a / b) * b <= a < (a / b) * b + b
  {
    assert a == (a / b) * b + a % b;
  }

  lemma DivOfMultiple(q: int, b: int)
    requires b > 0
    ensures (q * b) % b == 0
    ensures (q * b) / b == q
  {
    var r := (q * b) % b;
    var d := (q * b) / b;
    assert q * b == d * b + r;
    SubMul(q, d, b);
    if q - d >= 1 {
      MulLe(1, q - d, b);
    } else if q - d <= -1 {
      MulLe(q - d, -1, b);
    }
  }

  /** Integer division rounding toward zero, as Math.Truncate of the exact quotient. */
  function TruncDiv(a: int, b: int): (q: int)
    requires b > 0
    ensures Abs(q) * b <= Abs(a) < (Abs(q) + 1) * b
    ensures q == 0 || (q < 0 <==> a < 0)
  {
    var q: int := Abs(a) / b;
    DivBounds(Abs(a), b);
    AddOneMul(q, b);
    assert q >= 0 && Abs(q) == q && Abs(-q) == q;
    if a >= 0 then q else -q
  }

  /** Dividing an exact multiple loses nothing. */
  lemma TruncDivOfMultiple(q: int, b: int)
    requires b > 0
    ensures TruncDiv(q * b, b) == q
  {
    AbsMul(q, b);
    DivOfMultiple(Abs(q), b);
  }

  /** Math.Truncate(v * 10^n): the integer toward zero from the exact product. */
  function ScaledTrunc(v: DecimalNumber, n: nat): (q: int)
    ensures Abs(q) * Pow10(v.scale) <= Abs(v.mantissa) * Pow10(n) < (Abs(q) + 1) * Pow10(v.scale)
    ensures q == 0 || (q < 0 <==> v.mantissa < 0)
  {
    if n >= v.scale then
      ScaledTruncExact(v.mantissa, v.scale, n);
      AddOneMul(Abs(v.mantissa * Pow10(n - v.scale)), Pow10(v.scale));
      v.mantissa * Pow10(n - v.scale)
    else
      var q := TruncDiv(v.mantissa, Pow10(v.scale - n));
      ScaledTruncTruncated(v.mantissa, v.scale, n, q);
      q
  }

  lemma ScaledTruncExact(m: int, e: nat, n: nat)
    requires n >= e
    ensures var q := m * Pow10(n - e);
      Abs(q) * Pow10(e) == Abs(m) * Pow10(n) &&
      (q == 0 || (q < 0 <==> m < 0))
  {
    var p := Pow10(n - e);
    Pow10Add(n - e, e);
    AbsMul(m, p);
    MulAssoc(Abs(m), p, Pow10(e));
  }

  lemma ScaledTruncTruncated(m: int, e: nat, n: nat, q: int)
    requires n < e
    requires Abs(q) * Pow10(e - n) <= Abs(m) < (Abs(q) + 1) * Pow10(e - n)
    ensures Abs(q) * Pow10(e) <= Abs(m) * Pow10(n) < (Abs(q) + 1) * Pow10(e)
  {
    var d := Pow10(e - n);
    Pow10Add(e - n, n);
    MulLe(Abs(q) * d, Abs(m), Pow10(n));
    MulLt(Abs(m), (Abs(q) + 1) * d, Pow10(n));
    MulAssoc(Abs(q), d, Pow10(n));
    MulAssoc(Abs(q) + 1, d, Pow10(n));
  }

  /**
   * The MaxDecimalPlaces arm. `(decimal)Math.Pow(10, n)` is exactly 10^n for
   * -28 <= n <= 28, overflows for n > 28 and becomes 0 for n < -28 (then the
   * final division faults). The product with a power of ten is exact, so the
   * result is v truncated toward zero at the n-th decimal digit.
   */
  function MaxDecimalPlaces(v: decimal, n: int32): (r: Result<decimal, Error>)
    ensures r == Failure(Overflow) <==> n > MAX_SCALE || (0 <= n && Abs(ScaledTrunc(v, n)) >= MANTISSA_BOUND)
    ensures r == Failure(DivideByZero) <==> n < -MAX_SCALE
    ensures r.Failure? ==> r.error == Overflow || r.error == DivideByZero
    // no larger in magnitude, and never of the opposite sign
    ensures r.Success? ==> Abs(r.value.mantissa) * Pow10(v.scale) <= Abs(v.mantissa) * Pow10(r.value.scale)
    ensures r.Success? ==> r.value.mantissa == 0 || (r.value.mantissa < 0 <==> v.mantissa < 0)
    // n >= 0: at most n decimal places, and |v - r| < 10^-n
    ensures r.Success? && n >= 0 ==> r.value.scale == n
    ensures r.Success? && n >= 0 ==>
      Abs(v.mantissa * Pow10(n) - r.value.mantissa * Pow10(v.scale)) < Pow10(v.scale)
    // n < 0: a whole multiple of 10^-n, and |v - r| < 10^-n
    ensures r.Success? && n < 0 ==> r.value.scale == 0 && r.value.mantissa % Pow10(-n) == 0
    ensures r.Success? && n < 0 ==>
      Abs(v.mantissa - r.value.mantissa * Pow10(v.scale)) < Pow10(v.scale - n)
  {
    if n > MAX_SCALE then Failure(Overflow)
    else if n < -MAX_SCALE then Failure(DivideByZero)
    else if n >= 0 then
      var q := ScaledTrunc(v, n);
      if Abs(q) >= MANTISSA_BOUND then Failure(Overflow)
      else
        PositiveStepBounds(v, n, q);
        Success(DecimalNumber(q, n))
    else
      var k: nat := -n;
      var q := TruncDiv(v.mantissa, Pow10(v.scale + k));
      var m := q * Pow10(k);
      NegativeStepBounds(v, k, q);
      Success(DecimalNumber(m, 0))
  }

  lemma PositiveStepBounds(v: DecimalNumber, n: nat, q: int)
    requires q == ScaledTrunc(v, n)
    ensures Abs(v.mantissa * Pow10(n) - q * Pow10(v.scale)) < Pow10(v.scale)
  {
    TruncStepBounds(v.mantissa, Pow10(n), q, Pow10(v.scale));
  }

  /** The core of PositiveStepBounds: `q·b` is the truncation of `m·a` to a multiple of `b`. */
  lemma TruncStepBounds(m: int, a: nat, q: int, b: nat)
    requires Abs(q) * b <= Abs(m) * a < (Abs(q) + 1) * b
    requires q == 0 || (q < 0 <==> m < 0)
    ensures Abs(m * a - q * b) < b
  {
    AbsMul(m, a);
    AbsMul(q, b);
    AddOneMul(Abs(q), b);
    SameSignClose(m * a, q * b, b);
  }

  /** Two numbers of the same sign whose magnitudes differ by less than `b` are less than `b` apart. */
  lemma SameSignClose(x: int, y: int, b: int)
    requires Abs(y) <= Abs(x) < Abs(y) + b
    requires (x >= 0 && y >= 0) || (x <= 0 && y <= 0)
    ensures Abs(x - y) < b
  {
  }

  lemma NegativeStepBounds(v: decimal, k: nat, q: int)
    requires k > 0
    requires q == TruncDiv(v.mantissa, Pow10(v.scale + k))
    ensures var m := q * Pow10(k);
      && Abs(m) * Pow10(v.scale) <= Abs(v.mantissa)
      && Abs(v.mantissa - m * Pow10(v.scale)) < Pow10(v.scale + k)
      && (m == 0 || (m < 0 <==> v.mantissa < 0))
      && m % Pow10(k) == 0
      && -MANTISSA_BOUND < m < MANTISSA_BOUND
  {
    var m := q * Pow10(k);
    Pow10Add(k, v.scale);
    AbsMul(q, Pow10(k));
    MulAssoc(q, Pow10(k), Pow10(v.scale));
    MulAssoc(Abs(q), Pow10(k), Pow10(v.scale));
    AbsMul(q, Pow10(v.scale + k));
    AddOneMul(Abs(q), Pow10(v.scale + k));
    MulLe(1, Pow10(v.scale), Abs(m));
    DivOfMultiple(q, Pow10(k));
  }

  /** Truncating again at the same place changes nothing. */
  lemma MaxDecimalPlacesIdempotent(v: decimal, n: int32)
    requires MaxDecimalPlaces(v, n).Success?
    ensures MaxDecimalPlaces(MaxDecimalPlaces(v, n).value, n) == MaxDecimalPlaces(v, n)
  {
    var r := MaxDecimalPlaces(v, n).value;
    if n < 0 {
      var k: nat := -n;
      var q := TruncDiv(v.mantissa, Pow10(v.scale + k));
      TruncDivOfMultiple(q, Pow10(k));
    }
  }

  /** 0.123456789 truncated to two places is 0.12. */
  lemma TruncatesToTwoPlaces()
    ensures MaxDecimalPlaces(DecimalNumber(123456789, 9), 2) == Success(DecimalNumber(12, 2))
  {
    assert Pow10(7) == 10000000;
  }

  /** Truncation, not rounding: 0.129 gives 0.12 and -0.129 gives -0.12. */
  lemma TruncatesTowardZero()
    ensures MaxDecimalPlaces(DecimalNumber(129, 3), 2) == Success(DecimalNumber(12, 2))
    ensures MaxDecimalPlaces(DecimalNumber(-129, 3), 2) == Success(DecimalNumber(-12, 2))
  {
    assert Pow10(1) == 10;
  }
}
