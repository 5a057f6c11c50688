/** Decimal rounding of a real number, as print_decimal_number needs it. */
module Rounding {
  import opened Numerals

  /** A floating-point argument, idealised: a sign bit of its own and an exact magnitude. */
  datatype Float = Float(negative: bool, magnitude: real)

  /** struct floating_point_components */
  datatype Components = Components(integral: int, fractional: int, negative: bool)

  const MAX_INT64: int := 0x7FFF_FFFF_FFFF_FFFF

  /** PRINTF_MAX_SUPPORTED_PRECISION: the last entry of the table of powers of ten. */
  const MAX_SUPPORTED_PRECISION: nat := 17

  /** `n` moved `p` decimal places to the left. */
  function Shift(n: int, p: nat): int { n * Pow(10, p) }

  function ShiftReal(y: real, p: nat): real { y * Pow(10, p) as real }

  /** The nearest integer; of two equally near ones, the even one. */
  function RoundHalfEven(y: real): int
  {
    var f := y.Floor;
    var r := y - f as real;
    if r < 0.5 || (r == 0.5 && f % 2 == 0) then f else f + 1
  }

  /** A non-negative number rounded to `p` digits after the point, as a whole number of
      units of the last digit. */
  function Rounded(x: Float, p: nat): int
  {
    RoundHalfEven(ShiftReal(x.magnitude, p))
  }

  function Abs(y: real): real { if y < 0.0 then -y else y }

  /** What the name promises: no integer is nearer, and a tie goes to the even one. */
  lemma RoundHalfEvenIsNearest(y: real, m: int)
    ensures var n := RoundHalfEven(y);
            Abs(y - n as real) <= Abs(y - m as real)
            && (Abs(y - n as real) == Abs(y - m as real) && m != n ==> n % 2 == 0)
  {
    if m < y.Floor {
      assert m as real <= (y.Floor - 1) as real;
    } else if m > y.Floor + 1 {
      assert m as real >= (y.Floor + 2) as real;
    }
  }

  lemma FloorShift(y: real, n: int)
    ensures (y + n as real).Floor == y.Floor + n
  {
  }

  lemma Product(r: real, e: real, s: real)
    requires 0.0 <= r < 1.0 && e > 0.0 && s == r * e
    ensures 0.0 <= s < e
  {
  }

  lemma ProductSum(y: real, k: real, e: real)
    ensures y * e == (y - k) * e + k * e
  {
  }

  lemma IntegerProduct(i: int, d: int)
    ensures (i * d) as real == i as real * d as real
  {
  }

  /** Scaling acts on the integral part and on the remainder separately. */
  lemma ScaledParts(y: real, p: nat)
    requires y >= 0.0
    ensures var s := ShiftReal(y - y.Floor as real, p);
            0.0 <= s < Pow(10, p) as real && ShiftReal(y, p) == s + Shift(y.Floor, p) as real
  {
    hide Pow;
    PowPositive(10, p);
    var r, k, e := y - y.Floor as real, y.Floor as real, Pow(10, p) as real;
    Product(r, e, r * e);
    ProductSum(y, k, e);
    IntegerProduct(y.Floor, Pow(10, p));
  }

  lemma ShiftByOne(f: int, n: nat)
    ensures Shift(f, n + 1) == 10 * Shift(f, n)
  {
    assert f * (10 * Pow(10, n)) == 10 * (f * Pow(10, n));
  }

  lemma ShiftEven(n: int, p: nat)
    requires p > 0
    ensures Shift(n, p) % 2 == 0
  {
    hide Shift;
    ShiftByOne(n, p - 1);
  }

  lemma ShiftZero(n: int, y: real)
    ensures Shift(n, 0) == n && ShiftReal(y, 0) == y && Pow(10, 0) == 1
  {
    assert Pow(10, 0) == 1;
  }

  lemma ShiftNext(n: int, p: nat)
    ensures Shift(n + 1, p) == Shift(n, p) + Pow(10, p)
  {
  }

  /** Rounding the remainder half to even rounds the whole scaled number half to even: above
      the last digit kept, everything is even. */
  lemma RoundingAtTheRemainder(x: Float, p: nat)
    requires x.magnitude >= 0.0
    ensures var i := x.magnitude.Floor;
            var s := ShiftReal(x.magnitude - i as real, p);
            var f := s.Floor;
            var up := s - f as real > 0.5 || (s - f as real == 0.5 && (if p == 0 then i else f) % 2 == 1);
            Rounded(x, p) == Shift(i, p) + (if up then f + 1 else f)
  {
    hide Pow, Shift, ShiftReal, RoundHalfEven;
    var i := x.magnitude.Floor;
    var s := ShiftReal(x.magnitude - i as real, p);
    ScaledParts(x.magnitude, p);
    if p > 0 {
      ShiftEven(i, p);
      EvenSum(Shift(i, p), s.Floor);
      RoundedSum(s, Shift(i, p), s.Floor);
    } else {
      ShiftZero(i, x.magnitude - i as real);
      RoundedSum(s, Shift(i, p), i);
    }
  }

  lemma EvenSum(a: int, b: int)
    requires a % 2 == 0
    ensures (a + b) % 2 == b % 2
  {
  }

  lemma RoundedSum(s: real, whole: int, parity: int)
    requires s >= 0.0 && (whole + s.Floor) % 2 == parity % 2
    ensures var f := s.Floor;
            var up := s - f as real > 0.5 || (s - f as real == 0.5 && parity % 2 == 1);
            RoundHalfEven(s + whole as real) == whole + (if up then f + 1 else f)
  {
    FloorShift(s, whole);
  }

  /** get_components: rounding at the point and after it, with a carry, rounds the whole
      number half to even. */
  method GetComponents(x: Float, precision: nat) returns (c: Components)
    requires 0.0 <= x.magnitude < MAX_INT64 as real && precision <= MAX_SUPPORTED_PRECISION
    ensures Shift(c.integral, precision) + c.fractional == Rounded(x, precision)
    ensures 0 <= c.fractional < Pow(10, precision) && 0 <= c.integral
    ensures c.negative == x.negative
  {
    hide Pow, Shift, ShiftReal, Rounded;
    var absNumber := x.magnitude;
    var integral := absNumber.Floor;
    var scaledRemainder := ShiftReal(absNumber - integral as real, precision);
    var fractional := scaledRemainder.Floor;
    ScaledParts(absNumber, precision);
    RoundingAtTheRemainder(x, precision);
    PowPositive(10, precision);
    if precision == 0 {
      ShiftZero(integral, absNumber - integral as real);
      ShiftZero(integral + 1, 0.0);
    }

    var remainder := scaledRemainder - fractional as real;
    if remainder > 0.5 || (remainder == 0.5 && fractional % 2 == 1) {
      fractional := fractional + 1;
    }
    if fractional as real >= Pow(10, precision) as real {
      ShiftNext(integral, precision);
      fractional := 0;
      integral := integral + 1;
    }
    if precision == 0 {
      remainder := absNumber - integral as real;
      if remainder == 0.5 && integral % 2 == 1 {
        integral := integral + 1;
      }
    }
    c := Components(integral, fractional, x.negative);
  }

  /** The parts of a rounded number are determined by it. */
  lemma PartsUnique(c: Components, d: Components, p: nat)
    requires Shift(c.integral, p) + c.fractional == Shift(d.integral, p) + d.fractional
    requires 0 <= c.fractional < Pow(10, p) && 0 <= d.fractional < Pow(10, p)
    ensures c.integral == d.integral && c.fractional == d.fractional
  {
    hide Pow;
    DifferenceOfShifts(c.integral, d.integral, p);
    DifferenceOfShifts(d.integral, c.integral, p);
  }

  lemma DifferenceOfShifts(a: int, b: int, p: nat)
    ensures a > b ==> Shift(a, p) >= Shift(b, p) + Pow(10, p)
  {
    PowPositive(10, p);
    hide Pow;
    var d := Pow(10, p);
    if a > b {
      assert (a - b - 1) * d >= 0;
      assert (a - b - 1) * d == a * d - b * d - d;
    }
  }

  /** A non-negative number cut at the decimal point after rounding. */
  function Split(x: Float, p: nat): (c: Components)
    requires x.magnitude >= 0.0
  {
    PowPositive(10, p);
    Components(Rounded(x, p) / Pow(10, p), Rounded(x, p) % Pow(10, p), x.negative)
  }

  lemma SplitParts(x: Float, p: nat)
    requires x.magnitude >= 0.0
    ensures var c := Split(x, p);
            Shift(c.integral, p) + c.fractional == Rounded(x, p)
            && 0 <= c.fractional < Pow(10, p) && 0 <= c.integral
  {
    hide Pow, RoundHalfEven, ShiftReal;
    PowPositive(10, p);
    Quotient(Rounded(x, p), Pow(10, p));
    RoundedNonNegative(x, p);
  }

  lemma Quotient(n: int, d: int)
    requires d > 0
    ensures n == (n / d) * d + n % d
    ensures n >= 0 ==> n / d >= 0
  {
  }

  lemma RoundedNonNegative(x: Float, p: nat)
    requires x.magnitude >= 0.0
    ensures Rounded(x, p) >= 0
  {
    ScaledNonNegative(x.magnitude, Pow(10, p) as real);
  }

  lemma ScaledNonNegative(y: real, e: real)
    requires y >= 0.0 && e >= 0.0
    ensures y * e >= 0.0
  {
  }

  /** get_components computes the parts of the rounded number. */
  lemma SplitIs(x: Float, p: nat, c: Components)
    requires x.magnitude >= 0.0 && c.negative == x.negative
    requires Shift(c.integral, p) + c.fractional == Rounded(x, p) && 0 <= c.fractional < Pow(10, p)
    ensures c == Split(x, p)
  {
    hide Shift, Rounded, Pow;
    SplitParts(x, p);
    PartsUnique(c, Split(x, p), p);
  }

  lemma ShiftSum(a: int, b: int, p: nat)
    ensures Shift(a + b, p) == Shift(a, p) + Shift(b, p)
  {
  }

  lemma ShiftTwice(a: int, p: nat, q: nat)
    ensures Shift(Shift(a, p), q) == Shift(a, p + q)
  {
    PowSplit(10, p, q);
    assert a * Pow(10, p) * Pow(10, q) == a * (Pow(10, p) * Pow(10, q));
  }

  lemma ShiftGrows(a: nat, p: nat)
    requires a > 0 && p > 0
    ensures Shift(a, p) > a
  {
    PowPositive(10, p - 1);
    assert Pow(10, p) >= 10;
    assert a * (Pow(10, p) - 1) > 0;
  }

  lemma ShiftMonotonic(a: int, b: int, p: nat)
    ensures Shift(a, p) <= Shift(b, p) <==> a <= b
  {
    hide Pow, Shift;
    PowPositive(10, p);
    DifferenceOfShifts(a, b, p);
    DifferenceOfShifts(b, a, p);
  }

  /** Rounding does not pass a whole number. */
  lemma SplitBound(x: Float, p: nat, n: nat)
    requires 0.0 <= x.magnitude <= n as real
    ensures Split(x, p).integral <= n
  {
    hide Pow, Rounded;
    SplitParts(x, p);
    RoundedBound(x, p, n);
    ShiftMonotonic(Split(x, p).integral, n, p);
  }

  lemma RoundedBound(x: Float, p: nat, n: nat)
    requires 0.0 <= x.magnitude <= n as real
    ensures Rounded(x, p) <= Shift(n, p)
  {
    PowPositive(10, p);
    hide Pow;
    var e := Pow(10, p) as real;
    IntegerProduct(n, Pow(10, p));
    assert (n as real - x.magnitude) * e >= 0.0;
    assert (n as real - x.magnitude) * e == n as real * e - x.magnitude * e;
  }
}
