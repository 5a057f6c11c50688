/** The laws of printed decimals: what `%f` and the `%g` fallback read back as, when, and
    how wide they are. */
module DecimalLaws {
  import opened Text
  import opened Numerals
  import opened FormatFlags
  import opened Readers
  import opened Rounding
  import opened DecimalFields

  /** Beyond this precision the table of powers of ten would be read past its end. */
  const MAX_PRECISION: nat := MAX_SUPPORTED_PRECISION + BUFFER_SIZE

  /** How print_floating_point calls print_decimal_number: digits past the supported
      precision become zeros written beforehand. */
  function PrintedJob(x: Float, precision: nat, width: nat, flags: Flags): (d: DecimalJob)
    requires 0.0 <= x.magnitude && precision <= MAX_PRECISION
    ensures d.Valid()
  {
    var p := Min(precision, MAX_SUPPORTED_PRECISION);
    SplitParts(x, p);
    DecimalJob(Split(x, p), precision - p, p, width, flags)
  }

  lemma FieldReadsAs(d: DecimalJob)
    requires d.Valid() && d.Layout().Valid() && (d.Layout().Canonical() || d.Fits())
    ensures var l := d.Layout();
            ReadDecimal(d.Field()) == Some(Decimal(d.c.negative, Value(l.whole + l.frac, 10), |l.frac|))
            <==> d.Fits()
  {
    hide Value, ReadDecimal, Justify, Tail, DigitChars, PaddedDigits;
    FieldIsTail(d);
    FitsLayout(d);
    LayoutReadsBack(d.Layout(), d.width, d.flags.left, d.flags.zeropad);
  }

  /** `%f`: the text denotes the argument rounded half to even, with exactly the digits
      asked for after the point, exactly when the number and its minus sign fit the scratch
      buffer. */
  lemma DecimalReadsBack(x: Float, precision: nat, width: nat, flags: Flags)
    requires 0.0 <= x.magnitude && precision <= MAX_PRECISION
    requires !flags.adapt || flags.hash
    ensures var p := Min(precision, MAX_SUPPORTED_PRECISION);
            var d := PrintedJob(x, precision, width, flags);
            ReadDecimal(d.Field()) == Some(Decimal(x.negative, Shift(Rounded(x, p), precision - p), precision))
            <==> d.Fits()
  {
    hide Value, ReadDecimal, Shift, Rounded, Pow, DigitChars, PaddedDigits, Stripped, Clip, Reverse, Justify;
    var d := PrintedJob(x, precision, width, flags);
    SplitParts(x, Min(precision, MAX_SUPPORTED_PRECISION));
    PlainLayout(d);
    FieldReadsAs(d);
  }

  /** Within a thousand million, with at most twenty digits after the point and zero padding
      up to the buffer size, everything fits. */
  lemma UsualDecimalsFit(x: Float, precision: nat, width: nat, flags: Flags)
    requires 0.0 <= x.magnitude <= 1_000_000_000.0 && precision <= 20
    requires flags.ZeroFilled() ==> width <= BUFFER_SIZE
    requires !flags.adapt || flags.hash
    ensures PrintedJob(x, precision, width, flags).Fits()
  {
    var d := PrintedJob(x, precision, width, flags);
    SplitBound(x, d.precision, 1_000_000_000);
    PowerOfTen10();
    DigitCount(d.c.integral, 10, false, 10);
    UsualLength(d);
  }

  lemma PowerOfTen10()
    ensures Pow(10, 10) == 10_000_000_000
  {
    assert Pow(10, 2) == 100;
    PowSplit(10, 2, 2);
    PowSplit(10, 4, 1);
    PowSplit(10, 5, 5);
  }

  lemma UsualLength(d: DecimalJob)
    requires d.Valid() && !d.Adaptive() && d.zeros + d.precision <= 20
    requires |DigitChars(d.c.integral, 10, false)| <= 10
    requires d.flags.ZeroFilled() ==> d.width <= BUFFER_SIZE
    ensures d.Fits()
  {
    hide DigitChars, PaddedDigits;
  }

  /** The field-width law for decimals, and exactly where it fails. */
  lemma DecimalWidth(d: DecimalJob)
    requires d.Valid()
    ensures |d.Field()| == Max(d.width, |d.(width := 0).Field()|)
            <==> !(d.flags.ZeroFilled() && d.width > BUFFER_SIZE)
  {
    hide DigitChars, PaddedDigits, Stripped;
    FieldLength(d);
    FieldLength(d.(width := 0));
  }

  lemma FieldLength(d: DecimalJob)
    requires d.Valid()
    ensures var n := |d.NumberChars()| + |SignChar(d.c.negative, d.flags)|;
            |d.Field()| == if d.flags.ZeroFilled() then Min(BUFFER_SIZE, Max(n, d.width))
                           else Max(d.width, Min(BUFFER_SIZE, n))
  {
    hide DigitChars, PaddedDigits, Stripped;
  }

  // ----- %g

  /** `r` denotes `n` units of the `p`-th decimal place. */
  predicate Denotes(r: Decimal, n: int, p: nat) { Shift(r.scaled, p) == Shift(n, r.digits) }

  lemma AdaptiveLayout(d: DecimalJob)
    requires d.Valid() && d.Adaptive()
    ensures d.Layout().Valid() && (d.c.fractional > 0 ==> d.Layout().Canonical())
  {
    hide DigitChars, Value;
    FitsLayout(d);
    IntegralReads(d);
    RepeatElements('0', d.zeros);
    if d.c.fractional > 0 {
      var r := Stripped(d.c.fractional, d.precision);
      FractionReads(r.0, r.1, d.zeros);
    } else {
      assert Reverse(d.FractionDigits()) + Repeat('0', d.zeros) == Repeat('0', d.zeros);
    }
  }

  lemma PointInField(d: DecimalJob)
    requires d.Valid() && d.Fits() && d.Layout().Valid()
    ensures '.' in d.Field() <==> d.HasPoint()
  {
    hide DigitChars, PaddedDigits, Stripped;
    var l := d.Layout();
    FitsLayout(d);
    FieldIsTail(d);
    TailKeepsBody(l);
    PointInBody(l.whole, l.point, l.frac);
    PointInJustified(if |l.Full()| <= BUFFER_SIZE then l.sign else "", KeptZeros(l),
                     l.whole, l.point, l.frac, d.width, d.flags);
  }

  lemma PointInBody(w: string, point: string, frac: string)
    requires AllDigits(w, 10) && AllDigits(frac, 10)
    ensures '.' !in w && '.' !in frac
  {
    assert DigitValue('.') == 16;
  }

  lemma PointInJustified(head: string, zeros: nat, w: string, point: string, frac: string, width: nat, flags: Flags)
    requires '.' !in head && '.' !in w && '.' !in frac
    ensures '.' in Justify(head + (Repeat('0', zeros) + w + point + frac), width, flags.left, flags.zeropad)
            <==> '.' in point
  {
    var text := head + (Repeat('0', zeros) + w + point + frac);
    RepeatElements('0', zeros);
    RepeatElements(' ', width - |text|);
    assert '.' !in Repeat('0', zeros) && '.' !in Repeat(' ', width - |text|);
    assert '.' in text <==> '.' in point;
  }

  lemma ShiftOfTen(a: int, n: nat)
    requires n > 0
    ensures Shift(a, n) % 10 == 0
  {
    ShiftByOne(a, n - 1);
  }

  /** A fraction that lost its trailing zeros denotes the same number. */
  lemma StrippedDenotes(d: DecimalJob)
    requires d.Valid() && d.Adaptive() && d.c.fractional > 0
    ensures var l := d.Layout();
            var r := Decimal(d.c.negative, Value(l.whole + l.frac, 10), |l.frac|);
            && Denotes(r, Shift(d.c.integral, d.precision) + d.c.fractional, d.precision)
            && r.digits > 0
            && (r.scaled % 10 == 0 <==> d.zeros > 0)
  {
    hide DigitChars, Value, Shift, Pow, PaddedDigits;
    var p, z, i := d.precision, d.zeros, d.c.integral;
    var s := Stripped(d.c.fractional, p);
    IntegralReads(d);
    FractionReads(s.0, s.1, z);
    NumberReads(Reverse(d.IntegralDigits()), i, s.0, s.1, z);
    var scaled := Shift(Shift(i, s.1) + s.0, z);
    SameShift(i, s.0, p, s.1, z);
    StrippedHasDigits(s.0, s.1);
    ShiftOfTen(i, s.1);
    if z > 0 {
      ShiftOfTen(Shift(i, s.1) + s.0, z);
    } else {
      ShiftZero(Shift(i, s.1) + s.0, 0.0);
    }
  }

  lemma StrippedHasDigits(f: nat, n: nat)
    requires 0 < f < Pow(10, n)
    ensures n > 0
  {
  }

  lemma SameShift(i: int, f: int, p: nat, n: nat, z: nat)
    requires n <= p
    ensures Shift(Shift(Shift(i, n) + f, z), p) == Shift(Shift(i, p) + Shift(f, p - n), n + z)
  {
    hide Shift;
    ShiftTwice(Shift(i, n) + f, z, p);
    ShiftSum(Shift(i, n), f, z + p);
    ShiftTwice(i, n, z + p);
    ShiftSum(Shift(i, p), Shift(f, p - n), n + z);
    ShiftTwice(i, p, n + z);
    ShiftTwice(f, p - n, n + z);
  }

  /** Without a fraction, zeros written beforehand stand behind the integer. */
  lemma BareIntegerDenotes(d: DecimalJob)
    requires d.Valid() && d.Adaptive() && d.c.fractional == 0
    ensures var l := d.Layout();
            var r := Decimal(d.c.negative, Value(l.whole + l.frac, 10), |l.frac|);
            && (Denotes(r, Shift(d.c.integral, d.precision) + d.c.fractional, d.precision)
                <==> d.zeros == 0 || d.c.integral == 0)
            && r.digits == 0
  {
    hide DigitChars, Value, Shift, Pow, PaddedDigits;
    var p, z, i := d.precision, d.zeros, d.c.integral;
    var w, l := Reverse(d.IntegralDigits()), d.Layout();
    IntegralReads(d);
    assert l.whole + l.frac == w + Repeat('0', z);
    ConcatShift(w, Repeat('0', z));
    ValueZeros(z, 10);
    assert Value(l.whole + l.frac, 10) == Shift(i, z);
    ShiftTwice(i, z, p);
    ShiftTwice(i, p, z);
    ShiftZero(Shift(i, p), 0.0);
    if z > 0 && i > 0 {
      PositiveShift(i, p);
      ShiftGrows(Shift(i, p), z);
    } else if i == 0 {
      ShiftOfZero(p);
      ShiftOfZero(z);
    } else {
      ShiftZero(i, 0.0);
    }
  }

  lemma ShiftOfZero(p: nat)
    ensures Shift(0, p) == 0
  {
  }

  lemma PositiveShift(i: nat, p: nat)
    requires i > 0
    ensures Shift(i, p) > 0
  {
    PowPositive(10, p);
    PositiveProduct(i, Pow(10, p));
  }

  /** Dropping trailing zeros of the fraction, in a buffer with room for everything: the
      number denoted stays the same, the last digit is not zero, and without a fraction there
      is no point. The zeros written beforehand spoil this: they stay behind the fraction, or
      turn an integer into a multiple of itself. */
  lemma AdaptiveThatFits(d: DecimalJob)
    requires d.Valid() && d.Adaptive() && d.Fits()
    ensures ReadDecimal(d.Field()).Some?
    ensures var r := ReadDecimal(d.Field()).value;
            && r.negative == d.c.negative
            && (Denotes(r, Shift(d.c.integral, d.precision) + d.c.fractional, d.precision)
                <==> d.zeros == 0 || d.c.fractional > 0 || d.c.integral == 0)
            && (r.digits > 0 <==> d.c.fractional > 0)
            && (d.c.fractional > 0 ==> (r.scaled % 10 == 0 <==> d.zeros > 0))
    ensures '.' in d.Field() <==> d.c.fractional > 0
  {
    hide Value, ReadDecimal, Denotes, Shift;
    AdaptiveLayout(d);
    FieldReadsAs(d);
    PointInField(d);
    if d.c.fractional > 0 {
      StrippedDenotes(d);
    } else {
      BareIntegerDenotes(d);
    }
  }

  /** The text denotes the number printed, sign included. */
  ghost predicate ReadsAsPrinted(d: DecimalJob)
    requires d.Valid()
  {
    var o := ReadDecimal(d.Field());
    && o.Some? && o.value.negative == d.c.negative
    && Denotes(o.value, Shift(d.c.integral, d.precision) + d.c.fractional, d.precision)
  }

  /** A fraction that does not fit leaves a text without its first digits, without any digit
      in front of the point, or without the point. */
  lemma CutFraction(d: DecimalJob)
    requires d.Valid() && d.Adaptive() && d.c.fractional > 0
    requires d.Layout().Valid() && d.Layout().Canonical() && |d.Layout().Body()| > BUFFER_SIZE
    ensures var o := d.Layout().CutReading();
            o.None? || !Denotes(o.value, Shift(d.c.integral, d.precision) + d.c.fractional, d.precision)
  {
    hide Value, Shift, Pow, DigitChars, PaddedDigits, Stripped;
    var l := d.Layout();
    var cut := |l.Body()| - BUFFER_SIZE;
    var n := Shift(d.c.integral, d.precision) + d.c.fractional;
    if cut < |l.whole| {
      StrippedDenotes(d);
      LostDigits(l.whole, cut, l.frac);
      ShiftMonotonic(Value(l.whole + l.frac, 10), Value(l.whole[cut..] + l.frac, 10), d.precision);
    } else if cut > |l.whole| {
      NotWhole(Value(l.frac[cut - |l.whole| - 1..], 10), d.c.integral, d.c.fractional, d.precision);
      ShiftZero(n, 0.0);
    }
  }

  /** No whole number equals one with a fraction. */
  lemma NotWhole(v: int, i: int, f: int, p: nat)
    requires 0 < f < Pow(10, p)
    ensures Shift(v, p) != Shift(i, p) + f
  {
    hide Pow, Shift;
    DifferenceOfShifts(v, i, p);
    ShiftMonotonic(v, i, p);
  }

  /** A whole number with zeros behind it that does not fit: the right number is read only
      if it is zero and the buffer is full of zeros. */
  lemma CutInteger(d: DecimalJob)
    requires d.Valid() && d.Adaptive() && d.c.fractional == 0 && |d.Layout().Body()| > BUFFER_SIZE
    ensures var o := d.Layout().CutReading();
            && o.Some? && !o.value.negative
            && (Denotes(o.value, Shift(d.c.integral, d.precision) + d.c.fractional, d.precision)
                <==> d.zeros == BUFFER_SIZE && d.c.integral == 0)
  {
    hide Value, Shift, Pow, DigitChars, PaddedDigits, Stripped, Repeat, Reverse, AllDigits;
    var l, i := d.Layout(), d.c.integral;
    var w := Reverse(d.IntegralDigits());
    var cut := |l.Body()| - BUFFER_SIZE;
    WholeAndZeros(d);
    IntegralReads(d);
    ShiftZero(Shift(i, d.precision), 0.0);
    ShiftSame(Value(l.whole[cut..], 10), i, d.precision);
    CutWhole(w, d.zeros, cut);
  }

  lemma WholeAndZeros(d: DecimalJob)
    requires d.Valid() && d.Adaptive() && d.c.fractional == 0
    ensures var l := d.Layout();
            && l.whole == Reverse(d.IntegralDigits()) + Repeat('0', d.zeros) && l.frac == "" && l.Body() == l.whole
            && forall k :: 0 <= k <= |l.whole| ==> l.whole[k..] + "" == l.whole[k..]
  {
    hide DigitChars, PaddedDigits, Stripped, Repeat;
    assert Reverse("") + Repeat('0', d.zeros) == Repeat('0', d.zeros);
  }

  /** What is left of a numeral with zeros behind it once its first digits are cut. */
  lemma CutWhole(w: string, z: nat, cut: nat)
    requires AllDigits(w, 10) && w != "" && (|w| == 1 || w[0] != '0') && z <= BUFFER_SIZE
    requires cut > 0 && cut == |w| + z - BUFFER_SIZE
    ensures Value((w + Repeat('0', z))[cut..], 10) == Value(w, 10) <==> z == BUFFER_SIZE && Value(w, 10) == 0
  {
    hide Value, Shift, Pow;
    var all := w + Repeat('0', z);
    ValueZeros(z, 10);
    if cut == |w| {
      assert all[cut..] == Repeat('0', z);
    } else {
      var lost, kept := w[..cut], w[cut..];
      assert w == lost + kept && all[cut..] == kept + Repeat('0', z);
      ConcatShift(lost, kept);
      ConcatShift(kept, Repeat('0', z));
      assert DigitValue(lost[0]) < 10;
      ValueBound(kept, 10);
      LeadingDigitCounts(lost);
      ZerosForLost(Value(kept, 10), z, |kept|, Value(lost, 10));
    }
  }

  lemma ShiftSame(a: int, b: int, p: nat)
    ensures Shift(a, p) == Shift(b, p) <==> a == b
  {
    ShiftMonotonic(a, b, p);
    ShiftMonotonic(b, a, p);
  }

  /** Zeros behind do not make up for digits lost in front. */
  lemma ZerosForLost(t: nat, z: nat, m: nat, q: nat)
    requires t < Pow(10, m) && q > 0
    ensures Shift(t, z) != Shift(q, m) + t
  {
    PowPositive(10, m);
    if z == 0 {
      ShiftZero(t, 0.0);
      PositiveShift(q, m);
    } else if Shift(t, z) == Shift(q, m) + t {
      var k := TenCoprime(t, z, m, q);
      AtLeastOne(k, m);
      ShiftOfZero(m);
      ShiftOfZero(z);
      PositiveShift(q, m);
    }
  }

  lemma AtLeastOne(k: nat, m: nat)
    ensures k > 0 ==> Shift(k, m) >= Pow(10, m)
  {
    ShiftMonotonic(1, k, m);
  }

  /** One less than a power of ten has no factor in common with ten. */
  lemma {:induction false} TenCoprime(t: nat, z: nat, m: nat, q: nat) returns (k: nat)
    requires z > 0 && Shift(t, z) == Shift(q, m) + t
    ensures t == Shift(k, m)
    decreases m
  {
    hide Pow, Shift;
    if m == 0 {
      k := t;
      ShiftZero(t, 0.0);
    } else {
      ShiftByOne(t, z - 1);
      ShiftByOne(q, m - 1);
      var u := t / 10;
      assert t == 10 * u;
      TenTimes(u, z);
      k := TenCoprime(u, z, m - 1, q);
      ShiftByOne(k, m - 1);
    }
  }

  lemma TenTimes(u: int, z: nat)
    ensures Shift(10 * u, z) == 10 * Shift(u, z)
  {
    assert 10 * u * Pow(10, z) == 10 * (u * Pow(10, z));
  }

  /** Adaptive mode: the text denotes the number printed exactly when everything fits the
      buffer and no zeros were written beforehand behind a whole number other than zero, or
      when the buffer is full of zeros and the number is zero. */
  lemma AdaptiveReadsBack(d: DecimalJob)
    requires d.Valid() && d.Adaptive()
    ensures ReadsAsPrinted(d)
            <==> (d.Fits() && (d.zeros == 0 || d.c.fractional > 0 || d.c.integral == 0))
                 || (d.zeros == BUFFER_SIZE && d.c.integral == d.c.fractional == 0 && !d.c.negative)
  {
    hide Value, ReadDecimal, Denotes, Shift, Justify, Tail, DigitChars, PaddedDigits, Stripped, Pow,
         DecimalLayout.CutReading;
    var l := d.Layout();
    AdaptiveLayout(d);
    FitsLayout(d);
    if d.Fits() {
      AdaptiveThatFits(d);
      FullOfZeros(d);
    } else {
      FieldIsTail(d);
      if |l.Body()| <= BUFFER_SIZE {
        UnsignedLayoutReads(l, d.width, d.flags.left, d.flags.zeropad);
      } else {
        CutLayoutReads(l, d.width, d.flags.left, d.flags.zeropad);
        CutSign(l);
        if d.c.fractional > 0 {
          CutFraction(d);
        } else {
          CutInteger(d);
        }
      }
    }
  }

  lemma CutSign(l: DecimalLayout)
    requires l.Valid() && |l.Body()| > BUFFER_SIZE
    ensures l.CutReading().Some? ==> !l.CutReading().value.negative
  {
  }

  lemma FullOfZeros(d: DecimalJob)
    requires d.Valid()
    ensures d.Fits() ==> d.zeros < BUFFER_SIZE
  {
    hide DigitChars, PaddedDigits, Stripped;
    assert d.IntegralDigits() != "" by {
      IntegralReads(d);
    }
  }

  // ----- room

  /** Digits after the point apart from the zeros written beforehand. */
  function Places(d: DecimalJob): nat
    requires d.Valid()
  {
    if !d.Adaptive() then d.precision
    else if d.c.fractional == 0 then 0
    else Stripped(d.c.fractional, d.precision).1
  }

  /** Whether a decimal fits, by what its caller can look at: precision, point and sign leave
      room for the digits of the integral part. */
  lemma FitsWhen(d: DecimalJob)
    requires d.Valid()
    ensures var room := BUFFER_SIZE - d.zeros - Places(d) - (if d.HasPoint() then 1 else 0)
                        - (if d.c.negative then 1 else 0);
            d.Fits() <==> room >= 1 && d.c.integral < Pow(10, room)
                          && !(d.c.negative && d.flags.ZeroFilled() && d.width > BUFFER_SIZE)
  {
    hide Pow, PaddedDigits, Stripped, DigitChars;
    var room := BUFFER_SIZE - d.zeros - Places(d) - (if d.HasPoint() then 1 else 0)
                - (if d.c.negative then 1 else 0);
    assert |d.FractionDigits()| == Places(d);
    assert |d.NumberChars()| == d.zeros + Places(d) + (if d.HasPoint() then 1 else 0) + |d.IntegralDigits()|;
    NonEmptyDigits(d.c.integral);
    if room >= 1 {
      DigitCount(d.c.integral, 10, false, room);
      PowPositive(10, room);
    }
  }

  /** The columns left for the digits before the point when `n` digits are asked for. */
  function Room(x: Float, n: nat, flags: Flags): int
  {
    BUFFER_SIZE - n - (if n > 0 || flags.hash then 1 else 0) - (if x.negative then 1 else 0)
  }

  /** When `%f` fits, by argument, precision, width and flags: the rounded argument has no
      more digits than there is room for, and zeros leave room for a minus sign. */
  predicate DecimalRoom(x: Float, n: nat, width: nat, flags: Flags)
    requires n <= MAX_PRECISION
  {
    && Room(x, n, flags) >= 1
    && Rounded(x, Min(n, MAX_SUPPORTED_PRECISION)) < Pow(10, Room(x, n, flags) + Min(n, MAX_SUPPORTED_PRECISION))
    && !(x.negative && flags.ZeroFilled() && width > BUFFER_SIZE)
  }

  lemma PrintedFitsWhen(x: Float, n: nat, width: nat, flags: Flags)
    requires 0.0 <= x.magnitude && n <= MAX_PRECISION && (!flags.adapt || flags.hash)
    ensures PrintedJob(x, n, width, flags).Fits() <==> DecimalRoom(x, n, width, flags)
  {
    hide Pow, Rounded, Shift, DecimalJob.Fits;
    var p, room := Min(n, MAX_SUPPORTED_PRECISION), Room(x, n, flags);
    FitsWhen(PrintedJob(x, n, width, flags));
    if room >= 1 {
      SplitParts(x, p);
      PowSplit(10, room, p);
      BelowShift(Split(x, p).integral, Split(x, p).fractional, p, Pow(10, room));
      ShiftIs(Pow(10, room), p);
    }
  }

  lemma ShiftIs(a: int, p: nat)
    ensures Shift(a, p) == a * Pow(10, p)
  {
  }

  lemma BelowShift(i: int, f: int, p: nat, r: int)
    requires 0 <= f < Pow(10, p)
    ensures Shift(i, p) + f < Shift(r, p) <==> i < r
  {
    hide Pow, Shift;
    DifferenceOfShifts(r, i, p);
    ShiftMonotonic(r, i, p);
  }

  lemma NonEmptyDigits(i: nat)
    ensures i > 0 ==> |DigitChars(i, 10, false)| > 0
  {
  }
}
