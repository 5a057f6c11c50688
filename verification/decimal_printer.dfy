/** The decimal floating-point printer, in place on its 32-character scratch buffer, against
    the field it is to print. */
module DecimalPrinter {
  import opened Text
  import opened Numerals
  import opened FormatFlags
  import opened Gadget
  import opened Rounding
  import opened DecimalFields
  import opened DecimalLaws
  import opened IntegerPrinter

  /** PRINTF_DEFAULT_FLOAT_PRECISION */
  const DEFAULT_FLOAT_PRECISION: nat := 6

  /** The fraction digits, last one first: digits until nothing is left, then zeros. */
  method PushFraction(buf: array<char>, start: nat, f: nat, n: nat) returns (len: nat)
    requires buf.Length == BUFFER_SIZE && start <= BUFFER_SIZE
    requires n > 0 && f < Pow(10, n)
    modifies buf
    ensures len <= BUFFER_SIZE && buf[..len] == Clip(old(buf[..start]) + PaddedDigits(f, n))
  {
    hide Pow, Repeat;
    ghost var target := buf[..start] + PaddedDigits(f, n);
    var fractional: nat, count: nat := f, n;
    len := start;
    while len < BUFFER_SIZE
      invariant start <= len <= BUFFER_SIZE && count > 0
      invariant fractional < Pow(10, count)
      invariant buf[..len] + PaddedDigits(fractional, count) == target
      decreases BUFFER_SIZE - len
    {
      count := count - 1;
      var digit := DigitChar(fractional % 10, false);
      NextFractionDigit(fractional, count);
      ghost var before := buf[..len];
      buf[len] := digit;
      len := len + 1;
      assert buf[..len] == before + [digit];
      Regrouped(before, [digit], PaddedDigits(fractional / 10, count));
      fractional := fractional / 10;
      if fractional == 0 {
        break;
      }
    }
    while len < BUFFER_SIZE && count > 0
      invariant start <= len <= BUFFER_SIZE
      invariant len < BUFFER_SIZE ==> fractional == 0
      invariant buf[..len] + PaddedDigits(fractional, count) == target
    {
      ghost var before := buf[..len];
      buf[len] := '0';
      len := len + 1;
      count := count - 1;
      NextZero(count);
      assert buf[..len] == before + ['0'];
      Regrouped(before, ['0'], PaddedDigits(0, count));
    }
    ClipReached(buf[..len], PaddedDigits(fractional, count));
  }

  lemma NextFractionDigit(f: nat, n: nat)
    requires f < Pow(10, n + 1)
    ensures f / 10 < Pow(10, n) && (f / 10 > 0 ==> n > 0)
    ensures PaddedDigits(f, n + 1) == [DigitChar(f % 10, false)] + PaddedDigits(f / 10, n)
  {
  }

  lemma NextZero(n: nat)
    ensures PaddedDigits(0, n + 1) == ['0'] + PaddedDigits(0, n)
  {
  }

  /** The digits before the point, last one first; at least one if there is room. */
  method PushIntegral(buf: array<char>, start: nat, i: nat) returns (len: nat)
    requires buf.Length == BUFFER_SIZE && start <= BUFFER_SIZE
    modifies buf
    ensures len <= BUFFER_SIZE && buf[..len] == Clip(old(buf[..start]) + IntegralText(i))
  {
    hide IntegralText;
    ghost var target := buf[..start] + IntegralText(i);
    ghost var rest := IntegralText(i);
    var integral := i;
    len := start;
    while len < BUFFER_SIZE
      invariant start <= len <= BUFFER_SIZE
      invariant rest == IntegralText(integral)
      invariant buf[..len] + rest == target
      decreases BUFFER_SIZE - len
    {
      var digit := DigitChar(integral % 10, false);
      NextIntegralDigit(integral);
      ghost var before := buf[..len];
      buf[len] := digit;
      len := len + 1;
      integral := integral / 10;
      rest := if integral == 0 then "" else IntegralText(integral);
      assert buf[..len] == before + [digit];
      Regrouped(before, [digit], rest);
      if integral == 0 {
        break;
      }
    }
    ClipReached(buf[..len], rest);
  }

  lemma NextIntegralDigit(i: nat)
    ensures IntegralText(i) == [DigitChar(i % 10, false)] + (if i / 10 == 0 then "" else IntegralText(i / 10))
  {
    if i < 10 {
      assert i / 10 == 0 && i % 10 == i;
      assert i > 0 ==> DigitChars(i, 10, false) == [DigitChar(i, false)] + DigitChars(0, 10, false);
    }
  }

  /** The digits of the fraction, without trailing zeros in adaptive mode, and the point. */
  method PushFractionAndPoint(buf: array<char>, start: nat, c: Components, precision: nat, flags: Flags,
                              ghost d: DecimalJob)
    returns (len: nat)
    requires buf.Length == BUFFER_SIZE && start <= BUFFER_SIZE
    requires d.Valid() && d.c == c && d.precision == precision && d.flags == flags
    modifies buf
    ensures len <= BUFFER_SIZE
    ensures buf[..len] == Clip(old(buf[..start]) + d.FractionDigits() + (if d.HasPoint() then "." else ""))
  {
    hide PaddedDigits;
    ghost var before := buf[..start];
    len := start;
    if precision != 0 {
      var count, fractional := precision, c.fractional;
      if flags.adapt && !flags.hash && fractional > 0 {
        while fractional % 10 == 0
          invariant 0 < fractional < Pow(10, count)
          invariant Stripped(c.fractional, precision) == Stripped(fractional, count)
          decreases fractional
        {
          count := count - 1;
          fractional := fractional / 10;
        }
      }
      if fractional > 0 || !flags.adapt || flags.hash {
        len := PushFraction(buf, start, fractional, count);
        ghost var digits := PaddedDigits(fractional, count);
        assert digits == d.FractionDigits();
        len := Push(buf, len, '.');
        ClipConcat(before + digits, ".");
      } else {
        assert before + "" + "" == before;
      }
    } else {
      assert before + "" == before;
      if flags.hash {
        len := Push(buf, len, '.');
      }
      assert d.FractionDigits() == "";
    }
  }

  /** Fraction, point and integral part, from the last character to the first. */
  method PushDecimal(buf: array<char>, start: nat, c: Components, precision: nat, flags: Flags,
                     ghost d: DecimalJob)
    returns (len: nat)
    requires buf.Length == BUFFER_SIZE && start <= BUFFER_SIZE && buf[..start] == Repeat('0', start)
    requires d.Valid() && d == DecimalJob(c, start, precision, d.width, flags)
    modifies buf
    ensures len <= BUFFER_SIZE && buf[..len] == Clip(d.NumberChars())
  {
    hide PaddedDigits, DigitChars, Stripped;
    ghost var zeros, f, p := buf[..start], d.FractionDigits(), if d.HasPoint() then "." else "";
    len := PushFractionAndPoint(buf, start, c, precision, flags, d);
    len := PushIntegral(buf, len, c.integral);
    ClipConcat(zeros + f + p, d.IntegralDigits());
  }

  /** print_broken_up_decimal: `start` zeros have been written already. */
  method PrintBrokenUpDecimal(c: Components, out: OutputGadget, precision: nat, width: nat, flags: Flags,
                              buf: array<char>, start: nat, ghost d: DecimalJob)
    requires out.Valid() && width < SIZE_MODULUS && buf != out.buffer
    requires buf.Length == BUFFER_SIZE && start <= BUFFER_SIZE && buf[..start] == Repeat('0', start)
    requires d.Valid() && d == DecimalJob(c, start, precision, width, flags)
    modifies out, out.buffer, buf
    ensures out.Valid() && out.emitted == old(out.emitted) + d.Field()
  {
    hide PaddedDigits, DigitChars, Stripped, Reverse;
    var len := PushDecimal(buf, start, c, precision, flags, d);
    ghost var number := buf[..len];

    var fill := width;
    if !flags.left && flags.zeropad {
      if fill > 0 && (c.negative || flags.plus || flags.space) {
        fill := fill - 1;
      }
      len := PushZeros(buf, len, fill);
    }
    ZeroFilled(d, buf[..len], number);
    len := PushSign(buf, len, c.negative, flags);
    ClipConcat(d.NumberChars() + Repeat('0', d.Fill()), SignChar(c.negative, flags));
    OutRev(out, buf[..len], fill, flags);
  }

  lemma ZeroFilled(d: DecimalJob, filled: string, number: string)
    requires d.Valid() && number == Clip(d.NumberChars())
    requires if d.flags.ZeroFilled()
             then |filled| == Max(|number|, Min(FillWidth(d.c.negative, d.width, d.flags), BUFFER_SIZE))
                  && filled == number + Repeat('0', |filled| - |number|)
             else filled == number
    ensures filled == Clip(d.NumberChars() + Repeat('0', d.Fill()))
  {
    hide PaddedDigits, DigitChars, Stripped;
    var n := d.NumberChars();
    if |n| >= BUFFER_SIZE || d.Fill() == 0 {
      assert filled == number;
      assert n + Repeat('0', 0) == n;
      ClipLong(n, Repeat('0', d.Fill()));
    } else {
      var k := |filled| - |n|;
      RepeatSplit('0', k, d.Fill() - k);
      Regrouped(n, Repeat('0', k), Repeat('0', d.Fill() - k));
      ClipLong(filled, Repeat('0', d.Fill() - k));
    }
  }

  lemma ClipLong(a: string, b: string)
    ensures |a| >= BUFFER_SIZE ==> Clip(a + b) == Clip(a)
    ensures b == "" ==> Clip(a + b) == Clip(a)
  {
    if b == "" {
      assert a + b == a;
    }
  }

  /** The precision print_floating_point uses. */
  function EffectivePrecision(precision: nat, flags: Flags): nat
  {
    if flags.precision then precision else DEFAULT_FLOAT_PRECISION
  }

  /** print_floating_point and print_decimal_number, for a finite number printed in decimal
      notation. */
  method PrintFloatingPoint(out: OutputGadget, x: Float, precision: nat, width: nat, flags: Flags)
    requires out.Valid() && width < SIZE_MODULUS
    requires 0.0 <= x.magnitude <= 1_000_000_000.0 && EffectivePrecision(precision, flags) <= MAX_PRECISION
    modifies out, out.buffer
    ensures out.Valid()
    ensures out.emitted == old(out.emitted)
                           + PrintedJob(x, EffectivePrecision(precision, flags), width, flags).Field()
  {
    hide Pow, Rounded, Shift;
    var buf := new char[BUFFER_SIZE];
    var len, digits := 0, if flags.precision then precision else DEFAULT_FLOAT_PRECISION;
    ghost var asked := digits;
    while len < BUFFER_SIZE && digits > MAX_SUPPORTED_PRECISION
      invariant 0 <= len <= BUFFER_SIZE && digits + len == asked
      invariant len > 0 ==> digits >= MAX_SUPPORTED_PRECISION
      invariant buf[..len] == Repeat('0', len)
      modifies buf
    {
      buf[len] := '0';
      len := len + 1;
      digits := digits - 1;
    }
    var c := GetComponents(x, digits);
    SplitIs(x, digits, c);
    PrintBrokenUpDecimal(c, out, digits, width, flags, buf, len, PrintedJob(x, asked, width, flags));
  }
}
