/** Integers and decimals come out as the standard has them, exactly when the scratch buffer
    has room for them. */
module StandardLaws {
  import opened Text
  import opened Numerals
  import opened FormatFlags
  import opened Readers
  import opened IntegerFields
  import opened Rounding
  import opened DecimalFields
  import opened DecimalLaws
  import opened StandardText

  // ----- integers

  /** The text of an integer apart from padding. */
  function BareInteger(j: Job): string
    requires IsBase(j.base)
  {
    IntegerHead(j.value, j.negative, j.base, j.flags.upper, true, j.flags, j.precision)
    + DigitsOf(j.value, j.base, j.flags.upper, j.flags, j.precision)
  }

  lemma ZeroNumeral(base: nat, upper: bool)
    requires IsBase(base)
    ensures Numeral(0, base, upper) == "0"
  {
  }

  /** A numeral is made of digits, and the first one is zero only for zero. */
  lemma NumeralDigits(v: nat, base: nat, upper: bool)
    requires IsBase(base)
    ensures AllDigits(Numeral(v, base, upper), base)
    ensures v > 0 ==> Numeral(v, base, upper)[0] != '0'
  {
    hide Numeral, DigitChars;
    if v == 0 {
      ZeroNumeral(base, upper);
    } else {
      NumeralIs(v, base, upper);
      DigitCharsAreDigits(v, base, upper);
      ReverseDigits(DigitChars(v, base, upper), base);
      TopDigit(v, base, upper);
      ReverseElements(DigitChars(v, base, upper));
    }
  }

  lemma DigitsOfAre(v: nat, base: nat, upper: bool, flags: Flags, precision: nat)
    requires IsBase(base)
    ensures var t := DigitsOf(v, base, upper, flags, precision);
            && AllDigits(t, base) && |t| >= precision
            && (t == "" <==> v == 0 && flags.precision && precision == 0)
            && (t != "" && t[0] == '0' <==>
                  if v == 0 then precision > 0 || !flags.precision else precision > |Numeral(v, base, upper)|)
  {
    hide Numeral;
    NumeralDigits(v, base, upper);
    ZeroNumeral(base, upper);
    RepeatElements('0', precision - |Numeral(v, base, upper)|);
    RepeatElements('0', precision);
  }

  lemma BareIsNumberLike(j: Job)
    requires j.Legal()
    ensures NumberLike(BareInteger(j))
  {
    hide DigitsOf, Numeral;
    DigitsOfAre(j.value, j.base, j.flags.upper, j.flags, j.precision);
    var t := DigitsOf(j.value, j.base, j.flags.upper, j.flags, j.precision);
    assert forall i :: 0 <= i < |t| ==> t[i] != ' ' by {
      assert DigitValue(' ') == 16;
    }
  }

  /** What the buffer holds, read the right way round. */
  function Kept(s: Shape): string
    requires s.Valid()
  {
    Reverse(s.Parts().Buffer())
  }

  /** The digits are those of the numeral, with the zeros of the precision. */
  lemma RunIs(j: Job)
    requires j.Legal() && (j.flags.ZeroFilled() ==> j.width == 0)
    requires |DigitsOf(j.value, j.base, j.flags.upper, j.flags, j.precision)| <= BUFFER_SIZE
    ensures j.Plan().Parts().Run() == DigitsOf(j.value, j.base, j.flags.upper, j.flags, j.precision)
  {
    hide Numeral, DigitChars;
    var t := Reverse(j.Plan().digits);
    if j.value == 0 {
      ZeroNumeral(j.base, j.flags.upper);
      ReverseOne('0');
      if j.precision > 0 {
        RepeatFront('0', j.precision - 1);
      }
    } else {
      NumeralIs(j.value, j.base, j.flags.upper);
    }
  }

  lemma PrefixIs(j: Job)
    requires j.Legal() && (j.flags.ZeroFilled() ==> j.width == 0)
    requires |DigitsOf(j.value, j.base, j.flags.upper, j.flags, j.precision)| <= BUFFER_SIZE
    ensures j.Plan().Parts().prefix
            == PrefixOf(j.value, j.base, j.flags.upper,
                        DigitsOf(j.value, j.base, j.flags.upper, j.flags, j.precision), j.flags)
  {
    hide Numeral, DigitChars;
    DigitsOfAre(j.value, j.base, j.flags.upper, j.flags, j.precision);
    if j.value == 0 {
      ZeroNumeral(j.base, j.flags.upper);
    } else {
      NumeralIs(j.value, j.base, j.flags.upper);
    }
  }

  /** A text starts with a space only for a sign. */
  lemma SpaceInFront(j: Job)
    requires j.Legal() && BareInteger(j) != "" && BareInteger(j)[0] == ' '
    ensures IntegerHead(j.value, j.negative, j.base, j.flags.upper, true, j.flags, j.precision) == " "
    ensures SignChar(j.negative, j.flags) == " " && j.base == 10
  {
    hide Numeral, DigitsOf;
    DigitsOfAre(j.value, j.base, j.flags.upper, j.flags, j.precision);
    assert DigitValue(' ') == 16;
  }

  /** Without zero filling the buffer holds the whole text, if it fits, or all of it but a
      space in front. */
  lemma KeptUnfilled(j: Job)
    requires j.Legal() && (j.flags.ZeroFilled() ==> j.width == 0)
    ensures var bare := BareInteger(j);
            && |Kept(j.Plan())| <= BUFFER_SIZE
            && (|bare| <= BUFFER_SIZE ==> Kept(j.Plan()) == bare)
            && (|bare| == BUFFER_SIZE + 1 && bare[0] == ' ' ==> Kept(j.Plan()) == bare[1..])
  {
    hide Numeral, DigitChars, DigitsOf, PrefixOf, Reverse, Layout.Run, Layout.Head, Shape.RunLength,
         Shape.ZeroExtended, NumberDigits;
    var t := DigitsOf(j.value, j.base, j.flags.upper, j.flags, j.precision);
    var l := j.Plan().Parts();
    BufferReads(l);
    if |BareInteger(j)| == BUFFER_SIZE + 1 && BareInteger(j)[0] == ' ' {
      SpaceInFront(j);
    }
    if |t| <= BUFFER_SIZE {
      RunIs(j);
      PrefixIs(j);
      HeadCases(l);
    }
  }

  /** Digits without a precision. */
  lemma DigitsPlain(j: Job)
    requires j.Legal() && !j.flags.precision
    requires |DigitsOf(j.value, j.base, j.flags.upper, j.flags, j.precision)| <= BUFFER_SIZE
    ensures j.Plan().Parts().digits == DigitsOf(j.value, j.base, j.flags.upper, j.flags, j.precision)
  {
    hide Numeral, DigitChars;
    if j.value == 0 {
      ZeroNumeral(j.base, j.flags.upper);
      ReverseOne('0');
    } else {
      NumeralIs(j.value, j.base, j.flags.upper);
    }
  }

  /** A binary number with prefix that fits has at most 30 digits. */
  lemma BinaryFits(j: Job)
    requires j.Legal() && !j.flags.precision && |BareInteger(j)| <= BUFFER_SIZE
    ensures !(j.base == 2 && j.flags.hash && j.value >= 0x4000_0000)
  {
    hide Numeral, DigitChars;
    if j.base == 2 && j.flags.hash && j.value >= 0x4000_0000 {
      NumeralIs(j.value, 2, j.flags.upper);
      DigitCount(j.value, 2, j.flags.upper, 30);
      BinaryPowers();
    }
  }

  /** With zero filling, zeros up to the width stand behind sign and prefix. */
  lemma KeptFilled(j: Job)
    requires j.Legal() && j.flags.ZeroFilled()
    ensures |Kept(j.Plan())| <= BUFFER_SIZE && j.Field() == Kept(j.Plan())
    ensures |BareInteger(j)| <= BUFFER_SIZE && j.width <= BUFFER_SIZE ==>
              Kept(j.Plan())
              == IntegerHead(j.value, j.negative, j.base, j.flags.upper, true, j.flags, j.precision)
                 + Repeat('0', j.width - |BareInteger(j)|)
                 + DigitsOf(j.value, j.base, j.flags.upper, j.flags, j.precision)
  {
    hide Numeral, DigitChars, DigitsOf, PrefixOf, Reverse, Layout.Run, Layout.Head, Shape.RunLength,
         Shape.ZeroExtended, NumberDigits, Shape.Prefix, Shape.HasPrefix;
    if |BareInteger(j)| <= BUFFER_SIZE && j.width <= BUFFER_SIZE {
      var b := j.(width := 0);
      assert BareInteger(b) == BareInteger(j);
      KeptUnfilled(b);
      PrefixIs(b);
      DigitsPlain(b);
      BinaryFits(j);
      ZeroPadding(j);
    }
  }

  /** An integer comes out as the standard has it exactly when the scratch buffer has room
      for it and for its zeros; a space in front that is lost does not show in padding. */
  lemma IntegerIsStandard(j: Job)
    requires j.Legal()
    ensures j.Field()
            == IntegerText(j.value, j.negative, j.base, j.flags.upper, true, j.flags, j.precision, j.width)
            <==> Uncut(BareInteger(j), j.width, j.flags.left, j.flags.zeropad)
  {
    hide Numeral, DigitChars, DigitsOf, IntegerHead, Reverse, Layout.Run, Layout.Head, Shape.Parts, Layout.Buffer;
    var head := IntegerHead(j.value, j.negative, j.base, j.flags.upper, true, j.flags, j.precision);
    var body := DigitsOf(j.value, j.base, j.flags.upper, j.flags, j.precision);
    BareIsNumberLike(j);
    if BareInteger(j) != "" && BareInteger(j)[0] == ' ' {
      SpaceInFront(j);
    }
    if j.flags.ZeroFilled() {
      KeptFilled(j);
    } else {
      KeptUnfilled(j);
      assert head + Repeat('0', 0) + body == head + body;
      assert head == " " ==> (head + body)[1..] == body && (head + body)[0] == ' ';
    }
    CutField(head, body, Kept(j.Plan()), j.width, j.flags.left, j.flags.zeropad);
  }

  // ----- decimals

  lemma WholeIs(i: nat)
    ensures Reverse(IntegralText(i)) == Numeral(i, 10, false)
  {
    hide Numeral, DigitChars;
    if i == 0 {
      ZeroNumeral(10, false);
      ReverseOne('0');
    } else {
      NumeralIs(i, 10, false);
    }
  }

  /** Whole part, point and digits after the point are those of the rounded argument. */
  lemma BodyIs(x: Float, n: nat, width: nat, flags: Flags)
    requires 0.0 <= x.magnitude && n <= MAX_PRECISION && (!flags.adapt || flags.hash)
    ensures var p := Min(n, MAX_SUPPORTED_PRECISION);
            Rounded(x, p) >= 0
            && PrintedJob(x, n, width, flags).Layout().Body() == DecimalBody(Rounded(x, p), p, n, flags)
  {
    hide Numeral, DigitChars, LastDigits, PaddedDigits, Pow, Rounded, Reverse, Repeat;
    var p := Min(n, MAX_SUPPORTED_PRECISION);
    var d := PrintedJob(x, n, width, flags);
    RoundedNonNegative(x, p);
    SplitParts(x, p);
    PowPositive(10, p);
    WholeIs(d.c.integral);
    LastDigitsAre(d.c.fractional, p);
    LastDigitsOfRest(Rounded(x, p), p);
    BodyPieces(d.Layout(), d.HasPoint(), Reverse(d.IntegralDigits()), Reverse(d.FractionDigits()), n - p);
  }

  lemma BodyPieces(l: DecimalLayout, point: bool, whole: string, frac: string, zeros: nat)
    requires l.whole == (if point then whole else whole + (frac + Repeat('0', zeros)))
    requires l.point == (if point then "." else "") && l.frac == (if point then frac + Repeat('0', zeros) else "")
    requires !point ==> frac == "" && zeros == 0
    ensures l.Body() == whole + (if point then "." else "") + (frac + Repeat('0', zeros))
  {
  }

  /** The end of a long text, and all of a short one. */
  lemma TailCases(d: DecimalJob)
    requires d.Valid()
    ensures var head, body := SignOf(d.c.negative, d.flags), d.Layout().Body();
            var kept := Tail(d.Layout().Full());
            && |kept| <= BUFFER_SIZE
            && (|head| + |body| <= BUFFER_SIZE && (d.flags.ZeroFilled() ==> d.width <= BUFFER_SIZE) ==>
                  kept == head + Repeat('0', if d.flags.ZeroFilled() then d.width - |head| - |body| else 0) + body)
            && (|head| + |body| == BUFFER_SIZE + 1 && head == " " && !d.flags.ZeroFilled() ==> kept == body)
  {
    hide DigitChars, PaddedDigits, Stripped, DecimalLayout.Body, Reverse;
    FitsLayout(d);
    var head, fill, body := SignOf(d.c.negative, d.flags), d.Fill(), d.Layout().Body();
    assert d.Layout().Full() == head + Repeat('0', fill) + body;
    if fill == 0 {
      assert head + "" + body == head + body;
      assert head == " " ==> (head + body)[1..] == body;
    }
  }

  lemma DecimalIsNumberLike(head: string, l: DecimalLayout)
    requires l.Valid() && |head| <= 1
    ensures NumberLike(head + l.Body()) && l.Body() != "" && l.Body()[0] != ' '
  {
    assert DigitValue(' ') == 16;
  }

  /** A decimal comes out as the standard has it, with the digits of the argument rounded half
      to even and zeros beyond the seventeenth place, exactly when it fits the scratch buffer. */
  lemma DecimalIsStandard(x: Float, n: nat, width: nat, flags: Flags)
    requires 0.0 <= x.magnitude && n <= MAX_PRECISION && (!flags.adapt || flags.hash)
    ensures var p := Min(n, MAX_SUPPORTED_PRECISION);
            var r := Rounded(x, p);
            && r >= 0
            && (PrintedJob(x, n, width, flags).Field() == DecimalText(x.negative, r, p, n, flags, width)
                <==> Uncut(SignOf(x.negative, flags) + DecimalBody(r, p, n, flags), width, flags.left, flags.zeropad))
  {
    hide DecimalBody, DigitChars, PaddedDigits, Stripped, Pow, Rounded, Reverse, Repeat, Tail, DecimalLayout.Full,
         DecimalLayout.Body, Value, Shift, Padded, Uncut, Justify, DecimalJob.Field, NumberLike, DecimalLayout.Valid,
         DecimalJob.Layout;
    var d := PrintedJob(x, n, width, flags);
    var head := SignOf(x.negative, flags);
    var body := d.Layout().Body();
    SplitParts(x, Min(n, MAX_SUPPORTED_PRECISION));
    BodyIs(x, n, width, flags);
    PlainLayout(d);
    DecimalIsNumberLike(head, d.Layout());
    FieldIsTail(d);
    TailCases(d);
    CutField(head, body, Tail(d.Layout().Full()), width, flags.left, flags.zeropad);
  }
}
