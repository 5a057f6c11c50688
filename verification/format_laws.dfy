/** Laws of whole formats: formatting is compositional, and every directive obeys the laws
    of the number or text it prints. */
module FormatLaws {
  import opened Text
  import opened Numerals
  import opened FormatFlags
  import opened Readers
  import opened DecimalParser
  import opened IntegerFields
  import DecimalLaws
  import opened FormatSpec

  // ----- compositionality

  /** The same point of the same directive, with more format and more arguments to come. */
  function Extend(s: Scan, g: string, b: seq<Arg>): Scan
  {
    match s
    case Next(flags, width, precision, rest, args) => Next(flags, width, precision, rest + g, args + b)
    case Stopped => Stopped
    case Undefined => Undefined
  }

  /** `r` was reached without looking past the end of the format. */
  predicate Inside(r: Scan) { r.Next? && r.rest != "" }

  lemma ExtendTail(s: Scan, g: string, b: seq<Arg>)
    requires Inside(s)
    ensures var e := Extend(s, g, b);
            && e.rest[0] == s.rest[0] && e.rest[1..] == s.rest[1..] + g
            && (e.args != [] ==> s.args == [] || e.args[0] == s.args[0])
    ensures s.args != [] ==> (s.args + b)[1..] == s.args[1..] + b && (s.args + b)[0] == s.args[0]
  {
  }

  lemma AdvanceExtends(s: Scan, g: string, b: seq<Arg>)
    requires Inside(s) && Inside(Advance(s))
    ensures Advance(Extend(s, g, b)) == Extend(Advance(s), g, b)
  {
    ExtendTail(s, g, b);
  }

  lemma LeadingDigitsExtend(t: string, g: string)
    requires LeadingDigits(t) < |t|
    ensures LeadingDigits(t + g) == LeadingDigits(t) && ParsedNumber(t + g) == ParsedNumber(t)
    ensures (t + g)[LeadingDigits(t)..] == t[LeadingDigits(t)..] + g
  {
    LeadingDigitsAre(t + g, LeadingDigits(t));
    assert (t + g)[..LeadingDigits(t)] == t[..LeadingDigits(t)];
  }

  lemma {:induction false} FlagsExtend(s: Scan, g: string, b: seq<Arg>)
    requires s.Next? && Inside(FlagStage(s))
    ensures FlagStage(Extend(s, g, b)) == Extend(FlagStage(s), g, b)
    decreases |s.rest|
  {
    ExtendTail(s, g, b);
    match WithFlag(s.rest[0], s.flags)
    case None =>
    case Some(f) =>
      var t := s.(flags := f, rest := s.rest[1..]);
      FlagsExtend(t, g, b);
      assert Extend(t, g, b) == Extend(s, g, b).(flags := f, rest := (s.rest + g)[1..]);
  }

  lemma WidthExtends(s: Scan, g: string, b: seq<Arg>)
    requires Inside(s) && Inside(WidthStage(s))
    ensures WidthStage(Extend(s, g, b)) == Extend(WidthStage(s), g, b)
  {
    ExtendTail(s, g, b);
    if IsDigit(s.rest[0]) {
      LeadingDigitsExtend(s.rest, g);
    } else if s.rest[0] == '*' {
      var w := s.args[0].v;
      var t := s.(flags := if w < 0 then s.flags.(left := true) else s.flags, width := AbsInt(w),
                  args := s.args[1..]);
      AdvanceExtends(t, g, b);
    }
  }

  lemma {:induction false} NegativeExtends(s: Scan, g: string, b: seq<Arg>)
    requires Inside(s) && Inside(SkipNegative(s))
    ensures SkipNegative(Extend(s, g, b)) == Extend(SkipNegative(s), g, b)
    decreases |s.rest|
  {
    var a := Advance(s);
    AdvanceExtends(s, g, b);
    ExtendTail(a, g, b);
    if IsDigit(a.rest[0]) {
      NegativeExtends(a, g, b);
    }
  }

  lemma PrecisionValueExtends(s: Scan, g: string, b: seq<Arg>)
    requires Inside(s) && Inside(PrecisionValue(s))
    ensures PrecisionValue(Extend(s, g, b)) == Extend(PrecisionValue(s), g, b)
  {
    ExtendTail(s, g, b);
    if s.rest[0] == '-' {
      NegativeExtends(s.(flags := s.flags.(precision := false)), g, b);
    } else if IsDigit(s.rest[0]) {
      LeadingDigitsExtend(s.rest, g);
    } else if s.rest[0] == '*' {
      var p := s.args[0].v;
      var t := s.(flags := s.flags.(precision := p >= 0), precision := Max(p, 0), args := s.args[1..]);
      AdvanceExtends(t, g, b);
    }
  }

  lemma PrecisionExtends(s: Scan, g: string, b: seq<Arg>)
    requires Inside(s) && Inside(PrecisionStage(s))
    ensures PrecisionStage(Extend(s, g, b)) == Extend(PrecisionStage(s), g, b)
  {
    ExtendTail(s, g, b);
    if s.rest[0] == '.' {
      var t := s.(flags := s.flags.(precision := true));
      AdvanceExtends(t, g, b);
      PrecisionValueExtends(Advance(t), g, b);
    }
  }

  lemma LengthExtends(s: Scan, g: string, b: seq<Arg>)
    requires Inside(s) && Inside(LengthStage(s))
    ensures LengthStage(Extend(s, g, b)) == Extend(LengthStage(s), g, b)
  {
    ExtendTail(s, g, b);
    hide WithLength, WithSecondLength;
    if WithLength(s.rest[0], s.flags).Some? {
      var t := s.(flags := WithLength(s.rest[0], s.flags).value);
      AdvanceExtends(t, g, b);
      SecondLengthExtends(s.rest[0], Advance(t), g, b);
    }
  }

  lemma SecondLengthExtends(c: char, s: Scan, g: string, b: seq<Arg>)
    requires Inside(s) && Inside(SecondLength(c, s))
    ensures SecondLength(c, Extend(s, g, b)) == Extend(SecondLength(c, s), g, b)
  {
    hide WithSecondLength;
    ExtendTail(s, g, b);
    if (c == 'l' || c == 'h') && s.rest[0] == c {
      AdvanceExtends(s.(flags := WithSecondLength(c, s.flags)), g, b);
    }
  }

  lemma DirectiveExtends(f: string, args: seq<Arg>, g: string, b: seq<Arg>)
    requires Inside(Directive(f, args))
    ensures Directive(f + g, args + b) == Extend(Directive(f, args), g, b)
  {
    var s0 := Next(NO_FLAGS, 0, 0, f, args);
    var s1 := FlagStage(s0);
    var s2 := WidthStage(s1);
    var s3 := PrecisionStage(s2);
    FlagsExtend(s0, g, b);
    WidthExtends(s1, g, b);
    PrecisionExtends(s2, g, b);
    LengthExtends(s3, g, b);
  }

  lemma ArgumentsExtend(c: char, flags: Flags, args: seq<Arg>, b: seq<Arg>)
    requires args != []
    ensures IntegerValue(c, flags, args + b) == IntegerValue(c, flags, args) && TakeInt(args + b) == TakeInt(args)
    ensures args + b != [] && (args + b)[0] == args[0]
  {
  }

  lemma ConvertExtends(s: Scan, g: string, b: seq<Arg>)
    requires Inside(s) && Convert(s).Printed?
    ensures Convert(Extend(s, g, b)) == Printed(Convert(s).text, Convert(s).args + b)
  {
    hide IntegerValue, TakeInt, Job.Field, CharField, NullField, StringField, DecimalLaws.PrintedJob, IsDecimal;
    ExtendTail(s, g, b);
    if s.args != [] {
      ArgumentsExtend(s.rest[0], s.flags, s.args, b);
    } else {
      NoValue(s.rest[0], s.flags);
    }
  }

  lemma NoValue(c: char, flags: Flags)
    ensures IntegerValue(c, flags, []) == None && TakeInt([]) == None
  {
  }

  lemma PrependTwice(t: string, u: string, o: Outcome)
    ensures Prepend(t, Prepend(u, o)) == Prepend(t + u, o)
    ensures Prepend("", o) == o
  {
    match o
    case Done(text, args) => assert t + (u + text) == t + u + text; assert "" + text == text;
    case Cut(text) => assert t + (u + text) == t + u + text; assert "" + text == text;
    case Bad =>
  }

  /** Formatting is compositional: a complete format followed by anything prints its own
      text, and then what the rest prints with the arguments it left. */
  lemma {:induction false} Compositional(f: string, a: seq<Arg>, g: string, b: seq<Arg>)
    requires Render(f, a).Done?
    ensures Render(f + g, a + b) == Prepend(Render(f, a).text, Render(g, Render(f, a).args + b))
    decreases |f|
  {
    if f == "" {
      assert f + g == g;
      PrependTwice("", "", Render(g, a + b));
    } else {
      assert (f + g)[0] == f[0] && (f + g)[1..] == f[1..] + g;
      if f[0] != '%' {
        Compositional(f[1..], a, g, b);
        PrependTwice([f[0]], Render(f[1..], a).text, Render(g, Render(f[1..], a).args + b));
      } else {
        var s := Directive(f[1..], a);
        DirectiveExtends(f[1..], a, g, b);
        ConvertExtends(s, g, b);
        ExtendTail(s, g, b);
        var c := Convert(s);
        Compositional(s.rest[1..], c.args, g, b);
        PrependTwice(c.text, Render(s.rest[1..], c.args).text,
                     Render(g, Render(s.rest[1..], c.args).args + b));
      }
    }
  }

  // ----- what the stages guarantee to the conversions

  /** A precision is only ever set together with its flag, and widths fit an unsigned int. */
  predicate Sound(s: Scan)
  {
    s.Next? ==> (!s.flags.precision ==> s.precision == 0) && s.width < SIZE_MODULUS
  }

  lemma {:induction false} FlagsSound(s: Scan)
    requires s.Next? && Sound(s) && !s.flags.precision
    ensures Sound(FlagStage(s)) && !FlagStage(s).flags.precision
    decreases |s.rest|
  {
    hide WithFlag;
    if s.rest != "" && WithFlag(s.rest[0], s.flags).Some? {
      FlagsSound(s.(flags := WithFlag(s.rest[0], s.flags).value, rest := s.rest[1..]));
    }
  }

  lemma {:induction false} NegativeSound(s: Scan)
    requires s.Next? && s.rest != "" && Sound(s)
    ensures Sound(SkipNegative(s))
    decreases |s.rest|
  {
    var a := Advance(s);
    if a.Next? && IsDigit(a.rest[0]) {
      NegativeSound(a);
    }
  }

  lemma DirectiveSound(f: string, args: seq<Arg>)
    ensures Sound(Directive(f, args))
  {
    var s0 := Next(NO_FLAGS, 0, 0, f, args);
    FlagsSound(s0);
    var s2 := WidthStage(FlagStage(s0));
    assert Sound(s2) && (s2.Next? ==> s2.precision == 0);
    PrecisionSound(s2);
    LengthSound(PrecisionStage(s2));
  }

  lemma PrecisionSound(s: Scan)
    requires Sound(s) && (s.Next? ==> s.precision == 0)
    ensures Sound(PrecisionStage(s))
  {
    if s.Next? && s.rest != "" && s.rest[0] == '.' {
      var a := Advance(s.(flags := s.flags.(precision := true)));
      if a.Next? {
        PrecisionValueSound(a);
      }
    }
  }

  lemma PrecisionValueSound(s: Scan)
    requires Inside(s) && Sound(s) && s.flags.precision && s.precision == 0
    ensures Sound(PrecisionValue(s))
  {
    if s.rest[0] == '-' {
      NegativeSound(s.(flags := s.flags.(precision := false)));
    }
  }

  lemma LengthSound(s: Scan)
    requires Sound(s)
    ensures Sound(LengthStage(s))
  {
    hide WithLength, WithSecondLength;
  }

  /** Whatever the format, print_integer is called with a legal combination of flags and in
      the range of a 64-bit magnitude. */
  lemma IntegerJobsAreLegal(s: Scan, v: int)
    requires Inside(s) && Sound(s) && IsIntegerSpecifier(s.rest[0])
    requires IntegerValue(s.rest[0], s.flags, s.args) == Some(v)
    ensures IntegerJob(s.rest[0], s, v).Legal()
    ensures IntegerJob(s.rest[0], s, v).Signed() == v
  {
  }

  /** An integer directive of any format prints a text that reads back as its argument,
      exactly within the limits of the buffer. */
  lemma IntegerDirectiveReadsBack(f: string, args: seq<Arg>, v: int)
    requires var s := Directive(f, args);
             Inside(s) && IsIntegerSpecifier(s.rest[0]) && IntegerValue(s.rest[0], s.flags, s.args) == Some(v)
    ensures var s := Directive(f, args);
            var j := IntegerJob(s.rest[0], s, v);
            Convert(s).Printed? && (ReadInteger(Convert(s).text, j.base) == Some(v) <==> j.WithinLimits())
  {
    hide Directive, ReadInteger, IntegerValue, Job.WithinLimits, Job.Field;
    var s := Directive(f, args);
    DirectiveSound(f, args);
    IntegerJobsAreLegal(s, v);
    ReadsBackWithinLimits(IntegerJob(s.rest[0], s, v));
  }

  // ----- widths of characters and strings

  lemma CharWidth(c: char, width: nat, flags: Flags)
    ensures |CharField(c, width, flags)| == Max(width, 1)
  {
  }

  /** A string fills its width exactly unless both it and the width pass INT_MAX, where the
      length counted for the padding stops. */
  lemma StringWidth(p: string, precision: nat, width: nat, flags: Flags)
    requires !flags.precision ==> precision == 0
    ensures var body := StringBody(p, precision, flags);
            |StringField(p, precision, width, flags)| == Max(width, |body|)
            <==> |body| <= INT_MAX || width <= INT_MAX || (flags.precision && precision > 0)
  {
  }

  /** The text for a null pointer ignores a width under zero padding. */
  lemma NullWidth(width: nat, flags: Flags)
    ensures |NullField(width, flags)| == Max(width, 6) <==> !(flags.ZeroFilled() && width > 6)
  {
  }
}
