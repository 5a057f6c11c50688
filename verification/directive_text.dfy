/** Writing a directive down and parsing it: the notation
    `%[flags][width][.precision][length]specifier` says what it is meant to. */
module DirectiveText {
  import opened Text
  import opened Numerals
  import opened FormatFlags
  import opened Readers
  import opened DecimalParser
  import opened IntegerFields
  import opened Rounding
  import opened DecimalFields
  import opened DecimalLaws
  import opened DecimalPrinter
  import opened FormatSpec
  import opened FormatLaws

  function Chosen(on: bool, c: char): string { if on then [c] else "" }

  function FlagsText(flags: Flags): string
  {
    Chosen(flags.zeropad, '0') + (Chosen(flags.left, '-') + (Chosen(flags.plus, '+')
                                  + (Chosen(flags.space, ' ') + Chosen(flags.hash, '#'))))
  }

  function WidthText(width: nat): string { if width == 0 then "" else PlainText(width) }

  function PrecisionText(precision: nat, flags: Flags): string
  {
    if flags.precision then "." + PlainText(precision) else ""
  }

  /** Characters that end a directive: the specifiers and all others that are no flag, no
      digit, no asterisk, no point and no length modifier. */
  predicate EndsDirective(c: char)
  {
    c !in "0-+ #*." && !IsDigit(c) && c !in "lLhjtz"
  }

  /** The length modifiers. */
  datatype Length = Plain | Char | Short | Long | LongLong | Max | Size | Ptrdiff | LongDouble

  function LengthText(length: Length): string
  {
    match length
    case Plain => ""
    case Char => "hh"
    case Short => "h"
    case Long => "l"
    case LongLong => "ll"
    case Max => "j"
    case Size => "z"
    case Ptrdiff => "t"
    case LongDouble => "L"
  }

  /** The size flags of a length modifier, in the order of the datatype. */
  function SizesOf(length: Length): Sizes
  {
    Sizes(length.Char?, length.Char? || length.Short?, length.Long? || length.LongLong?,
          length.LongLong? || length.Max?, length.LongDouble?)
  }

  /** A directive as one writes it. */
  datatype Written = Written(flags: Flags, width: nat, precision: nat, length: Length, specifier: char)
  {
    predicate Valid()
    {
      && Writable(flags, width, precision) && EndsDirective(specifier)
    }

    /** What follows the percent sign, with more behind it. */
    function Text(after: string): string
    {
      FlagsText(flags) + (WidthText(width) + (PrecisionText(precision, flags)
                          + (LengthText(length) + ([specifier] + after))))
    }

    function Format(): string { "%" + Text("") }

    /** What parsing it should give. */
    function Parsed(after: string, args: seq<Arg>): (s: Scan)
      ensures s.Next?
    {
      Next(flags.(sizes := SizesOf(length)), width, precision, [specifier] + after, args)
    }
  }

  /** The flags one can write, without a length. */
  predicate Writable(flags: Flags, width: nat, precision: nat)
  {
    && flags.sizes == NO_FLAGS.sizes && !flags.upper && !flags.adapt
    && width < SIZE_MODULUS && precision < SIZE_MODULUS && (!flags.precision ==> precision == 0)
  }

  lemma PrecisionIsNoFlag(flags: Flags)
    ensures FlagsText(flags.(precision := false)) == FlagsText(flags)
  {
  }

  lemma OneFlag(s: Scan, on: bool, c: char, after: string)
    requires s.Next? && s.rest == Chosen(on, c) + after && WithFlag(c, s.flags).Some?
    ensures FlagStage(s) == FlagStage(s.(flags := if on then WithFlag(c, s.flags).value else s.flags, rest := after))
  {
    if on {
      assert s.rest[1..] == after;
    } else {
      assert s.rest == after;
    }
  }

  lemma Grouped(a: string, b: string, c: string, d: string, e: string, after: string)
    ensures (a + (b + (c + (d + e)))) + after == a + (b + (c + (d + (e + after))))
  {
  }

  lemma FlagsRead(flags: Flags, after: string, args: seq<Arg>)
    requires flags == NO_FLAGS.(zeropad := flags.zeropad, left := flags.left, plus := flags.plus,
                                space := flags.space, hash := flags.hash)
    requires after != "" ==> WithFlag(after[0], flags).None?
    ensures FlagStage(Next(NO_FLAGS, 0, 0, FlagsText(flags) + after, args)) == Next(flags, 0, 0, after, args)
  {
    hide FlagStage, Chosen;
    var t4 := Chosen(flags.hash, '#') + after;
    var t3 := Chosen(flags.space, ' ') + t4;
    var t2 := Chosen(flags.plus, '+') + t3;
    var t1 := Chosen(flags.left, '-') + t2;
    Grouped(Chosen(flags.zeropad, '0'), Chosen(flags.left, '-'), Chosen(flags.plus, '+'),
            Chosen(flags.space, ' '), Chosen(flags.hash, '#'), after);
    OneFlag(Next(NO_FLAGS, 0, 0, FlagsText(flags) + after, args), flags.zeropad, '0', t1);
    var f1 := NO_FLAGS.(zeropad := flags.zeropad);
    OneFlag(Next(f1, 0, 0, t1, args), flags.left, '-', t2);
    var f2 := f1.(left := flags.left);
    OneFlag(Next(f2, 0, 0, t2, args), flags.plus, '+', t3);
    var f3 := f2.(plus := flags.plus);
    OneFlag(Next(f3, 0, 0, t3, args), flags.space, ' ', t4);
    var f4 := f3.(space := flags.space);
    OneFlag(Next(f4, 0, 0, t4, args), flags.hash, '#', after);
    FlagsEnd(Next(flags, 0, 0, after, args));
  }

  lemma FlagsEnd(s: Scan)
    requires s.Next? && (s.rest != "" ==> WithFlag(s.rest[0], s.flags).None?)
    ensures FlagStage(s) == s
  {
  }

  lemma PlainDigits(v: nat)
    requires v < SIZE_MODULUS
    ensures PlainText(v) == Reverse(if v == 0 then "0" else DigitChars(v, 10, false))
    ensures AllDigits(PlainText(v), 10)
  {
    PlainDecimal(v);
    hide DigitChars, Value, AllDigits;
    var s := Job(v, false, 10, 0, 0, NO_FLAGS).Plan();
    DigitBounds(v, 10, false);
    FieldText(s);
    assert s.Parts().zeros == 0;
    assert s.Field() == Reverse(s.digits);
  }

  /** A number is written with a digit in front, not zero unless the number is. */
  lemma PlainStart(v: nat)
    requires v < SIZE_MODULUS
    ensures PlainText(v) != "" && IsDigit(PlainText(v)[0]) && (v > 0 ==> PlainText(v)[0] != '0')
  {
    hide PlainText, DigitChars, Reverse, AllDigits;
    PlainDigits(v);
    if v > 0 {
      TopDigit(v, 10, false);
      LastBecomesFirst(DigitChars(v, 10, false));
    } else {
      LastBecomesFirst("0");
    }
    FirstIsDigit(PlainText(v));
  }

  lemma LastBecomesFirst(s: string)
    requires s != ""
    ensures Reverse(s) != "" && Reverse(s)[0] == s[|s| - 1]
  {
  }

  lemma FirstIsDigit(t: string)
    requires t != "" && AllDigits(t, 10)
    ensures IsDigit(t[0])
  {
    assert DigitValue(t[0]) < 10;
  }

  lemma NumberThenRest(v: nat, after: string)
    requires v < SIZE_MODULUS && (after != "" ==> !IsDigit(after[0]))
    ensures var t := PlainText(v) + after;
            ParsedNumber(t) == v && t[LeadingDigits(t)..] == after
  {
    hide PlainText, ParsedNumber, LeadingDigits;
    PrintedNumberParses(v, after);
  }

  lemma WidthRead(s: Scan, width: nat, after: string)
    requires s.Next? && s.width == 0 && width < SIZE_MODULUS && s.rest == WidthText(width) + after
    requires after != "" && !IsDigit(after[0]) && after[0] != '*'
    ensures WidthStage(s) == s.(width := width, rest := after)
  {
    hide PlainText, ParsedNumber, LeadingDigits;
    if width == 0 {
      assert s.rest == after;
    } else {
      PlainStart(width);
      NumberThenRest(width, after);
    }
  }

  lemma PrecisionRead(s: Scan, precision: nat, flags: Flags, after: string)
    requires s.Next? && s.precision == 0 && precision < SIZE_MODULUS && (!flags.precision ==> precision == 0)
    requires s.flags == flags.(precision := false) && s.rest == PrecisionText(precision, flags) + after
    requires after != "" && !IsDigit(after[0]) && after[0] != '.'
    ensures PrecisionStage(s) == s.(flags := flags, precision := precision, rest := after)
  {
    hide PlainText, ParsedNumber, LeadingDigits, PrecisionValue;
    if flags.precision {
      PlainStart(precision);
      var t := s.(flags := flags, rest := PlainText(precision) + after);
      assert s.rest[1..] == PlainText(precision) + after;
      DigitsRead(t, precision, after);
    } else {
      assert s.rest == after;
    }
  }

  lemma DigitsRead(s: Scan, precision: nat, after: string)
    requires s.Next? && precision < SIZE_MODULUS && s.rest == PlainText(precision) + after
    requires after != "" && !IsDigit(after[0])
    ensures s.rest != "" && PrecisionValue(s) == s.(precision := precision, rest := after)
  {
    hide PlainText, ParsedNumber, LeadingDigits, SkipNegative;
    PlainStart(precision);
    NumberThenRest(precision, after);
  }

  lemma OneLetter(s: Scan, c: char, after: string)
    requires s.Next? && s.rest == [c] + after && WithLength(c, s.flags).Some?
    requires after != "" && EndsDirective(after[0])
    ensures LengthStage(s) == s.(flags := WithLength(c, s.flags).value, rest := after)
  {
    hide WithLength, WithSecondLength;
    assert s.rest[1..] == after;
  }

  lemma TwoLetters(s: Scan, c: char, after: string)
    requires s.Next? && s.rest == [c, c] + after && (c == 'l' || c == 'h') && WithLength(c, s.flags).Some?
    requires after != ""
    ensures LengthStage(s)
            == s.(flags := WithSecondLength(c, WithLength(c, s.flags).value), rest := after)
  {
    hide WithLength, WithSecondLength;
    assert s.rest[1..] == [c] + after;
    assert ([c] + after)[1..] == after;
  }

  lemma LengthRead(s: Scan, length: Length, after: string)
    requires s.Next? && s.flags.sizes == NO_FLAGS.sizes && s.rest == LengthText(length) + after
    requires after != "" && EndsDirective(after[0])
    ensures LengthStage(s) == s.(flags := s.flags.(sizes := SizesOf(length)), rest := after)
  {
    hide LengthStage;
    match length
    case Plain => NoLetter(s, after);
    case Char => TwoLetters(s, 'h', after);
    case Short => OneLetter(s, 'h', after);
    case Long => OneLetter(s, 'l', after);
    case LongLong => TwoLetters(s, 'l', after);
    case Max => OneLetter(s, 'j', after);
    case Size => OneLetter(s, 'z', after);
    case Ptrdiff => OneLetter(s, 't', after);
    case LongDouble => OneLetter(s, 'L', after);
  }

  lemma NoLetter(s: Scan, after: string)
    requires s.Next? && s.rest == "" + after && after != "" && EndsDirective(after[0])
    ensures LengthStage(s) == s && s.rest == after
  {
    assert s.rest == after;
  }

  /** Every combination of flags, width, precision and length can be written down and is
      parsed as written, up to the specifier and whatever follows. */
  lemma DirectiveReadsBack(d: Written, after: string, args: seq<Arg>)
    requires d.Valid()
    ensures Directive(d.Text(after), args) == d.Parsed(after, args)
  {
    hide FlagStage, WidthStage, PrecisionStage, LengthStage, PlainText, FlagsText, WidthText, PrecisionText,
         LengthText, SizesOf;
    var t4 := [d.specifier] + after;
    var t3 := LengthText(d.length) + t4;
    var t2 := PrecisionText(d.precision, d.flags) + t3;
    var t1 := WidthText(d.width) + t2;
    LengthStarts(d.length, t4);
    Starts(d.flags, d.width, d.precision, t3);
    FlagsRead(d.flags.(precision := false), t1, args);
    PrecisionIsNoFlag(d.flags);
    var s1 := Next(d.flags.(precision := false), 0, 0, t1, args);
    WidthRead(s1, d.width, t2);
    var s2 := s1.(width := d.width, rest := t2);
    PrecisionRead(s2, d.precision, d.flags, t3);
    LengthRead(s2.(flags := d.flags, precision := d.precision, rest := t3), d.length, t4);
  }

  /** Characters that cannot belong to flags, width or precision. */
  predicate EndsNumbers(c: char)
  {
    c !in "0-+ #*." && !IsDigit(c)
  }

  lemma LengthStarts(length: Length, t4: string)
    requires t4 != "" && EndsDirective(t4[0])
    ensures var t3 := LengthText(length) + t4; t3 != "" && EndsNumbers(t3[0])
  {
  }

  lemma Starts(flags: Flags, width: nat, precision: nat, t3: string)
    requires Writable(flags, width, precision) && t3 != "" && EndsNumbers(t3[0])
    ensures var t2 := PrecisionText(precision, flags) + t3;
            t2 != "" && !IsDigit(t2[0]) && t2[0] != '*' && t2[0] !in "-+ #"
            && var t1 := WidthText(width) + t2; t1 != "" && t1[0] !in "0-+ #"
  {
    hide PlainText;
    if width > 0 {
      PlainStart(width);
    }
  }

  /** A format of one written directive prints what its specifier makes of it. */
  lemma RenderOne(d: Written, args: seq<Arg>)
    requires d.Valid() && Convert(d.Parsed("", args)).Printed?
    ensures var r := Convert(d.Parsed("", args)); Render(d.Format(), args) == Done(r.text, r.args)
  {
    hide Directive, Convert, FlagsText, WidthText, PrecisionText, LengthText, Written.Parsed;
    DirectiveReadsBack(d, "", args);
    ParsedRest(d, args);
    var text := d.Format();
    assert text[0] == '%' && text[1..] == d.Text("") && |d.Text("")| > 0;
    var s := d.Parsed("", args);
    assert Directive(text[1..], args) == s;
    assert Convert(s).text + "" == Convert(s).text;
  }

  lemma ParsedRest(d: Written, args: seq<Arg>)
    ensures d.Parsed("", args).rest == [d.specifier] && d.Parsed("", args).rest[1..] == ""
  {
  }

  /** An integer specifier prints its argument, converted to the length, as the written
      directive asks. */
  lemma PrintedAsWritten(d: Written, arg: int, v: int)
    requires d.Valid() && IsIntegerSpecifier(d.specifier)
    requires IntegerValue(d.specifier, d.Parsed("", []).flags, [Int(arg)]) == Some(v)
    ensures Render(d.Format(), [Int(arg)]) == Done(IntegerJob(d.specifier, d.Parsed("", []), v).Field(), [])
  {
    hide IntegerValue, Job.Field, FlagsText, IntegerFlags, Render, Written.Format;
    RenderOne(d, [Int(arg)]);
  }

  /** From format and argument to a reader and back: the whole way of an integer in every
      base, exactly when it works. */
  lemma WrittenReadsBack(d: Written, arg: int, v: int)
    requires d.Valid() && IsIntegerSpecifier(d.specifier)
    requires IntegerValue(d.specifier, d.Parsed("", []).flags, [Int(arg)]) == Some(v)
    ensures var o, j := Render(d.Format(), [Int(arg)]), IntegerJob(d.specifier, d.Parsed("", []), v);
            o.Done? && (ReadInteger(o.text, j.base) == Some(v) <==> j.WithinLimits())
  {
    hide Render, ReadInteger, Job.Field, Job.WithinLimits, Written.Format;
    PrintedAsWritten(d, arg, v);
    var s := d.Parsed("", [Int(arg)]);
    IntegerJobsAreLegal(s, v);
    ReadsBackWithinLimits(IntegerJob(d.specifier, s, v));
  }

  /** `f` prints its argument as the written directive asks, and the text denotes the
      argument rounded half to even exactly when the buffer has room for it. */
  lemma DecimalAsWritten(w: Written, x: Float)
    requires w.Valid() && w.specifier == 'f' && IsDecimal(x, w.precision, w.flags)
    ensures var o, n := Render(w.Format(), [Real(x)]), EffectivePrecision(w.precision, w.flags);
            var p := Min(n, MAX_SUPPORTED_PRECISION);
            var d := PrintedJob(x, n, w.width, w.Parsed("", []).flags);
            && o == Done(d.Field(), [])
            && (ReadDecimal(o.text) == Some(Decimal(x.negative, Shift(Rounded(x, p), n - p), n))
                <==> DecimalRoom(x, n, w.width, w.flags))
  {
    hide DecimalJob.Field, DecimalJob.Fits, PrintedJob, ReadDecimal, Shift, Rounded, Pow, Render, Written.Format;
    var n := EffectivePrecision(w.precision, w.flags);
    var flags := w.Parsed("", []).flags;
    RenderOne(w, [Real(x)]);
    assert DecimalFlags('f', flags) == flags;
    DecimalReadsBack(x, n, w.width, flags);
    PrintedFitsWhen(x, n, w.width, flags);
  }

  /** The usual case: up to a thousand million, up to 17 digits after the point, and zero
      padding within the buffer. */
  lemma UsualDecimalAsWritten(w: Written, x: Float)
    requires w.Valid() && w.specifier == 'f' && 0.0 <= x.magnitude <= 1_000_000_000.0
    requires w.precision <= MAX_SUPPORTED_PRECISION && (w.flags.ZeroFilled() ==> w.width <= BUFFER_SIZE)
    ensures var o, n := Render(w.Format(), [Real(x)]), EffectivePrecision(w.precision, w.flags);
            o.Done? && ReadDecimal(o.text) == Some(Decimal(x.negative, Rounded(x, n), n))
  {
    hide Render, ReadDecimal, DecimalJob.Field, DecimalJob.Fits, Written.Format, PrintedJob, Rounded, Shift, Pow;
    var n := EffectivePrecision(w.precision, w.flags);
    DecimalAsWritten(w, x);
    UsualDecimalsFit(x, n, w.width, w.Parsed("", []).flags);
    PrintedFitsWhen(x, n, w.width, w.Parsed("", []).flags);
    ShiftZero(Rounded(x, n), 0.0);
  }
}
