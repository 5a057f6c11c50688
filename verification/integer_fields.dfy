/** What the integer conversions print, and what a reader gets back from it. */
module IntegerFields {
  import opened Text
  import opened Numerals
  import opened FormatFlags
  import opened Readers

  /** The pieces of a printed integer, each as it reads: sign, prefix, zeros, digits. */
  datatype Layout = Layout(sign: string, prefix: string, zeros: nat, digits: string)
  {
    /** The scratch buffer holds the digits, least significant first, then the rest on the
        way to the left end, as far as there is room. */
    function Buffer(): string
    {
      Clip(Reverse(digits) + Repeat('0', zeros) + Reverse(prefix) + sign)
    }

    function Run(): string { Repeat('0', zeros) + digits }

    /** Sign and prefix as far as there is room, outermost characters lost first. */
    function Head(): string
      requires |Run()| <= BUFFER_SIZE
    {
      var full := sign + prefix;
      full[|full| - Min(|full|, BUFFER_SIZE - |Run()|)..]
    }
  }

  function PrefixText(base: nat, upper: bool): string
  {
    if base == 16 then (if upper then "0X" else "0x") else if base == 2 then "0b" else "0"
  }

  /** One call of print_integer_finalization: the digits already written, least significant
      first, and everything that decides what is added to them. */
  datatype Shape = Shape(digits: string, isZero: bool, negative: bool, base: nat, precision: nat, width: nat,
                         flags: Flags)
  {
    predicate Valid() { IsBase(base) && |digits| <= BUFFER_SIZE }

    /** Digits after leading zeros were added, for the width or for the precision. */
    function ZeroExtended(): (n: nat)
      requires Valid()
      ensures |digits| <= n <= BUFFER_SIZE
    {
      var filled := if flags.ZeroFilled() then Min(FillWidth(negative, width, flags), BUFFER_SIZE) else 0;
      Max(|digits|, Max(filled, Min(precision, BUFFER_SIZE)))
    }

    /** Whether the alternative form adds a prefix; leading octal zeros already serve as one. */
    predicate HasPrefix()
      requires Valid()
    {
      && flags.hash
      && (!isZero || (flags.precision && base != 16))
      && !(base == 8 && ZeroExtended() > |digits|)
    }

    function Prefix(): string
      requires Valid()
    {
      if HasPrefix() then PrefixText(base, flags.upper) else ""
    }

    /** Zeros and digits together: zeros that filled exactly the width or the precision
        make room for the prefix. */
    function RunLength(): (n: nat)
      requires Valid()
      ensures |digits| <= n <= ZeroExtended()
    {
      var n := ZeroExtended();
      if HasPrefix() && !flags.precision && n > 0 && (n == precision || n == FillWidth(negative, width, flags))
      then n - Min(n - |digits|, if base == 16 || base == 2 then 2 else 1)
      else n
    }

    function Parts(): (l: Layout)
      requires Valid()
      ensures |l.Run()| == RunLength()
    {
      Layout(SignChar(negative, flags), Prefix(), RunLength() - |digits|, Reverse(digits))
    }

    /** The whole field. */
    function Field(): string
      requires Valid()
    {
      Justify(Reverse(Parts().Buffer()), width, flags.left, flags.zeropad)
    }
  }

  /** The significant digits of a number, least significant first. Zero has one digit unless
      a precision was given. */
  function NumberDigits(value: nat, base: nat, flags: Flags): (s: string)
    requires IsBase(base)
    ensures |s| <= BUFFER_SIZE
  {
    if value == 0 then (if flags.precision then "" else "0")
    else Clip(DigitChars(value, base, flags.upper))
  }

  /** One call of print_integer. */
  datatype Job = Job(value: nat, negative: bool, base: nat, precision: nat, width: nat, flags: Flags)
  {
    /** What the format driver guarantees when it prints an integer. */
    predicate Legal()
    {
      && IsBase(base)
      && value < 0x1_0000_0000_0000_0000
      && (negative ==> value > 0)
      && (if flags.precision then !flags.zeropad else precision == 0)
      && (if base == 10 then !flags.hash else !negative && !flags.Signed())
    }

    function Plan(): (s: Shape)
      requires IsBase(base)
      ensures s.Valid()
    {
      Shape(NumberDigits(value, base, flags), value == 0, negative, base, precision, width, flags)
    }

    function Field(): string
      requires IsBase(base)
    {
      Plan().Field()
    }

    /** The digits leave room for the sign and for an undamaged prefix, and none is lost. */
    predicate Faithful()
      requires IsBase(base)
    {
      && |DigitChars(value, base, flags.upper)| <= BUFFER_SIZE
      && (negative ==> Plan().RunLength() < BUFFER_SIZE)
      && (|Plan().Prefix()| == 2 ==> Plan().RunLength() != BUFFER_SIZE - 1)
    }

    /** Zeros leave room for a minus sign. */
    predicate KeepsSign()
    {
      negative ==> precision < BUFFER_SIZE && !(flags.ZeroFilled() && width > BUFFER_SIZE)
    }

    /** The prefix `0x` comes whole: it does unless the precision leaves room for one character. */
    predicate KeepsPrefix()
    {
      flags.hash && value != 0 ==> precision != BUFFER_SIZE - 1
    }

    /** Binary digits are not lost, and the prefix `0b` comes whole or not at all: digits or
        zeros that leave room for one character spoil it. */
    predicate KeepsBinary()
    {
      && value < 0x1_0000_0000
      && (flags.hash && (value != 0 || flags.precision) ==>
            && !(0x4000_0000 <= value < 0x8000_0000 && precision < BUFFER_SIZE
                 && !(flags.ZeroFilled() && width > BUFFER_SIZE))
            && !(value < 0x4000_0000 && precision == BUFFER_SIZE - 1))
    }

    /** What a caller has to look at to know whether the text will be read back. */
    predicate WithinLimits()
    {
      if base == 2 then KeepsBinary() else KeepsSign() && (base == 16 ==> KeepsPrefix())
    }

    function Signed(): int { if negative then -(value as int) else value }
  }

  // ----- layout of the text

  lemma BufferReads(l: Layout)
    requires |l.Run()| <= BUFFER_SIZE && |l.sign| <= 1
    ensures Reverse(l.Buffer()) == l.Head() + l.Run()
  {
    var run, front := Reverse(l.digits) + Repeat('0', l.zeros), Reverse(l.prefix) + l.sign;
    var room := Min(|front|, BUFFER_SIZE - |run|);
    ClipSplit(Reverse(l.digits) + Repeat('0', l.zeros), Reverse(l.prefix), l.sign);
    ReverseConcat(run, front[..room]);
    assert Reverse(run) == l.Run() by {
      ReverseConcat(Reverse(l.digits), Repeat('0', l.zeros));
      ReverseRepeat('0', l.zeros);
      ReverseTwice(l.digits);
    }
    assert Reverse(front[..room]) == l.Head() by {
      ReverseConcat(Reverse(l.prefix), l.sign);
      ReverseTwice(l.prefix);
      assert Reverse(l.sign) == l.sign;
      ReversePrefix(front, room);
    }
  }

  lemma ClipSplit(run: string, p: string, s: string)
    requires |run| <= BUFFER_SIZE
    ensures Clip(run + p + s) == run + (p + s)[..Min(|p + s|, BUFFER_SIZE - |run|)]
  {
    assert run + p + s == run + (p + s);
  }

  lemma FieldText(s: Shape)
    requires s.Valid()
    ensures s.Field() == Justify(s.Parts().Head() + s.Parts().Run(), s.width, s.flags.left, s.flags.zeropad)
  {
    BufferReads(s.Parts());
  }

  /** The head when nothing but a sign or nothing but a prefix is asked for. */
  lemma HeadCases(l: Layout)
    requires |l.Run()| <= BUFFER_SIZE && |l.sign| <= 1 && |l.prefix| <= 2
    requires l.sign == "" || l.prefix == ""
    ensures var room := BUFFER_SIZE - |l.Run()|;
            l.Head() == if |l.sign| + |l.prefix| <= room then l.sign + l.prefix
                        else if room == 0 then "" else l.prefix[1..]
  {
  }

  // ----- reading it back

  lemma DigitsReadAs(value: nat, base: nat, flags: Flags)
    requires IsBase(base)
    ensures var t := Reverse(NumberDigits(value, base, flags));
            AllDigits(t, base)
            && (Value(t, base) == value <==> |DigitChars(value, base, flags.upper)| <= BUFFER_SIZE)
  {
    var all := DigitChars(value, base, flags.upper);
    if value == 0 {
      OneDigit("0", base);
      ReverseOne('0');
    } else {
      DigitCharsAreDigits(value, base, flags.upper);
      DigitsReadBack(value, base, flags.upper);
      ReverseDigits(all, base);
      ReverseDigits(Clip(all), base);
      if |all| > BUFFER_SIZE {
        ValueBound(Reverse(Clip(all)), base);
        DigitCount(value, base, flags.upper, BUFFER_SIZE);
      }
    }
  }

  lemma RunReadsAs(j: Job)
    requires IsBase(j.base)
    ensures var run := j.Plan().Parts().Run();
            AllDigits(run, j.base)
            && (Value(run, j.base) == j.value <==> |DigitChars(j.value, j.base, j.flags.upper)| <= BUFFER_SIZE)
    ensures |DigitChars(j.value, j.base, j.flags.upper)| > BUFFER_SIZE ==> |j.Plan().digits| == BUFFER_SIZE
  {
    DigitsReadAs(j.value, j.base, j.flags);
    ReverseTwice(NumberDigits(j.value, j.base, j.flags));
    LeadingZeros(j.Plan().Parts().zeros, Reverse(j.Plan().digits), j.base);
    RepeatElements('0', j.Plan().Parts().zeros);
  }

  /** Signs go with decimal numbers and prefixes with the others. */
  predicate SignOrPrefix(s: Shape)
  {
    s.Valid() && if s.base == 10 then !s.flags.hash else !s.negative && !s.flags.Signed()
  }

  lemma HeadOf(s: Shape)
    requires SignOrPrefix(s)
    ensures s.negative && s.RunLength() < BUFFER_SIZE ==> IsMinus(s.Parts().Head())
    ensures s.negative && s.RunLength() == BUFFER_SIZE ==> s.Parts().Head() == ""
    ensures !s.negative && HalfPrefix(s) ==> IsBrokenPrefix(s.Parts().Head(), s.base)
    ensures !s.negative && !HalfPrefix(s) ==> IsHarmlessHead(s.Parts().Head(), s.base)
  {
    HeadCases(s.Parts());
    if s.negative {
    } else if HalfPrefix(s) {
    } else {
    }
  }

  /** The buffer has room for one of the two characters of a prefix. */
  predicate HalfPrefix(s: Shape)
    requires s.Valid()
  {
    |s.Prefix()| == 2 && s.RunLength() == BUFFER_SIZE - 1
  }

  lemma FieldReadsAs(s: Shape)
    requires SignOrPrefix(s) && AllDigits(s.Parts().Run(), s.base)
    ensures ReadInteger(s.Field(), s.base) == Denoted(s.Parts().Head(), Value(s.Parts().Run(), s.base), s.base)
  {
    HeadOf(s);
    FieldText(s);
    ReadJustified(s.Parts().Head(), s.Parts().Run(), s.base, s.width, s.flags.left, s.flags.zeropad);
  }

  lemma ShapeDenotes(s: Shape, v: nat, value: nat, kept: bool)
    requires SignOrPrefix(s) && (v == value <==> kept) && (s.negative ==> value > 0)
    requires !kept ==> |s.digits| == BUFFER_SIZE
    ensures Denoted(s.Parts().Head(), v, s.base) == Some(if s.negative then -(value as int) else value)
            <==> kept && (s.negative ==> s.RunLength() < BUFFER_SIZE)
                 && (|s.Prefix()| == 2 ==> s.RunLength() != BUFFER_SIZE - 1)
  {
    HeadOf(s);
  }

  lemma ShapeReadsBack(s: Shape, value: nat, kept: bool)
    requires SignOrPrefix(s) && AllDigits(s.Parts().Run(), s.base) && (s.negative ==> value > 0)
    requires Value(s.Parts().Run(), s.base) == value <==> kept
    requires !kept ==> |s.digits| == BUFFER_SIZE
    ensures ReadInteger(s.Field(), s.base) == Some(if s.negative then -(value as int) else value)
            <==> kept && (s.negative ==> s.RunLength() < BUFFER_SIZE)
                 && (|s.Prefix()| == 2 ==> s.RunLength() != BUFFER_SIZE - 1)
  {
    FieldReadsAs(s);
    ShapeDenotes(s, Value(s.Parts().Run(), s.base), value, kept);
  }

  /** Printing and reading back: the reader gets the number printed exactly when the digits
      leave room for the sign and for an undamaged prefix. */
  lemma IntegerReadsBack(j: Job)
    requires j.Legal()
    ensures ReadInteger(j.Field(), j.base) == Some(j.Signed()) <==> j.Faithful()
  {
    hide DigitChars, Value, ReadInteger, AllDigits;
    RunReadsAs(j);
    ShapeReadsBack(j.Plan(), j.value, |DigitChars(j.value, j.base, j.flags.upper)| <= BUFFER_SIZE);
  }

  lemma DigitBounds(value: nat, base: nat, upper: bool)
    requires IsBase(base) && value < 0x1_0000_0000_0000_0000
    ensures |DigitChars(value, base, upper)|
            <= if base == 2 then 64 else if base == 8 then 22 else if base == 10 then 20 else 16
  {
    PowersOf64Bits();
    DigitCount(value, base, upper, if base == 2 then 64 else if base == 8 then 22 else if base == 10 then 20 else 16);
  }

  lemma PowersOf64Bits()
    ensures Pow(2, 64) == Pow(16, 16) == 0x1_0000_0000_0000_0000
    ensures Pow(8, 22) > 0x1_0000_0000_0000_0000 && Pow(10, 20) > 0x1_0000_0000_0000_0000
  {
    BinaryPowers();
    PowSplit(16, 1, 1);
    PowSplit(16, 2, 2);
    PowSplit(16, 4, 4);
    PowSplit(16, 8, 8);
    assert Pow(8, 2) == 64 && Pow(10, 2) == 100;
    PowSplit(8, 2, 2);
    PowSplit(8, 4, 4);
    PowSplit(8, 8, 2);
    PowSplit(8, 10, 1);
    PowSplit(8, 11, 11);
    PowSplit(10, 2, 2);
    PowSplit(10, 4, 1);
    PowSplit(10, 5, 5);
    PowSplit(10, 10, 10);
  }

  lemma BinaryPowers()
    ensures Pow(2, 30) == 0x4000_0000 && Pow(2, 31) == 0x8000_0000
    ensures Pow(2, 32) == 0x1_0000_0000 && Pow(2, 64) == 0x1_0000_0000_0000_0000
  {
    assert Pow(2, 2) == 4;
    PowSplit(2, 2, 2);
    PowSplit(2, 4, 4);
    PowSplit(2, 8, 8);
    PowSplit(2, 16, 14);
    PowSplit(2, 8, 6);
    PowSplit(2, 4, 2);
    PowSplit(2, 30, 1);
    PowSplit(2, 31, 1);
    PowSplit(2, 32, 32);
  }

  /** For octal, decimal and hexadecimal the only texts that misread are a negative number
      filled up to the whole buffer, and a hexadecimal number with prefix and precision 31. */
  lemma FaithfulUnless(j: Job)
    requires j.Legal() && j.base != 2
    ensures j.Faithful()
            <==> (j.negative ==> j.precision < BUFFER_SIZE && !(j.flags.ZeroFilled() && j.width > BUFFER_SIZE))
                 && (j.base == 16 && j.flags.hash && j.value != 0 ==> j.precision != BUFFER_SIZE - 1)
  {
    DigitBounds(j.value, j.base, j.flags.upper);
    RunLengthWhen(j.Plan());
  }

  lemma RunLengthWhen(s: Shape)
    requires SignOrPrefix(s) && s.base != 2 && |s.digits| <= 22 && (s.base == 16 ==> |s.digits| <= 16)
    requires if s.flags.precision then !s.flags.zeropad else s.precision == 0
    ensures s.negative ==> (s.RunLength() < BUFFER_SIZE
            <==> s.precision < BUFFER_SIZE && !(s.flags.ZeroFilled() && s.width > BUFFER_SIZE))
    ensures s.base == 16 && s.HasPrefix() ==> (s.RunLength() == BUFFER_SIZE - 1 <==> s.precision == BUFFER_SIZE - 1)
  {
  }

  /** In binary digits are lost from 2 to the 32 on, and the alternative form also misreads
      numbers of 31 digits and short ones at precision 31. */
  lemma BinaryKept(j: Job)
    requires j.Legal() && j.base == 2
    ensures j.Faithful() <==> j.KeepsBinary()
  {
    DigitCount(j.value, 2, j.flags.upper, 30);
    DigitCount(j.value, 2, j.flags.upper, 31);
    DigitCount(j.value, 2, j.flags.upper, 32);
    BinaryPowers();
    BinaryRunLength(j.Plan());
  }

  lemma BinaryRunLength(s: Shape)
    requires SignOrPrefix(s) && s.base == 2
    requires if s.flags.precision then !s.flags.zeropad else s.precision == 0
    ensures s.HasPrefix() ==> (s.RunLength() == BUFFER_SIZE - 1 <==>
              || (|s.digits| == BUFFER_SIZE - 1 && s.precision < BUFFER_SIZE
                  && !(s.flags.ZeroFilled() && s.width > BUFFER_SIZE))
              || (|s.digits| < BUFFER_SIZE - 1 && s.precision == BUFFER_SIZE - 1))
  {
  }

  /** Printing and reading back, in every base, by what a caller can look at. */
  lemma ReadsBackWithinLimits(j: Job)
    requires j.Legal()
    ensures ReadInteger(j.Field(), j.base) == Some(j.Signed()) <==> j.WithinLimits()
  {
    hide ReadInteger, DigitChars;
    IntegerReadsBack(j);
    if j.base == 2 {
      BinaryKept(j);
    } else {
      FaithfulUnless(j);
    }
  }

  // ----- field width

  /** Space padding: a field is the field of width zero, padded to the width. */
  lemma SpacePadding(j: Job)
    requires j.Legal() && !j.flags.ZeroFilled()
    ensures j.Field() == Justify(j.(width := 0).Field(), j.width, j.flags.left, false)
  {
    SameParts(j.Plan());
  }

  lemma SameParts(s: Shape)
    requires s.Valid() && !s.flags.ZeroFilled() && (!s.flags.precision ==> s.precision == 0)
    ensures s.Field() == Justify(s.(width := 0).Field(), s.width, s.flags.left, false)
  {
    var t := s.(width := 0);
    assert s.Parts() == t.Parts();
    assert t.Field() == Reverse(t.Parts().Buffer());
  }

  /** Characters of a field apart from space padding. */
  function TextLength(s: Shape): nat
    requires s.Valid()
  {
    Min(BUFFER_SIZE, s.RunLength() + |s.Prefix()| + |SignChar(s.negative, s.flags)|)
  }

  lemma FieldLength(s: Shape)
    requires s.Valid()
    ensures |s.Field()| == if s.flags.ZeroFilled() then TextLength(s) else Max(s.width, TextLength(s))
  {
  }

  lemma ZeroFilledLength(s: Shape)
    requires SignOrPrefix(s) && s.flags.ZeroFilled()
    requires !s.flags.precision && s.precision == 0
    ensures TextLength(s) == Max(Min(s.width, BUFFER_SIZE), TextLength(s.(width := 0)))
  {
  }

  /** The field-width law, and exactly where it fails: zero padding stops at the end of the
      scratch buffer. */
  lemma FieldWidth(j: Job)
    requires j.Legal()
    ensures |j.Field()| == Max(j.width, |j.(width := 0).Field()|)
            <==> !(j.flags.ZeroFilled() && j.width > BUFFER_SIZE)
  {
    hide DigitChars, Clip, Repeat, Reverse, Justify;
    var s := j.Plan();
    var t := s.(width := 0);
    assert t == j.(width := 0).Plan();
    FieldLength(s);
    FieldLength(t);
    if j.flags.ZeroFilled() {
      ZeroFilledLength(s);
    } else {
      SameParts(s);
    }
  }

  /** Zero padding: the zeros go between the head of the unpadded number and its digits,
      except where a binary prefix does not fit. */
  lemma ZeroPadding(j: Job)
    requires j.Legal() && j.flags.ZeroFilled() && j.width <= BUFFER_SIZE
    ensures var bare := j.(width := 0);
            var front, digits := bare.Plan().Parts().sign + bare.Plan().Parts().prefix, bare.Plan().Parts().digits;
            bare.Field() == front + digits
            && j.Field() == front + Repeat('0', j.width - |bare.Field()|) + digits
            <==> !(j.base == 2 && j.flags.hash && j.value >= 0x4000_0000)
  {
    hide DigitChars;
    var s := j.Plan();
    var t := s.(width := 0);
    assert t == j.(width := 0).Plan();
    ShortDigits(j);
    if j.base == 2 && j.flags.hash && j.value >= 0x4000_0000 {
      FieldLength(t);
    } else {
      ZeroFill(s);
      FittingField(s);
      FittingField(t);
      SameFront(s.Parts(), t.Parts(), Max(0, s.width - |t.Field()|));
    }
  }

  lemma ShortDigits(j: Job)
    requires j.Legal() && !j.flags.precision
    ensures var s := j.Plan();
            && (j.base != 2 ==> |s.digits| <= 22)
            && (j.base == 2 && j.flags.hash ==> (|s.digits| <= 30 <==> j.value < 0x4000_0000))
            && (j.value >= 0x4000_0000 ==> !s.isZero)
  {
    if j.base == 2 {
      DigitCount(j.value, 2, j.flags.upper, 30);
      BinaryPowers();
    } else {
      DigitBounds(j.value, j.base, j.flags.upper);
    }
  }

  /** What zero filling does to the layout: zeros up to the width, the first of which may
      take the place of an octal prefix. */
  lemma ZeroFill(s: Shape)
    requires SignOrPrefix(s) && s.flags.ZeroFilled() && s.width <= BUFFER_SIZE
    requires !s.flags.precision && s.precision == 0
    requires |s.digits| <= 22 || (s.base == 2 && (|s.digits| <= 30 || !s.flags.hash))
    ensures var t := s.(width := 0);
            var p, q, missing := s.Parts(), t.Parts(), Max(0, s.width - TextLength(t));
            && q.zeros == 0 && p.digits == q.digits && p.sign == q.sign
            && (if p.prefix == q.prefix then p.zeros == missing
                else p.sign == p.prefix == "" && q.prefix == "0" && p.zeros == missing + 1)
            && |p.Run()| + |p.prefix| + |p.sign| <= BUFFER_SIZE
            && |q.Run()| + |q.prefix| + |q.sign| <= BUFFER_SIZE
  {
  }

  lemma SameFront(p: Layout, q: Layout, missing: nat)
    requires q.zeros == 0 && p.digits == q.digits && p.sign == q.sign
    requires if p.prefix == q.prefix then p.zeros == missing
             else p.sign == p.prefix == "" && q.prefix == "0" && p.zeros == missing + 1
    ensures (q.sign + q.prefix) + q.Run() == (q.sign + q.prefix) + q.digits
    ensures (p.sign + p.prefix) + p.Run() == (q.sign + q.prefix) + Repeat('0', missing) + q.digits
  {
    assert q.Run() == q.digits;
    if p.prefix == q.prefix {
      assert (p.sign + p.prefix) + (Repeat('0', missing) + p.digits)
             == (p.sign + p.prefix) + Repeat('0', missing) + p.digits;
    } else {
      RepeatFront('0', missing);
      assert q.sign + q.prefix == "0";
      assert p.sign + p.prefix == "";
    }
  }

  lemma FittingField(s: Shape)
    requires SignOrPrefix(s) && s.flags.ZeroFilled()
    requires |s.Parts().Run()| + |s.Parts().prefix| + |s.Parts().sign| <= BUFFER_SIZE
    ensures s.Field() == (s.Parts().sign + s.Parts().prefix) + s.Parts().Run()
    ensures |s.Field()| == TextLength(s)
  {
    hide Clip, Reverse, Layout.Buffer, Layout.Head, Shape.Field, Shape.RunLength, Shape.ZeroExtended;
    FieldText(s);
    HeadCases(s.Parts());
  }
}
