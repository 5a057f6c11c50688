/** What a written directive prints, by its argument and the notation alone. */
module WrittenLaws {
  import opened Text
  import opened Numerals
  import opened FormatFlags
  import opened Readers
  import opened IntegerFields
  import opened Rounding
  import opened DecimalFields
  import opened DecimalLaws
  import opened FormatSpec
  import opened FormatLaws
  import opened StandardText
  import opened StandardLaws
  import opened DirectiveText

  // ----- which integer is printed

  /** The arguments an integer directive takes: those of an int or unsigned int, or of the
      64-bit types under `ll` and `j`. */
  predicate Takes(d: Written, arg: int)
  {
    var wide := d.length.LongLong? || d.length.Max?;
    if d.specifier == 'd' || d.specifier == 'i'
    then if wide then -0x8000_0000_0000_0000 <= arg < 0x8000_0000_0000_0000 else -0x8000_0000 <= arg < 0x8000_0000
    else 0 <= arg < if wide then 0x1_0000_0000_0000_0000 else 0x1_0000_0000
  }

  /** What is left of the argument under `h` and `hh`: the same bits, in a smaller range. */
  predicate Narrowed(w: int, arg: int, modulus: nat, signed: bool)
    requires modulus > 0
  {
    (w - arg) % modulus == 0 && if signed then -(modulus / 2) <= w < modulus / 2 else 0 <= w < modulus
  }

  /** The integer `w` is what the directive is to print of its argument. */
  predicate Passes(d: Written, arg: int, w: int)
  {
    var signed := d.specifier == 'd' || d.specifier == 'i';
    if d.length.Short? then Narrowed(w, arg, 0x1_0000, signed)
    else if d.length.Char? then Narrowed(w, arg, 0x100, signed)
    else w == arg
  }

  function Base(specifier: char): (b: nat)
    ensures IsBase(b)
  {
    if specifier == 'd' || specifier == 'i' || specifier == 'u' then 10
    else if specifier == 'o' then 8
    else if specifier == 'b' then 2
    else 16
  }

  /** The specifiers of integers. */
  predicate PrintsInteger(d: Written) { d.Valid() && d.specifier in "diuoxXb" }

  /** The integer an argument passes: one exactly for the arguments of the type named. */
  lemma ArgumentPassed(d: Written, arg: int) returns (w: int)
    requires PrintsInteger(d)
    ensures IntegerValue(d.specifier, d.Parsed("", []).flags, [Int(arg)]).Some? <==> Takes(d, arg)
    ensures Takes(d, arg) ==> Passes(d, arg, w)
                              && IntegerValue(d.specifier, d.Parsed("", []).flags, [Int(arg)]) == Some(w)
  {
    var r := IntegerValue(d.specifier, d.Parsed("", []).flags, [Int(arg)]);
    w := if r.Some? then r.value else 0;
    if Takes(d, arg) {
      if d.length.Short? {
        SameRest(w, arg, 0x1_0000);
      } else if d.length.Char? {
        SameRest(w, arg, 0x100);
      }
    }
  }

  lemma SameRest(w: int, arg: int, modulus: nat)
    requires (modulus == 0x100 || modulus == 0x1_0000) && w % modulus == arg % modulus
    ensures (w - arg) % modulus == 0
  {
    if modulus == 0x100 {
    } else {
    }
  }

  // ----- integers

  /** The text of an integer directive as the standard has it. */
  function StandardInteger(d: Written, w: int): string
  {
    IntegerText(AbsInt(w), w < 0, Base(d.specifier), d.specifier == 'X',
                d.specifier == 'd' || d.specifier == 'i', d.flags, d.precision, d.width)
  }

  /** The same apart from padding. */
  function StandardBare(d: Written, w: int): string
  {
    IntegerHead(AbsInt(w), w < 0, Base(d.specifier), d.specifier == 'X',
                d.specifier == 'd' || d.specifier == 'i', d.flags, d.precision)
    + DigitsOf(AbsInt(w), Base(d.specifier), d.specifier == 'X', d.flags, d.precision)
  }

  /** Flags that do not count for the specifier do not show. */
  lemma SameText(d: Written, w: int, j: Job)
    requires PrintsInteger(d) && (w < 0 ==> d.specifier == 'd' || d.specifier == 'i')
    requires j == IntegerJob(d.specifier, d.Parsed("", []), w)
    ensures IntegerText(j.value, j.negative, j.base, j.flags.upper, true, j.flags, j.precision, j.width)
            == StandardInteger(d, w)
    ensures BareInteger(j) == StandardBare(d, w)
  {
    hide Numeral, Padded, SizesOf, DigitsOf, PrefixOf, SignOf;
    SamePieces(d, w, j, DigitsOf(AbsInt(w), j.base, d.specifier == 'X', d.flags, d.precision));
  }

  lemma SamePieces(d: Written, w: int, j: Job, digits: string)
    requires PrintsInteger(d) && (w < 0 ==> d.specifier == 'd' || d.specifier == 'i')
    requires j == IntegerJob(d.specifier, d.Parsed("", []), w)
    requires digits == DigitsOf(AbsInt(w), j.base, d.specifier == 'X', d.flags, d.precision)
    ensures j.base == Base(d.specifier) && j.flags.upper == (d.specifier == 'X')
    ensures DigitsOf(j.value, j.base, j.flags.upper, j.flags, j.precision) == digits
    ensures PrefixOf(j.value, j.base, j.flags.upper, digits, j.flags)
            == PrefixOf(j.value, j.base, j.flags.upper, digits, d.flags)
    ensures SignOf(j.negative, j.flags)
            == if d.specifier == 'd' || d.specifier == 'i' then SignOf(w < 0, d.flags) else ""
    ensures j.flags.left == d.flags.left && (j.flags.zeropad && !j.flags.precision)
                                            == (d.flags.zeropad && !d.flags.precision)
  {
    hide Numeral, SizesOf;
  }

  lemma SameLimits(d: Written, w: int, j: Job)
    requires PrintsInteger(d) && j == IntegerJob(d.specifier, d.Parsed("", []), w)
    ensures j.flags.zeropad == (d.flags.zeropad && !d.flags.precision) && j.flags.left == d.flags.left
    ensures j.base == Base(d.specifier) && j.width == d.width
    ensures j.WithinLimits()
            <==> Job(AbsInt(w), w < 0, Base(d.specifier), d.precision, d.width,
                     d.flags.(zeropad := d.flags.zeropad && !d.flags.precision)).WithinLimits()
  {
    hide SizesOf;
  }

  /** The way of an integer from format and argument to text, for every directive and every
      argument of its type: the text is the standard's exactly when it comes uncut through
      the scratch buffer, and it reads as the argument exactly within the limits. */
  lemma IntegerPrinted(d: Written, arg: int) returns (w: int)
    requires PrintsInteger(d) && Takes(d, arg)
    ensures Passes(d, arg, w)
    ensures var o := Render(d.Format(), [Int(arg)]);
            && o.Done? && o.args == []
            && (o.text == StandardInteger(d, w)
                <==> Uncut(StandardBare(d, w), d.width, d.flags.left, d.flags.zeropad && !d.flags.precision))
            && (ReadInteger(o.text, Base(d.specifier)) == Some(w)
                <==> Job(AbsInt(w), w < 0, Base(d.specifier), d.precision, d.width,
                         d.flags.(zeropad := d.flags.zeropad && !d.flags.precision)).WithinLimits())
  {
    hide Render, ReadInteger, IntegerValue, Job.Field, Written.Format, Uncut, IntegerText, BareInteger,
         StandardBare, StandardInteger, Takes, Passes, Job.WithinLimits, IntegerFlags, Job.Legal, Written.Parsed;
    w := ArgumentPassed(d, arg);
    var j := IntegerJob(d.specifier, d.Parsed("", []), w);
    PrintedAsWritten(d, arg, w);
    WrittenReadsBack(d, arg, w);
    NegativeIsSigned(d, arg, w);
    JobIsLegal(d, arg, w);
    SameText(d, w, j);
    SameLimits(d, w, j);
    IntegerIsStandard(j);
  }

  lemma NegativeIsSigned(d: Written, arg: int, w: int)
    requires Takes(d, arg) && Passes(d, arg, w)
    ensures w < 0 ==> d.specifier == 'd' || d.specifier == 'i'
  {
  }

  lemma JobIsLegal(d: Written, arg: int, w: int)
    requires d.Valid() && IsIntegerSpecifier(d.specifier)
    requires IntegerValue(d.specifier, d.Parsed("", []).flags, [Int(arg)]) == Some(w)
    ensures IntegerJob(d.specifier, d.Parsed("", []), w).Legal()
  {
    hide IntegerValue, Job.Legal;
    IntegerJobsAreLegal(d.Parsed("", [Int(arg)]), w);
  }

  // ----- what the flags show

  /** The sign of an unpadded text. */
  predicate ShowsSign(t: string, negative: bool, signed: bool, flags: Flags)
  {
    if signed && negative then t != "" && t[0] == '-'
    else if signed && flags.plus then t != "" && t[0] == '+'
    else if signed && flags.space then t != "" && t[0] == ' '
    else t != "" ==> t[0] != '-' && t[0] != '+' && t[0] != ' '
  }

  /** The alternative form of an unpadded text. */
  predicate ShowsBase(t: string, zero: bool, specifier: char, flags: Flags)
  {
    && (flags.hash && specifier == 'o' ==> t != "" && t[0] == '0')
    && (flags.hash && !zero && specifier == 'x' ==> |t| > 2 && t[0] == '0' && t[1] == 'x')
    && (flags.hash && !zero && specifier == 'X' ==> |t| > 2 && t[0] == '0' && t[1] == 'X')
  }

  /** Lower case letters for `x`, upper case ones for `X`. */
  predicate ShowsCase(t: string, specifier: char)
  {
    && (specifier == 'x' ==> forall i :: 0 <= i < |t| ==> !('A' <= t[i] <= 'Z'))
    && (specifier == 'X' ==> forall i :: 0 <= i < |t| ==> !('a' <= t[i] <= 'z'))
  }

  predicate OneCase(t: string, upper: bool)
  {
    forall i :: 0 <= i < |t| ==> if upper then !('a' <= t[i] <= 'z') else !('A' <= t[i] <= 'Z')
  }

  lemma {:induction false} NumeralCase(v: nat, base: nat, upper: bool)
    requires IsBase(base)
    ensures OneCase(Reverse(DigitChars(v, base, upper)), upper)
    decreases v
  {
    if v > 0 {
      var low, high := [DigitChar(Rem(v, base), upper)], DigitChars(Quot(v, base), base, upper);
      NumeralCase(Quot(v, base), base, upper);
      ReverseConcat(low, high);
      ReverseOne(low[0]);
      OneMore(Reverse(high), low, upper);
    }
  }

  lemma OneMore(a: string, b: string, upper: bool)
    requires OneCase(a, upper) && OneCase(b, upper)
    ensures OneCase(a + b, upper)
  {
  }

  /** As many digits at the end as the precision asks for, and no text at all for zero at
      precision zero without a sign or a prefix. */
  predicate ShowsDigits(t: string, zero: bool, base: nat, signed: bool, flags: Flags, precision: nat)
  {
    && |t| >= precision && (forall i :: |t| - precision <= i < |t| ==> DigitValue(t[i]) < base)
    && (zero && flags.precision && precision == 0 && !flags.hash && !(signed && (flags.plus || flags.space)) ==>
          t == "")
  }

  /** The flags of an integer show in its unpadded text. */
  lemma BareShows(d: Written, w: int)
    requires PrintsInteger(d) && (w < 0 ==> d.specifier == 'd' || d.specifier == 'i')
    ensures var t, signed := StandardBare(d, w), d.specifier == 'd' || d.specifier == 'i';
            && ShowsSign(t, w < 0, signed, d.flags)
            && ShowsBase(t, w == 0, d.specifier, d.flags)
            && ShowsCase(t, d.specifier)
            && ShowsDigits(t, w == 0, Base(d.specifier), signed, d.flags, d.precision)
  {
    hide Numeral, DigitsOf, SizesOf, DigitValue, Written.Valid;
    var upper := d.specifier == 'X';
    var digits := DigitsOf(AbsInt(w), Base(d.specifier), upper, d.flags, d.precision);
    DigitsOfAre(AbsInt(w), Base(d.specifier), upper, d.flags, d.precision);
    FirstCharacter(digits, Base(d.specifier));
    DigitsCase(AbsInt(w), Base(d.specifier), upper, d.flags, d.precision);
  }

  lemma FirstCharacter(t: string, base: nat)
    requires AllDigits(t, base) && base <= 16
    ensures t != "" ==> t[0] != '-' && t[0] != '+' && t[0] != ' '
  {
    assert t != "" ==> DigitValue(t[0]) < base;
  }

  lemma DigitsCase(v: nat, base: nat, upper: bool, flags: Flags, precision: nat)
    requires IsBase(base)
    ensures OneCase(DigitsOf(v, base, upper, flags, precision), upper)
  {
    hide Numeral, DigitChars;
    if v == 0 {
      ZeroNumeral(base, upper);
    } else {
      NumeralIs(v, base, upper);
      NumeralCase(v, base, upper);
    }
  }

  lemma Unpadded(head: string, body: string, left: bool, zeros: bool)
    ensures Padded(head, body, 0, left, zeros) == head + body
  {
    assert head + body + "" == head + body;
    assert head + "" + body == head + body;
    assert "" + head + body == head + body;
  }

  /** What the flags of an integer directive show in its text, as long as it fits. */
  lemma IntegerShows(d: Written, arg: int) returns (w: int)
    requires PrintsInteger(d) && Takes(d, arg) && d.width == 0
    ensures Passes(d, arg, w)
    ensures var t, signed := Render(d.Format(), [Int(arg)]), d.specifier == 'd' || d.specifier == 'i';
            |StandardBare(d, w)| <= BUFFER_SIZE ==>
              && t.Done?
              && ShowsSign(t.text, w < 0, signed, d.flags)
              && ShowsBase(t.text, w == 0, d.specifier, d.flags)
              && ShowsCase(t.text, d.specifier)
              && ShowsDigits(t.text, w == 0, Base(d.specifier), signed, d.flags, d.precision)
  {
    hide Render, ReadInteger, Job.WithinLimits, Written.Format, IntegerHead, DigitsOf, ShowsSign, ShowsBase,
         ShowsCase, ShowsDigits, Padded, Takes, Passes;
    w := IntegerPrinted(d, arg);
    NegativeIsSigned(d, arg, w);
    BareShows(d, w);
    Unpadded(IntegerHead(AbsInt(w), w < 0, Base(d.specifier), d.specifier == 'X',
                         d.specifier == 'd' || d.specifier == 'i', d.flags, d.precision),
             DigitsOf(AbsInt(w), Base(d.specifier), d.specifier == 'X', d.flags, d.precision), d.flags.left,
             d.flags.zeropad && !d.flags.precision);
  }

  // ----- decimals

  /** How many digits a directive asks for after the point. */
  function Asked(d: Written): nat { if d.flags.precision then d.precision else 6 }

  /** The text of an `f` directive as the standard has it, with zeros beyond the seventeenth
      place. */
  function StandardDecimal(d: Written, x: Float): string
    requires x.magnitude >= 0.0
  {
    var p := Min(Asked(d), 17);
    RoundedNonNegative(x, p);
    DecimalText(x.negative, Rounded(x, p), p, Asked(d), d.flags, d.width)
  }

  function StandardDecimalBare(d: Written, x: Float): string
    requires x.magnitude >= 0.0
  {
    var p := Min(Asked(d), 17);
    RoundedNonNegative(x, p);
    SignOf(x.negative, d.flags) + DecimalBody(Rounded(x, p), p, Asked(d), d.flags)
  }

  /** Decimals as the standard has them: sign, digits of the argument rounded half to even,
      six of them after the point unless a precision is given, and padding; exactly when the
      text comes uncut through the scratch buffer. */
  lemma DecimalPrinted(d: Written, x: Float)
    requires d.Valid() && (d.specifier == 'f' || d.specifier == 'F')
    requires 0.0 <= x.magnitude <= 1_000_000_000.0 && Asked(d) <= 49
    ensures var o := Render(d.Format(), [Real(x)]);
            && o.Done? && o.args == []
            && (o.text == StandardDecimal(d, x)
                <==> Uncut(StandardDecimalBare(d, x), d.width, d.flags.left, d.flags.zeropad))
  {
    hide Render, Written.Format, Uncut, PrintedJob, DecimalBody, Rounded, Padded, Pow, SizesOf, DecimalJob.Field;
    var flags := DecimalFlags(d.specifier, d.Parsed("", []).flags);
    RenderOne(d, [Real(x)]);
    DecimalIsStandard(x, Asked(d), d.width, flags);
    SameDecimal(d, x, flags);
  }

  lemma SameDecimal(d: Written, x: Float, flags: Flags)
    requires 0.0 <= x.magnitude
    requires flags == d.flags.(sizes := flags.sizes, upper := flags.upper)
    ensures var p := Min(Asked(d), 17);
            && Rounded(x, p) >= 0
            && DecimalText(x.negative, Rounded(x, p), p, Asked(d), flags, d.width) == StandardDecimal(d, x)
            && SignOf(x.negative, flags) + DecimalBody(Rounded(x, p), p, Asked(d), flags) == StandardDecimalBare(d, x)
  {
    hide Rounded, Padded, Numeral, LastDigits;
    RoundedNonNegative(x, Min(Asked(d), 17));
  }

  /** As many digits after the point as asked for, and a point without digits only under `#`. */
  predicate ShowsPoint(t: string, n: nat, flags: Flags)
  {
    if n > 0 then |t| > n + 1 && t[|t| - n - 1] == '.' && '.' !in t[..|t| - n - 1] && AllDigits(t[|t| - n..], 10)
    else if flags.hash then |t| > 1 && t[|t| - 1] == '.' && '.' !in t[..|t| - 1]
    else t != "" && '.' !in t
  }

  /** What the flags of a decimal directive show in its text, as long as it fits. */
  lemma DecimalShows(d: Written, x: Float)
    requires d.Valid() && (d.specifier == 'f' || d.specifier == 'F') && d.width == 0
    requires 0.0 <= x.magnitude <= 1_000_000_000.0 && Asked(d) <= 49 && |StandardDecimalBare(d, x)| <= BUFFER_SIZE
    ensures var o := Render(d.Format(), [Real(x)]);
            && o.Done? && ShowsSign(o.text, x.negative, true, d.flags)
            && ShowsPoint(o.text, Asked(d), d.flags)
  {
    hide Render, Written.Format, Rounded, Padded, Pow, SizesOf, ShowsSign, ShowsPoint, DecimalBody;
    DecimalPrinted(d, x);
    var p := Min(Asked(d), 17);
    RoundedNonNegative(x, p);
    Unpadded(SignOf(x.negative, d.flags), DecimalBody(Rounded(x, p), p, Asked(d), d.flags), d.flags.left,
             d.flags.zeropad);
    DecimalBodyShows(x.negative, Rounded(x, p), p, Asked(d), d.flags);
  }

  lemma DecimalBodyShows(negative: bool, v: nat, p: nat, n: nat, flags: Flags)
    requires p <= n
    ensures var t := SignOf(negative, flags) + DecimalBody(v, p, n, flags);
            ShowsSign(t, negative, true, flags) && ShowsPoint(t, n, flags)
  {
    hide Pow, Numeral, LastDigits, Repeat, DigitValue, AllDigits, ShowsPoint;
    PowPositive(10, p);
    var whole, frac := Numeral(v / Pow(10, p), 10, false), LastDigits(v, p) + Repeat('0', n - p);
    NumeralDigits(v / Pow(10, p), 10, false);
    FractionDigits(v, p, n - p);
    FirstCharacter(whole, 10);
    NoPoint(whole);
    PointShows(SignOf(negative, flags) + whole, frac, flags);
    assert SignOf(negative, flags) + (whole + (if n > 0 || flags.hash then "." else "") + frac)
           == SignOf(negative, flags) + whole + (if n > 0 || flags.hash then "." else "") + frac;
  }

  lemma FractionDigits(v: nat, p: nat, zeros: nat)
    ensures AllDigits(LastDigits(v, p) + Repeat('0', zeros), 10)
  {
    LastDigitsAre(v, p);
    PaddedAreDigits(v, p);
    ReverseDigits(PaddedDigits(v, p), 10);
    RepeatElements('0', zeros);
  }

  lemma {:induction false} PaddedAreDigits(v: nat, n: nat)
    ensures AllDigits(PaddedDigits(v, n), 10)
    decreases n
  {
    if n > 0 {
      PaddedAreDigits(v / 10, n - 1);
    }
  }

  lemma NoPoint(t: string)
    requires AllDigits(t, 10)
    ensures '.' !in t
  {
    assert DigitValue('.') == 16;
  }

  lemma PointShows(front: string, frac: string, flags: Flags)
    requires front != "" && '.' !in front && AllDigits(frac, 10)
    ensures ShowsPoint(front + (if |frac| > 0 || flags.hash then "." else "") + frac, |frac|, flags)
  {
    hide AllDigits;
    var point := if |frac| > 0 || flags.hash then "." else "";
    var t := front + point + frac;
    assert t[|t| - |frac|..] == frac && t[..|front|] == front;
    assert t[..|t| - |frac|] == front + point;
  }
}
