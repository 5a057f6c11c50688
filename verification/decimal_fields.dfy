/** What the decimal floating-point conversions print, and what a reader gets back. */
module DecimalFields {
  import opened Text
  import opened Numerals
  import opened FormatFlags
  import opened Readers
  import opened Rounding

  /** A decimal numeral as read: sign, digits without the point, and how many of them stand
      after it. */
  datatype Decimal = Decimal(negative: bool, scaled: int, digits: nat)

  function PointIndex(t: string): (k: nat)
    ensures k <= |t|
  {
    if t == "" || t[0] == '.' then 0 else 1 + PointIndex(t[1..])
  }

  /** Digits with at most one point, and at least one digit before it. */
  function ReadMagnitude(negative: bool, t: string): Option<Decimal>
  {
    var k := PointIndex(t);
    var whole, frac := t[..k], if k < |t| then t[k + 1..] else "";
    if whole != "" && AllDigits(whole, 10) && AllDigits(frac, 10)
    then Some(Decimal(negative, Value(whole + frac, 10), |frac|)) else None
  }

  /** Spaces around the number and an optional sign are skipped. */
  function ReadDecimal(text: string): Option<Decimal>
  {
    ReadSignedDecimal(TrimLeft(TrimRight(text)))
  }

  function ReadSignedDecimal(t: string): Option<Decimal>
  {
    if t != "" && t[0] == '-' then ReadMagnitude(true, t[1..])
    else if t != "" && t[0] == '+' then ReadMagnitude(false, t[1..])
    else ReadMagnitude(false, t)
  }

  /** The loop that drops trailing zeros of a fraction of `n` digits. */
  function Stripped(f: nat, n: nat): (r: (nat, nat))
    requires 0 < f < Pow(10, n)
    ensures r.1 <= n && 0 < r.0 < Pow(10, r.1) && r.0 % 10 != 0
    ensures f == Shift(r.0, n - r.1)
    decreases n
  {
    if f % 10 != 0 then ShiftZero(f, 0.0); (f, n)
    else
      var r := Stripped(f / 10, n - 1);
      ShiftByOne(r.0, n - 1 - r.1);
      r
  }

  /** The digits before the point, last one first; at least one. */
  function IntegralText(i: nat): string
  {
    if i == 0 then "0" else DigitChars(i, 10, false)
  }

  /** One call of print_broken_up_decimal; `zeros` were written to the buffer before it. */
  datatype DecimalJob = DecimalJob(c: Components, zeros: nat, precision: nat, width: nat, flags: Flags)
  {
    predicate Valid()
    {
      0 <= c.integral && 0 <= c.fractional < Pow(10, precision) && zeros <= BUFFER_SIZE
    }

    /** %g without the alternative form. */
    predicate Adaptive() { flags.adapt && !flags.hash }

    predicate HasPoint()
    {
      if precision == 0 then flags.hash else !(Adaptive() && c.fractional == 0)
    }

    /** Digits after the point, last one first. */
    function FractionDigits(): string
      requires Valid()
    {
      if Adaptive() then
        if c.fractional == 0 then "" else
          var r := Stripped(c.fractional, precision);
          PaddedDigits(r.0, r.1)
      else PaddedDigits(c.fractional, precision)
    }

    /** Digits before the point, last one first. */
    function IntegralDigits(): string
      requires Valid()
    {
      IntegralText(c.integral)
    }

    function NumberChars(): string
      requires Valid()
    {
      Repeat('0', zeros) + FractionDigits() + (if HasPoint() then "." else "") + IntegralDigits()
    }

    /** How many zeros the width asks for in front of the number. */
    function Fill(): nat
      requires Valid()
    {
      if flags.ZeroFilled() then Max(0, FillWidth(c.negative, width, flags) - |NumberChars()|) else 0
    }

    /** What the scratch buffer would hold if it had room for everything. */
    function Chars(): string
      requires Valid()
    {
      NumberChars() + Repeat('0', Fill()) + SignChar(c.negative, flags)
    }

    function Field(): string
      requires Valid()
    {
      Justify(Reverse(Clip(Chars())), width, flags.left, flags.zeropad)
    }

    function Layout(): DecimalLayout
      requires Valid()
    {
      var whole, frac := Reverse(IntegralDigits()), Reverse(FractionDigits()) + Repeat('0', zeros);
      if HasPoint() then DecimalLayout(SignChar(c.negative, flags), Fill(), whole, ".", frac)
      else DecimalLayout(SignChar(c.negative, flags), Fill(), whole + frac, "", "")
    }

    /** The buffer has room for the number and its minus sign. */
    predicate Fits()
      requires Valid()
    {
      && |NumberChars()| + (if c.negative then 1 else 0) <= BUFFER_SIZE
      && (c.negative && flags.ZeroFilled() ==> width <= BUFFER_SIZE)
    }
  }

  /** The pieces of a printed decimal, each as it reads. */
  datatype DecimalLayout = DecimalLayout(sign: string, fill: nat, whole: string, point: string, frac: string)
  {
    function Body(): string { whole + point + frac }

    function Full(): string { sign + Repeat('0', fill) + Body() }

    ghost predicate Valid()
    {
      && |sign| <= 1 && (sign != "" ==> sign[0] == '-' || sign[0] == '+' || sign[0] == ' ')
      && AllDigits(whole, 10) && AllDigits(frac, 10)
      && (point == "." || (point == "" && frac == ""))
      && whole != ""
    }

    /** No leading zero but for zero itself. */
    predicate Canonical() { |whole| == 1 || (whole != "" && whole[0] != '0') }

    /** What is left to read when the buffer has no room for the body: the last characters. */
    function CutReading(): Option<Decimal>
      requires |Body()| > BUFFER_SIZE && (point == "." || (point == "" && frac == ""))
    {
      var cut := |Body()| - BUFFER_SIZE;
      if cut < |whole| then Some(Decimal(false, Value(whole[cut..] + frac, 10), |frac|))
      else if cut == |whole| then None
      else Some(Decimal(false, Value(frac[cut - |whole| - 1..], 10), 0))
    }
  }

  /** The last characters, as many as the scratch buffer holds. */
  function Tail(s: string): (r: string)
    ensures |r| == Min(|s|, BUFFER_SIZE)
  {
    s[|s| - Min(|s|, BUFFER_SIZE)..]
  }

  lemma FieldIsTail(d: DecimalJob)
    requires d.Valid()
    ensures d.Field() == Justify(Tail(d.Layout().Full()), d.width, d.flags.left, d.flags.zeropad)
  {
    hide DigitChars, PaddedDigits;
    ReversePrefix(d.Chars(), Min(|d.Chars()|, BUFFER_SIZE));
    CharsReversed(d);
  }

  lemma CharsReversed(d: DecimalJob)
    requires d.Valid()
    ensures Reverse(d.Chars()) == d.Layout().Full()
  {
    hide DigitChars, PaddedDigits, Stripped, Reverse, Repeat;
    var l := d.Layout();
    BodyReversed(d);
    SignedReversed(d.NumberChars(), l.fill, l.sign);
  }

  lemma BodyReversed(d: DecimalJob)
    requires d.Valid()
    ensures Reverse(d.NumberChars()) == d.Layout().Body()
  {
    hide DigitChars, PaddedDigits, Stripped, Reverse, Repeat;
    NumberReversed(Repeat('0', d.zeros), d.FractionDigits(), if d.HasPoint() then "." else "", d.IntegralDigits());
    ReverseRepeat('0', d.zeros);
  }

  lemma SignedReversed(number: string, fill: nat, sign: string)
    requires |sign| <= 1
    ensures Reverse(number + Repeat('0', fill) + sign) == sign + Repeat('0', fill) + Reverse(number)
  {
    ReverseConcat(number + Repeat('0', fill), sign);
    ReverseConcat(number, Repeat('0', fill));
    ReverseRepeat('0', fill);
    assert Reverse(sign) == sign;
    assert sign + (Repeat('0', fill) + Reverse(number)) == sign + Repeat('0', fill) + Reverse(number);
  }

  lemma NumberReversed(zs: string, f: string, p: string, w: string)
    requires |p| <= 1
    ensures Reverse(zs + f + p + w) == Reverse(w) + p + (Reverse(f) + Reverse(zs))
    ensures p == "" ==> Reverse(zs + f + p + w) == Reverse(w) + (Reverse(f) + Reverse(zs)) + "" + ""
  {
    ReverseConcat(zs + f + p, w);
    ReverseConcat(zs + f, p);
    ReverseConcat(zs, f);
    assert Reverse(p) == p;
  }

  // ----- reading it back

  lemma {:induction false} PointIs(t: string, k: nat)
    requires k <= |t| && (forall i :: 0 <= i < k ==> t[i] != '.') && (k < |t| ==> t[k] == '.')
    ensures PointIndex(t) == k
  {
    if k > 0 {
      PointIs(t[1..], k - 1);
    }
  }

  lemma ReadParts(negative: bool, w: string, point: string, frac: string)
    requires AllDigits(w, 10) && AllDigits(frac, 10)
    requires point == "." || (point == "" && frac == "")
    ensures ReadMagnitude(negative, w + point + frac)
            == if w == "" then None else Some(Decimal(negative, Value(w + frac, 10), |frac|))
  {
    hide Value;
    var t := w + point + frac;
    forall i | 0 <= i < |w|
      ensures t[i] != '.'
    {
      assert DigitValue(w[i]) < 10;
      assert t[i] == w[i];
    }
    PointIs(t, |w|);
    assert t[..|w|] == w;
    if point == "." {
      assert t[|w| + 1..] == frac;
    } else {
      assert t == w;
    }
  }

  /** What is read from a padded decimal. */
  lemma ReadDecimalText(head: string, w: string, point: string, frac: string,
                        width: nat, left: bool, zeropad: bool)
    requires AllDigits(w, 10) && AllDigits(frac, 10)
    requires point == "." || (point == "" && frac == "")
    requires |head| <= 1 && (head != "" ==> head[0] == '-' || head[0] == '+' || head[0] == ' ')
    ensures ReadDecimal(Justify(head + (w + point + frac), width, left, zeropad))
            == if w == "" then None else Some(Decimal(IsMinus(head), Value(w + frac, 10), |frac|))
  {
    var run := w + point + frac;
    RunEdges(w, point, frac);
    TrimJustified(head, run, width, left, zeropad);
    ReadHead(head, run);
    ReadParts(IsMinus(head), w, point, frac);
  }

  lemma RunEdges(w: string, point: string, frac: string)
    requires AllDigits(w, 10) && AllDigits(frac, 10)
    requires point == "." || (point == "" && frac == "")
    ensures var run := w + point + frac;
            run != "" ==> run[|run| - 1] != ' ' && run[0] != ' ' && run[0] != '-' && run[0] != '+'
  {
    assert w != "" ==> DigitValue(w[0]) < 10 && DigitValue(w[|w| - 1]) < 10;
    assert frac != "" ==> DigitValue(frac[|frac| - 1]) < 10;
    var run := w + point + frac;
    if run != "" {
      assert run[0] == if w != "" then w[0] else '.';
      assert run[|run| - 1] == if frac != "" then frac[|frac| - 1] else if point != "" then '.' else w[|w| - 1];
    }
  }

  lemma ReadHead(head: string, run: string)
    requires |head| <= 1 && (head != "" ==> head[0] == '-' || head[0] == '+' || head[0] == ' ')
    requires run != "" ==> run[0] != '-' && run[0] != '+'
    ensures ReadSignedDecimal(if head == " " then run else head + run) == ReadMagnitude(IsMinus(head), run)
  {
    if head == "" {
      assert head + run == run;
    } else {
      assert (head + run)[0] == head[0] && (head + run)[1..] == run;
    }
  }

  /** The zeros that fit in front of a body that fits. */
  function KeptZeros(l: DecimalLayout): nat
    requires |l.Body()| <= BUFFER_SIZE
  {
    Min(l.fill, BUFFER_SIZE - |l.Body()|)
  }

  lemma TailKeepsBody(l: DecimalLayout)
    requires l.Valid() && |l.Body()| <= BUFFER_SIZE
    ensures Tail(l.Full())
            == if |l.Full()| <= BUFFER_SIZE then l.sign + (Repeat('0', KeptZeros(l)) + l.whole + l.point + l.frac)
               else "" + (Repeat('0', KeptZeros(l)) + l.whole + l.point + l.frac)
  {
    hide Repeat, Tail;
    var zeros, body := Repeat('0', l.fill), l.Body();
    assert Repeat('0', KeptZeros(l)) + l.whole + l.point + l.frac == Repeat('0', KeptZeros(l)) + body;
    TailOfConcat(l.sign + zeros, body);
    if |l.Full()| <= BUFFER_SIZE {
      assert l.sign + zeros + body == l.sign + (zeros + body);
    } else {
      FrontEnd(l.sign, l.fill, KeptZeros(l));
    }
  }

  lemma TailOfConcat(a: string, b: string)
    requires |b| <= BUFFER_SIZE
    ensures Tail(a + b) == a[|a| - Min(|a|, BUFFER_SIZE - |b|)..] + b
    ensures |a + b| <= BUFFER_SIZE ==> Tail(a + b) == a + b
  {
  }

  lemma FrontEnd(sign: string, fill: nat, kept: nat)
    requires kept <= fill
    ensures var front := sign + Repeat('0', fill);
            front[|front| - kept..] == "" + Repeat('0', kept)
  {
  }

  lemma PaddedWhole(n: nat, whole: string, frac: string)
    requires AllDigits(whole, 10)
    ensures AllDigits(Repeat('0', n) + whole, 10)
    ensures Value(Repeat('0', n) + whole + frac, 10) == Value(whole + frac, 10)
  {
    hide Value;
    RepeatElements('0', n);
    LeadingZeros(n, whole + frac, 10);
    assert Repeat('0', n) + whole + frac == Repeat('0', n) + (whole + frac);
  }

  /** The buffer keeps the sign and every digit: the reader gets them all. */
  lemma WholeLayoutReads(l: DecimalLayout, width: nat, left: bool, zeropad: bool)
    requires l.Valid() && |l.Body()| <= BUFFER_SIZE
    requires IsMinus(l.sign) ==> |l.Full()| <= BUFFER_SIZE
    ensures ReadDecimal(Justify(Tail(l.Full()), width, left, zeropad))
            == Some(Decimal(IsMinus(l.sign), Value(l.whole + l.frac, 10), |l.frac|))
  {
    hide Value, ReadDecimal, Justify, Tail;
    var head := if |l.Full()| <= BUFFER_SIZE then l.sign else "";
    TailKeepsBody(l);
    PaddedWhole(KeptZeros(l), l.whole, l.frac);
    ReadDecimalText(head, Repeat('0', KeptZeros(l)) + l.whole, l.point, l.frac, width, left, zeropad);
  }

  /** The buffer loses characters: the reader gets what is left, without a sign. */
  lemma CutLayoutReads(l: DecimalLayout, width: nat, left: bool, zeropad: bool)
    requires l.Valid() && |l.Body()| > BUFFER_SIZE
    ensures ReadDecimal(Justify(Tail(l.Full()), width, left, zeropad)) == l.CutReading()
  {
    hide Value, ReadDecimal, Justify;
    var cut := |l.Body()| - BUFFER_SIZE;
    assert Tail(l.Full()) == l.Body()[cut..];
    if cut < |l.whole| {
      var w := l.whole[cut..];
      assert l.Body()[cut..] == "" + (w + l.point + l.frac);
      ReadDecimalText("", w, l.point, l.frac, width, left, zeropad);
    } else if cut == |l.whole| {
      assert l.Body()[cut..] == "" + ("" + l.point + l.frac);
      ReadDecimalText("", "", l.point, l.frac, width, left, zeropad);
    } else {
      var w := l.frac[cut - |l.whole| - 1..];
      assert l.Body()[cut..] == "" + (w + "" + "");
      assert w + "" == w;
      ReadDecimalText("", w, "", "", width, left, zeropad);
    }
  }

  /** What is left is not the whole number. */
  lemma CutReadingDiffers(l: DecimalLayout)
    requires l.Valid() && l.Canonical() && |l.Body()| > BUFFER_SIZE
    ensures l.CutReading() != Some(Decimal(IsMinus(l.sign), Value(l.whole + l.frac, 10), |l.frac|))
  {
    hide Value;
    var cut := |l.Body()| - BUFFER_SIZE;
    if cut < |l.whole| {
      LostDigits(l.whole, cut, l.frac);
    }
  }

  /** A number without leading zero that loses leading digits becomes smaller. */
  lemma LostDigits(whole: string, cut: nat, frac: string)
    requires 0 < cut < |whole| && AllDigits(whole, 10) && whole[0] != '0'
    ensures Value(whole[cut..] + frac, 10) < Value(whole + frac, 10)
  {
    hide Value, Pow;
    var lost, kept := whole[..cut], whole[cut..] + frac;
    assert whole + frac == lost + kept;
    ValueConcat(lost, kept, 10);
    PowPositive(10, |kept|);
    assert DigitValue(lost[0]) < 10;
    LeadingDigitCounts(lost);
    PositiveProduct(Value(lost, 10), Pow(10, |kept|));
  }

  lemma {:induction false} LeadingDigitCounts(t: string)
    requires t != "" && 0 < DigitValue(t[0]) < 10
    ensures Value(t, 10) > 0
  {
    if |t| > 1 {
      LeadingDigitCounts(t[..|t| - 1]);
    }
  }

  lemma PositiveProduct(a: nat, b: nat)
    requires a > 0 && b > 0
    ensures a * b > 0
  {
  }

  /** The sign is lost: the reader takes a negative number for a non-negative one. */
  lemma UnsignedLayoutReads(l: DecimalLayout, width: nat, left: bool, zeropad: bool)
    requires l.Valid() && IsMinus(l.sign) && |l.Body()| <= BUFFER_SIZE < |l.Full()|
    ensures ReadDecimal(Justify(Tail(l.Full()), width, left, zeropad))
            == Some(Decimal(false, Value(l.whole + l.frac, 10), |l.frac|))
  {
    hide Value, ReadDecimal, Justify;
    WholeLayoutReads(l.(sign := ""), width, left, zeropad);
    assert Tail(l.Full()) == Tail(l.(sign := "").Full());
  }

  lemma LayoutReadsBack(l: DecimalLayout, width: nat, left: bool, zeropad: bool)
    requires l.Valid() && (|l.Body()| > BUFFER_SIZE ==> l.Canonical())
    ensures ReadDecimal(Justify(Tail(l.Full()), width, left, zeropad))
            == Some(Decimal(IsMinus(l.sign), Value(l.whole + l.frac, 10), |l.frac|))
            <==> |l.Body()| <= BUFFER_SIZE && (IsMinus(l.sign) ==> |l.Full()| <= BUFFER_SIZE)
  {
    hide Value, ReadDecimal, Justify, Tail;
    if |l.Body()| > BUFFER_SIZE {
      CutLayoutReads(l, width, left, zeropad);
      CutReadingDiffers(l);
    } else if IsMinus(l.sign) && |l.Full()| > BUFFER_SIZE {
      UnsignedLayoutReads(l, width, left, zeropad);
    } else {
      WholeLayoutReads(l, width, left, zeropad);
    }
  }

  // ----- the number in a layout

  lemma IntegralReads(d: DecimalJob)
    requires d.Valid()
    ensures var w := Reverse(d.IntegralDigits());
            AllDigits(w, 10) && Value(w, 10) == d.c.integral && w != "" && (|w| == 1 || w[0] != '0')
  {
    if d.c.integral == 0 {
      ReverseOne('0');
      OneDigit("0", 10);
    } else {
      var s := DigitChars(d.c.integral, 10, false);
      DigitCharsAreDigits(d.c.integral, 10, false);
      DigitsReadBack(d.c.integral, 10, false);
      TopDigit(d.c.integral, 10, false);
      ReverseDigits(s, 10);
      ReverseElements(s);
    }
  }

  lemma ConcatShift(a: string, b: string)
    ensures Value(a + b, 10) == Shift(Value(a, 10), |b|) + Value(b, 10)
  {
    ValueConcat(a, b, 10);
  }

  /** `n` digits of `f` followed by `z` zeros. */
  lemma FractionReads(f: nat, n: nat, z: nat)
    requires f < Pow(10, n)
    ensures var frac := Reverse(PaddedDigits(f, n)) + Repeat('0', z);
            AllDigits(frac, 10) && |frac| == n + z && Value(frac, 10) == Shift(f, z)
  {
    PaddedDigitsReadBack(f, n);
    ReverseDigits(PaddedDigits(f, n), 10);
    RepeatElements('0', z);
    ConcatShift(Reverse(PaddedDigits(f, n)), Repeat('0', z));
    ValueZeros(z, 10);
  }

  /** Integral part `i`, then `n` digits of `f`, then `z` zeros. */
  lemma NumberReads(w: string, i: nat, f: nat, n: nat, z: nat)
    requires f < Pow(10, n) && Value(w, 10) == i
    ensures Value(w + (Reverse(PaddedDigits(f, n)) + Repeat('0', z)), 10) == Shift(Shift(i, n) + f, z)
  {
    hide Value, Pow, Shift, PaddedDigits;
    FractionReads(f, n, z);
    ConcatShift(w, Reverse(PaddedDigits(f, n)) + Repeat('0', z));
    ShiftSum(Shift(i, n), f, z);
    ShiftTwice(i, n, z);
  }

  lemma FitsLayout(d: DecimalJob)
    requires d.Valid()
    ensures var l := d.Layout();
            |l.Body()| == |d.NumberChars()| && (IsMinus(l.sign) <==> d.c.negative)
            && (d.Fits() <==> |l.Body()| <= BUFFER_SIZE && (IsMinus(l.sign) ==> |l.Full()| <= BUFFER_SIZE))
  {
    hide DigitChars, PaddedDigits, Repeat;
  }

  /** The layout of a number printed without dropping zeros. */
  lemma PlainLayout(d: DecimalJob)
    requires d.Valid() && !d.Adaptive() && (d.precision == 0 ==> d.zeros == 0)
    ensures var l := d.Layout();
            l.Valid() && l.Canonical() && |l.frac| == d.precision + d.zeros
            && Value(l.whole + l.frac, 10) == Shift(Shift(d.c.integral, d.precision) + d.c.fractional, d.zeros)
  {
    hide DigitChars, Value, Shift, Pow;
    IntegralReads(d);
    FractionReads(d.c.fractional, d.precision, d.zeros);
    NumberReads(Reverse(d.IntegralDigits()), d.c.integral, d.c.fractional, d.precision, d.zeros);
    if !d.HasPoint() {
      var w := Reverse(d.IntegralDigits());
      assert w + (Reverse(PaddedDigits(d.c.fractional, 0)) + Repeat('0', 0)) == w;
    }
  }
}
