/** The reader of widths and precisions in a format, and its agreement with the printer. */
module DecimalParser {
  import opened Text
  import opened Numerals
  import opened FormatFlags
  import opened IntegerFields

  predicate IsDigit(c: char) { '0' <= c <= '9' }

  /** How many digits `t` starts with. */
  function LeadingDigits(t: string): (n: nat)
    ensures n <= |t|
    ensures forall i :: 0 <= i < n ==> IsDigit(t[i])
    ensures n < |t| ==> !IsDigit(t[n])
  {
    if t != "" && IsDigit(t[0]) then 1 + LeadingDigits(t[1..]) else 0
  }

  /** The number at the start of `t`, as far as an unsigned int holds it. */
  function ParsedNumber(t: string): (n: nat)
    ensures n < SIZE_MODULUS
  {
    Value(t[..LeadingDigits(t)], 10) % SIZE_MODULUS
  }

  lemma {:induction false} LeadingDigitsAre(t: string, n: nat)
    requires n <= |t| && (forall i :: 0 <= i < n ==> IsDigit(t[i])) && (n < |t| ==> !IsDigit(t[n]))
    ensures LeadingDigits(t) == n
  {
    if n > 0 {
      LeadingDigitsAre(t[1..], n - 1);
    }
  }

  /** atou_: the wrapped accumulation of digits computes the number modulo the word size. */
  method Atou(format: string, start: nat) returns (i: nat, next: nat)
    requires start <= |format|
    ensures next == start + LeadingDigits(format[start..])
    ensures i == ParsedNumber(format[start..])
  {
    hide Value;
    i, next := 0, start;
    EmptyNumber(format[start..start]);
    while next < |format| && IsDigit(format[next])
      invariant start <= next <= |format|
      invariant forall k :: start <= k < next ==> IsDigit(format[k])
      invariant i == Value(format[start..next], 10) % SIZE_MODULUS
    {
      var d := (format[next] - '0') as nat;
      OneMoreDigit(format[start..next], format[next]);
      assert format[start..next + 1] == format[start..next] + [format[next]];
      i := (i * 10 + d) % SIZE_MODULUS;
      next := next + 1;
    }
    LeadingDigitsAre(format[start..], next - start);
    assert format[start..][..next - start] == format[start..next];
  }

  lemma EmptyNumber(t: string)
    ensures t == "" ==> Value(t, 10) == 0
  {
  }

  lemma OneMoreDigit(t: string, c: char)
    requires IsDigit(c)
    ensures Value(t + [c], 10) % SIZE_MODULUS
            == (Value(t, 10) % SIZE_MODULUS * 10 + (c - '0') as nat) % SIZE_MODULUS
  {
    assert (t + [c])[..|t|] == t;
    WrappedDigit(Value(t, 10), (c - '0') as nat);
  }

  lemma WrappedDigit(v: nat, d: nat)
    ensures (v * 10 + d) % SIZE_MODULUS == (v % SIZE_MODULUS * 10 + d) % SIZE_MODULUS
  {
    var q, r := v / SIZE_MODULUS, v % SIZE_MODULUS;
    assert v * 10 + d == r * 10 + d + SIZE_MODULUS * (10 * q);
    WrappedSum(r * 10 + d, 10 * q);
  }

  lemma WrappedSum(x: nat, k: nat)
    ensures (x + SIZE_MODULUS * k) % SIZE_MODULUS == x % SIZE_MODULUS
  {
  }

  /** `v` printed with no flag, width or precision. */
  function PlainText(v: nat): string
  {
    Job(v, false, 10, 0, 0, NO_FLAGS).Field()
  }

  /** Printer and parser undo each other: a number printed in plain decimal is read back up
      to the first character that is no digit, and exactly when it fits an unsigned int. */
  lemma PrintedNumberParses(v: nat, rest: string)
    requires v < 0x1_0000_0000_0000_0000
    requires rest != "" ==> !IsDigit(rest[0])
    ensures LeadingDigits(PlainText(v) + rest) == |PlainText(v)|
    ensures ParsedNumber(PlainText(v) + rest) == v % SIZE_MODULUS
    ensures ParsedNumber(PlainText(v) + rest) == v <==> v < SIZE_MODULUS
  {
    hide PlainText, ParsedNumber, LeadingDigits;
    PlainDecimal(v);
    DigitsThenRest(PlainText(v), rest);
  }

  lemma DigitsThenRest(text: string, rest: string)
    requires AllDigits(text, 10)
    requires rest != "" ==> !IsDigit(rest[0])
    ensures LeadingDigits(text + rest) == |text|
    ensures ParsedNumber(text + rest) == Value(text, 10) % SIZE_MODULUS
  {
    hide Value;
    forall i | 0 <= i < |text|
      ensures IsDigit((text + rest)[i])
    {
      assert DigitValue(text[i]) < 10;
    }
    assert |text| < |text + rest| ==> (text + rest)[|text|] == rest[0];
    LeadingDigitsAre(text + rest, |text|);
    assert (text + rest)[..|text|] == text;
  }

  lemma PlainDecimal(v: nat)
    requires v < 0x1_0000_0000_0000_0000
    ensures AllDigits(PlainText(v), 10) && Value(PlainText(v), 10) == v
  {
    hide DigitChars, Value, AllDigits;
    var s := Job(v, false, 10, 0, 0, NO_FLAGS).Plan();
    DigitBounds(v, 10, false);
    DigitsReadAs(v, 10, NO_FLAGS);
    FieldText(s);
    assert s.Parts().zeros == 0;
    assert s.Field() == Reverse(s.digits);
  }
}
