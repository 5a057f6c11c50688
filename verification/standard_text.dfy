/** What formatted output should look like, after section 7.21.6.1 of ISO/IEC 9899:2011,
    written down without any of the functions the printers are specified by. */
module StandardText {
  import opened Text
  import opened Numerals
  import opened FormatFlags
  import Bits

  const LOWER_DIGITS := "0123456789abcdef"
  const UPPER_DIGITS := "0123456789ABCDEF"

  /** The numeral of a number, most significant digit first and at least one digit. */
  function Numeral(v: nat, base: nat, upper: bool): (t: string)
    requires IsBase(base)
    ensures t != ""
    decreases v
  {
    var digits := if upper then UPPER_DIGITS else LOWER_DIGITS;
    if v < base then [digits[v]]
    else
      QuotientShrinks(v, base);
      Numeral(v / base, base, upper) + [digits[v % base]]
  }

  lemma QuotientShrinks(v: nat, base: nat)
    requires IsBase(base) && base <= v
    ensures v / base < v
  {
    if base == 2 {
    } else if base == 8 {
    } else if base == 10 {
    } else {
    }
  }

  /** The last `n` decimal digits of a number. */
  function LastDigits(v: nat, n: nat): (t: string)
    ensures |t| == n
    decreases n
  {
    if n == 0 then "" else LastDigits(v / 10, n - 1) + [LOWER_DIGITS[v % 10]]
  }

  /** The sign character of a signed conversion. */
  function SignOf(negative: bool, flags: Flags): string
  {
    if negative then "-" else if flags.plus then "+" else if flags.space then " " else ""
  }

  /** A field of a head and a body: zeros between them, or spaces on one side. */
  function Padded(head: string, body: string, width: nat, left: bool, zeros: bool): string
  {
    var missing := width - |head| - |body|;
    if left then head + body + Repeat(' ', missing)
    else if zeros then head + Repeat('0', missing) + body
    else Repeat(' ', missing) + head + body
  }

  /** The digits of an integer conversion with as many zeros in front as the precision asks. */
  function DigitsOf(v: nat, base: nat, upper: bool, flags: Flags, precision: nat): string
    requires IsBase(base)
  {
    var digits := if v == 0 && flags.precision && precision == 0 then "" else Numeral(v, base, upper);
    Repeat('0', precision - |digits|) + digits
  }

  /** The alternative form: `0x` before a hexadecimal number other than zero, a zero before an
      octal number that does not start with one; and `0b`, which is not in the standard. */
  function PrefixOf(v: nat, base: nat, upper: bool, digits: string, flags: Flags): string
  {
    if !flags.hash then ""
    else if base == 16 then (if v == 0 then "" else if upper then "0X" else "0x")
    else if base == 8 then (if digits != "" && digits[0] == '0' then "" else "0")
    else if base == 2 then (if v == 0 && !flags.precision then "" else "0b")
    else ""
  }

  /** Sign and prefix of an integer. */
  function IntegerHead(v: nat, negative: bool, base: nat, upper: bool, signed: bool, flags: Flags,
                       precision: nat): string
    requires IsBase(base)
  {
    (if signed then SignOf(negative, flags) else "")
    + PrefixOf(v, base, upper, DigitsOf(v, base, upper, flags, precision), flags)
  }

  /** An integer conversion. The `0` flag does not count under a precision. */
  function IntegerText(v: nat, negative: bool, base: nat, upper: bool, signed: bool, flags: Flags,
                       precision: nat, width: nat): string
    requires IsBase(base)
  {
    Padded(IntegerHead(v, negative, base, upper, signed, flags, precision),
           DigitsOf(v, base, upper, flags, precision), width, flags.left, flags.zeropad && !flags.precision)
  }

  /** A decimal conversion with `n` digits after the point, of which the first `p` are those of
      the rounded argument. */
  function DecimalBody(rounded: nat, p: nat, n: nat, flags: Flags): string
    requires p <= n
  {
    PowPositive(10, p);
    Numeral(rounded / Pow(10, p), 10, false) + (if n > 0 || flags.hash then "." else "")
    + (LastDigits(rounded, p) + Repeat('0', n - p))
  }

  function DecimalText(negative: bool, rounded: nat, p: nat, n: nat, flags: Flags, width: nat): string
    requires p <= n
  {
    Padded(SignOf(negative, flags), DecimalBody(rounded, p, n, flags), width, flags.left, flags.zeropad)
  }

  // ----- the digits of the printers

  lemma DigitIs(d: nat, upper: bool)
    requires d < 16
    ensures DigitChar(d, upper) == (if upper then UPPER_DIGITS else LOWER_DIGITS)[d]
  {
    if d < 10 {
      DecimalDigitIs(d, upper);
    } else {
      LetterIs(d, upper);
    }
  }

  lemma DecimalDigitIs(d: nat, upper: bool)
    requires d < 10
    ensures DigitChar(d, upper) == (if upper then UPPER_DIGITS else LOWER_DIGITS)[d]
  {
    if d == 0 {
    } else if d == 1 {
    } else if d == 2 {
    } else if d == 3 {
    } else if d == 4 {
    } else if d == 5 {
    } else if d == 6 {
    } else if d == 7 {
    } else if d == 8 {
    } else {
    }
  }

  lemma LetterIs(d: nat, upper: bool)
    requires 10 <= d < 16
    ensures DigitChar(d, upper) == (if upper then UPPER_DIGITS else LOWER_DIGITS)[d]
  {
    if d == 10 {
    } else if d == 11 {
    } else if d == 12 {
    } else if d == 13 {
    } else if d == 14 {
    } else {
    }
  }

  lemma {:induction false} NumeralIs(v: nat, base: nat, upper: bool)
    requires IsBase(base) && v > 0
    ensures Reverse(DigitChars(v, base, upper)) == Numeral(v, base, upper)
    decreases v
  {
    var q, d := Quot(v, base), Rem(v, base);
    DivideOut(v, base);
    DigitIs(d, upper);
    ReverseConcat([DigitChar(d, upper)], DigitChars(q, base, upper));
    ReverseOne(DigitChar(d, upper));
    if q > 0 {
      NumeralIs(q, base, upper);
      QuotientSmall(v, base);
    } else {
      QuotientSmall(v, base);
      assert DigitChars(0, base, upper) == "";
      assert Reverse("") + [DigitChar(d, upper)] == [DigitChar(d, upper)];
    }
  }

  lemma QuotientSmall(v: nat, base: nat)
    requires IsBase(base)
    ensures Quot(v, base) == 0 <==> v < base
    ensures v < base ==> Rem(v, base) == v
  {
  }

  lemma {:induction false} LastDigitsAre(f: nat, n: nat)
    ensures Reverse(PaddedDigits(f, n)) == LastDigits(f, n)
    decreases n
  {
    if n > 0 {
      LastDigitsAre(f / 10, n - 1);
      DigitIs(f % 10, false);
      ReverseConcat([DigitChar(f % 10, false)], PaddedDigits(f / 10, n - 1));
      ReverseOne(DigitChar(f % 10, false));
    } else {
      assert Reverse("") == "";
    }
  }

  /** The last digits of a number are those of what is left of it under a power of ten. */
  lemma {:induction false} LastDigitsOfRest(v: nat, n: nat)
    requires Pow(10, n) > 0
    ensures LastDigits(v % Pow(10, n), n) == LastDigits(v, n)
    decreases n
  {
    if n > 0 {
      PowPositive(10, n - 1);
      var d := Pow(10, n - 1);
      TenthOfRest(v, d);
      LastDigitsOfRest(v / 10, n - 1);
    }
  }

  lemma TenthOfRest(v: nat, d: nat)
    requires d > 0
    ensures (v % (10 * d)) / 10 == (v / 10) % d && (v % (10 * d)) % 10 == v % 10
  {
    var q, r := v / (10 * d), v % (10 * d);
    assert v == q * (10 * d) + r;
    assert q * (10 * d) == 10 * (q * d);
    assert v / 10 == q * d + r / 10 && v % 10 == r % 10;
    Bits.RemainderIs(v / 10, d, q, r / 10);
  }

  // ----- fields cut to the buffer

  /** A field comes as it should although at most the last 32 characters of an unpadded text
      are kept: the text fits, and so do the zeros; or the one character lost is a space in
      front, where padding replaces it. */
  predicate Uncut(bare: string, width: nat, left: bool, zeros: bool)
  {
    if zeros && !left then |bare| <= 32 && width <= 32
    else |bare| <= 32 || (|bare| == 33 && bare[0] == ' ' && !left && width > 32)
  }

  /** Characters of a number: no space but one in the place of a sign. */
  predicate NumberLike(bare: string)
  {
    forall i :: 0 < i < |bare| ==> bare[i] != ' '
  }

  lemma CutField(head: string, body: string, kept: string, width: nat, left: bool, zeros: bool)
    requires NumberLike(head + body) && |kept| <= 32
    requires |head| + |body| <= 32 && (zeros && !left ==> width <= 32) ==>
               kept == head + Repeat('0', if zeros && !left then width - |head| - |body| else 0) + body
    requires |head| + |body| == 33 && head == " " && !(zeros && !left) ==> kept == body
    requires head + body != "" && (head + body)[0] == ' ' ==> head == " "
    ensures Justify(kept, width, left, zeros) == Padded(head, body, width, left, zeros)
            <==> Uncut(head + body, width, left, zeros)
  {
    var bare := head + body;
    if Uncut(bare, width, left, zeros) {
      if |bare| <= 32 {
        WholeField(head, body, width, left, zeros);
      } else {
        RepeatFront(' ', width - 33);
        assert Repeat(' ', width - 33) + " " + body == Repeat(' ', width - 32) + body;
      }
    } else {
      CutDiffers(head, body, kept, width, left, zeros);
    }
  }

  lemma WholeField(head: string, body: string, width: nat, left: bool, zeros: bool)
    ensures var kept := head + Repeat('0', if zeros && !left then width - |head| - |body| else 0) + body;
            Justify(kept, width, left, zeros) == Padded(head, body, width, left, zeros)
  {
    assert head + "" + body == head + body;
    assert Repeat(' ', width - |head| - |body|) + (head + body) == Repeat(' ', width - |head| - |body|) + head + body;
  }

  lemma CutDiffers(head: string, body: string, kept: string, width: nat, left: bool, zeros: bool)
    requires NumberLike(head + body) && |kept| <= 32 && !Uncut(head + body, width, left, zeros)
    requires head + body != "" && (head + body)[0] == ' ' ==> head == " "
    ensures Justify(kept, width, left, zeros) != Padded(head, body, width, left, zeros)
  {
    var bare := head + body;
    var field, full := Justify(kept, width, left, zeros), Padded(head, body, width, left, zeros);
    if |bare| > 32 && |field| == |full| {
      var missing := width - |bare|;
      if left {
        assert full[|bare| - 1] == bare[|bare| - 1];
        assert field[|bare| - 1] == ' ';
      } else {
        assert full[missing] == bare[0] && full[missing + 1] == bare[1];
        assert field[missing] == ' ';
      }
    }
  }
}
