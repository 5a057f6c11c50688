/** Positional numerals: the characters a printer writes for a number, least significant
    first, and the number a reader gets back from a text, most significant first. */
module Numerals {
  import opened Text

  function Pow(b: nat, e: nat): nat
  {
    if e == 0 then 1 else b * Pow(b, e - 1)
  }

  /** The character of one digit, as chosen in print_integer. */
  function DigitChar(d: nat, upper: bool): char
    requires d < 16
  {
    if d < 10 then '0' + d as char else (if upper then 'A' else 'a') + (d - 10) as char
  }

  /** The value of a digit character in either case; 16 for any other character. */
  function DigitValue(c: char): nat
  {
    if '0' <= c <= '9' then (c - '0') as nat
    else if 'a' <= c <= 'f' then (c - 'a') as nat + 10
    else if 'A' <= c <= 'F' then (c - 'A') as nat + 10
    else 16
  }

  predicate AllDigits(t: string, base: nat)
  {
    forall i :: 0 <= i < |t| ==> DigitValue(t[i]) < base
  }

  /** What a reader makes of a run of digits, most significant first. */
  function Value(t: string, base: nat): nat
  {
    if t == "" then 0 else Value(t[..|t| - 1], base) * base + DigitValue(t[|t| - 1])
  }

  /** BASE_BINARY, BASE_OCTAL, BASE_DECIMAL, BASE_HEX. */
  predicate IsBase(base: nat) { base == 2 || base == 8 || base == 10 || base == 16 }

  /** The significant digits of `v`, least significant first; none for zero. */
  function DigitChars(v: nat, base: nat, upper: bool): (s: string)
    requires IsBase(base)
    decreases v
  {
    if v == 0 then "" else [DigitChar(Rem(v, base), upper)] + DigitChars(Quot(v, base), base, upper)
  }

  /** `v / base`, one constant divisor at a time. */
  function Quot(v: nat, base: nat): (q: nat)
    requires IsBase(base)
    ensures v > 0 ==> q < v
  {
    if base == 2 then v / 2 else if base == 8 then v / 8 else if base == 10 then v / 10 else v / 16
  }

  /** `v % base`. */
  function Rem(v: nat, base: nat): (r: nat)
    requires IsBase(base)
    ensures r < base
  {
    if base == 2 then v % 2 else if base == 8 then v % 8 else if base == 10 then v % 10 else v % 16
  }

  /** Exactly `n` decimal digits of `v`, least significant first. */
  function PaddedDigits(v: nat, n: nat): (s: string)
    ensures |s| == n
    decreases n
  {
    if n == 0 then "" else [DigitChar(v % 10, false)] + PaddedDigits(v / 10, n - 1)
  }

  lemma PowPositive(b: nat, e: nat)
    requires b > 0
    ensures Pow(b, e) > 0
  {
  }

  lemma {:induction false} PowSplit(b: nat, e: nat, f: nat)
    ensures Pow(b, e + f) == Pow(b, e) * Pow(b, f)
  {
    if e == 0 {
    } else {
      PowSplit(b, e - 1, f);
      calc {
        Pow(b, e + f);
        b * Pow(b, (e - 1) + f);
        b * (Pow(b, e - 1) * Pow(b, f));
        (b * Pow(b, e - 1)) * Pow(b, f);
      }
    }
  }

  lemma Regroup(x: nat, p: nat, y: nat, base: nat)
    ensures (x * p + y) * base == x * (base * p) + y * base
  {
    calc {
      (x * p + y) * base;
      (x * p) * base + y * base;
      { assert (x * p) * base == x * (p * base); assert p * base == base * p; }
      x * (base * p) + y * base;
    }
  }

  lemma ScaledBelow(x: nat, d: nat, p: nat, base: nat)
    requires x < p && d < base
    ensures x * base + d < base * p
  {
    assert (p - 1 - x) * base >= 0;
    assert (p - 1 - x) * base == base * p - base - x * base;
  }

  lemma QuotientBelow(v: nat, base: nat, p: nat)
    requires IsBase(base)
    ensures Quot(v, base) < p <==> v < base * p
  {
    if base == 2 {
    } else if base == 8 {
    } else if base == 10 {
    } else {
    }
  }

  lemma {:induction false} ValueConcat(a: string, b: string, base: nat)
    ensures Value(a + b, base) == Value(a, base) * Pow(base, |b|) + Value(b, base)
  {
    if b == "" {
      assert a + b == a;
    } else {
      var c := b[..|b| - 1];
      assert (a + b)[..|a + b| - 1] == a + c;
      ValueConcat(a, c, base);
      Regroup(Value(a, base), Pow(base, |c|), Value(c, base), base);
    }
  }

  lemma {:induction false} ValueZeros(n: nat, base: nat)
    ensures Value(Repeat('0', n), base) == 0
  {
    if n > 0 {
      assert Repeat('0', n)[..n - 1] == Repeat('0', n - 1);
      ValueZeros(n - 1, base);
    }
  }

  lemma OneDigit(t: string, base: nat)
    requires |t| == 1
    ensures Value(t, base) == DigitValue(t[0]) && Pow(base, 1) == base
  {
    assert t[..0] == "";
    assert Pow(base, 0) == 1;
  }

  /** Leading zeros do not change what a reader gets. */
  lemma LeadingZeros(n: nat, t: string, base: nat)
    ensures Value(Repeat('0', n) + t, base) == Value(t, base)
  {
    ValueConcat(Repeat('0', n), t, base);
    ValueZeros(n, base);
  }

  lemma {:induction false} ValueBound(t: string, base: nat)
    requires AllDigits(t, base) && base > 0
    ensures Value(t, base) < Pow(base, |t|)
  {
    if t != "" {
      var c := t[..|t| - 1];
      ValueBound(c, base);
      ScaledBelow(Value(c, base), DigitValue(t[|t| - 1]), Pow(base, |c|), base);
    }
  }

  lemma {:induction false} DigitCharsAreDigits(v: nat, base: nat, upper: bool)
    requires IsBase(base)
    ensures AllDigits(DigitChars(v, base, upper), base)
    decreases v
  {
    if v > 0 {
      DigitCharsAreDigits(Quot(v, base), base, upper);
    }
  }

  lemma DivideOut(v: nat, base: nat)
    requires IsBase(base)
    ensures Quot(v, base) == v / base && Rem(v, base) == v % base
    ensures v == Quot(v, base) * base + Rem(v, base)
  {
    if base == 2 {
    } else if base == 8 {
    } else if base == 10 {
    } else {
    }
  }

  lemma ReverseDigits(t: string, base: nat)
    requires AllDigits(t, base)
    ensures AllDigits(Reverse(t), base)
  {
    ReverseElements(t);
  }

  /** The most significant digit is written last and is not zero. */
  lemma {:induction false} TopDigit(v: nat, base: nat, upper: bool)
    requires IsBase(base) && v > 0
    ensures var s := DigitChars(v, base, upper); s != "" && s[|s| - 1] != '0'
    decreases v
  {
    if Quot(v, base) > 0 {
      TopDigit(Quot(v, base), base, upper);
    }
  }

  /** Reading the digits of `v` the other way round gives `v`. */
  lemma {:induction false} DigitsReadBack(v: nat, base: nat, upper: bool)
    requires IsBase(base)
    ensures Value(Reverse(DigitChars(v, base, upper)), base) == v
    decreases v
  {
    if v > 0 {
      var q, d := Quot(v, base), Rem(v, base);
      DivideOut(v, base);
      DigitsReadBack(q, base, upper);
      LowestDigit(d, DigitChars(q, base, upper), base, upper);
    }
  }

  /** Writing one more low digit in front multiplies what is read by the base. */
  lemma LowestDigit(d: nat, rest: string, base: nat, upper: bool)
    requires IsBase(base) && d < base
    ensures Value(Reverse([DigitChar(d, upper)] + rest), base) == Value(Reverse(rest), base) * base + d
  {
    var low := [DigitChar(d, upper)];
    ReverseConcat(low, rest);
    assert Reverse(low) == low;
    var t := Reverse(rest) + low;
    assert t[..|t| - 1] == Reverse(rest);
  }

  /** `v` takes at most `k` digits exactly when it is below base to the k. */
  lemma {:induction false} DigitCount(v: nat, base: nat, upper: bool, k: nat)
    requires IsBase(base)
    ensures |DigitChars(v, base, upper)| <= k <==> v < Pow(base, k)
    decreases k
  {
    if k == 0 {
      assert v > 0 ==> |DigitChars(v, base, upper)| > 0;
    } else if v == 0 {
      PowPositive(base, k);
    } else {
      DigitCount(Quot(v, base), base, upper, k - 1);
      QuotientBelow(v, base, Pow(base, k - 1));
    }
  }

  lemma {:induction false} PaddedDigitsReadBack(v: nat, n: nat)
    requires v < Pow(10, n)
    ensures AllDigits(PaddedDigits(v, n), 10)
    ensures Value(Reverse(PaddedDigits(v, n)), 10) == v
    decreases n
  {
    if n > 0 {
      PaddedDigitsReadBack(v / 10, n - 1);
      LowestDigit(v % 10, PaddedDigits(v / 10, n - 1), 10, false);
    }
  }

  lemma {:induction false} PaddedZero(n: nat)
    ensures PaddedDigits(0, n) == Repeat('0', n)
  {
    if n > 0 {
      PaddedZero(n - 1);
      RepeatFront('0', n - 1);
    }
  }
}
