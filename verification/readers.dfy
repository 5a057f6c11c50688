/** Independent readers: what a person or a strtol-like function makes of printed text. */
module Readers {
  import opened Text
  import opened Numerals

  datatype Option<+T> = None | Some(value: T)

  function TrimLeft(t: string): string
  {
    if t != "" && t[0] == ' ' then TrimLeft(t[1..]) else t
  }

  function TrimRight(t: string): string
  {
    if t != "" && t[|t| - 1] == ' ' then TrimRight(t[..|t| - 1]) else t
  }

  /** Spaces around the number, an optional sign, an optional `0x` or `0b` in the bases
      that have one, then nothing but digits; no digits at all denote zero. */
  function ReadInteger(text: string, base: nat): Option<int>
  {
    ReadSigned(TrimLeft(TrimRight(text)), base)
  }

  function ReadSigned(t: string, base: nat): Option<int>
  {
    if t != "" && t[0] == '-' then
      (match ReadPrefixed(t[1..], base) case None => None case Some(v) => Some(-v))
    else if t != "" && t[0] == '+' then ReadPrefixed(t[1..], base)
    else ReadPrefixed(t, base)
  }

  function ReadPrefixed(t: string, base: nat): Option<int>
  {
    if base == 16 && |t| >= 2 && t[0] == '0' && (t[1] == 'x' || t[1] == 'X') then ReadDigits(t[2..], base)
    else if base == 2 && |t| >= 2 && t[0] == '0' && t[1] == 'b' then ReadDigits(t[2..], base)
    else ReadDigits(t, base)
  }

  function ReadDigits(t: string, base: nat): Option<int>
  {
    if AllDigits(t, base) then Some(Value(t, base)) else None
  }

  lemma {:induction false} TrimLeftSpaces(n: nat, t: string)
    requires t == "" || t[0] != ' '
    ensures TrimLeft(Repeat(' ', n) + t) == t
  {
    if n == 0 {
      assert Repeat(' ', n) + t == t;
    } else {
      RepeatFront(' ', n - 1);
      assert Repeat(' ', n) + t == [' '] + (Repeat(' ', n - 1) + t);
      TrimLeftSpaces(n - 1, t);
    }
  }

  lemma {:induction false} TrimRightSpaces(t: string, n: nat)
    ensures TrimRight(t + Repeat(' ', n)) == TrimRight(t)
  {
    if n == 0 {
      assert t + Repeat(' ', n) == t;
    } else {
      assert (t + Repeat(' ', n))[..|t| + n - 1] == t + Repeat(' ', n - 1);
      TrimRightSpaces(t, n - 1);
    }
  }

  lemma TrimSpaces(before: nat, core: string, after: nat)
    requires core == "" || (core[0] != ' ' && core[|core| - 1] != ' ')
    ensures TrimLeft(TrimRight(Repeat(' ', before) + core + Repeat(' ', after))) == core
  {
    var t := Repeat(' ', before) + core;
    TrimRightSpaces(t, after);
    if core == "" {
      TrimRightSpaces("", before);
      assert t == "" + Repeat(' ', before);
    } else {
      assert t[|t| - 1] == core[|core| - 1];
      TrimLeftSpaces(before, core);
    }
  }

  /** Padding, and a space in place of a sign, are invisible to the readers. */
  lemma TrimJustified(head: string, run: string, width: nat, left: bool, zeropad: bool)
    requires head == "" || head == " " || (head[0] != ' ' && head[|head| - 1] != ' ')
    requires run != "" ==> run[0] != ' ' && run[|run| - 1] != ' '
    ensures TrimLeft(TrimRight(Justify(head + run, width, left, zeropad)))
            == if head == " " then run else head + run
  {
    hide TrimLeft, TrimRight;
    var text := head + run;
    var n := Max(width - |text|, 0);
    var before, after := if left || zeropad then 0 else n, if left then n else 0;
    var field := Justify(text, width, left, zeropad);
    assert field == Repeat(' ', before) + text + Repeat(' ', after);
    if head == " " {
      assert field == Repeat(' ', before + 1) + run + Repeat(' ', after);
      TrimSpaces(before + 1, run, after);
    } else {
      TrimSpaces(before, text, after);
    }
  }

  /** A sign, a space for one, an octal zero or a whole prefix: nothing that changes the
      number but a minus sign. */
  predicate IsHarmlessHead(head: string, base: nat)
  {
    || |head| == 0
    || (|head| == 1 && (head[0] == '+' || head[0] == ' ' || head[0] == '0'))
    || (|head| == 2 && head[0] == '0'
        && ((base == 16 && (head[1] == 'x' || head[1] == 'X')) || (base == 2 && head[1] == 'b')))
  }

  predicate IsMinus(head: string) { |head| == 1 && head[0] == '-' }

  /** A prefix that lost its zero. */
  predicate IsBrokenPrefix(head: string, base: nat)
  {
    |head| == 1 && ((base == 16 && (head[0] == 'x' || head[0] == 'X')) || (base == 2 && head[0] == 'b'))
  }

  /** What a head denotes in front of digits of value `v`. */
  function Denoted(head: string, v: nat, base: nat): Option<int>
  {
    if IsMinus(head) then Some(-(v as int))
    else if IsHarmlessHead(head, base) then Some(v)
    else None
  }

  /** What is read from a padded text made of a head and a run of digits. */
  lemma ReadJustified(head: string, run: string, base: nat, width: nat, left: bool, zeropad: bool)
    requires IsBase(base) && AllDigits(run, base)
    requires IsMinus(head) || IsHarmlessHead(head, base) || IsBrokenPrefix(head, base)
    ensures ReadInteger(Justify(head + run, width, left, zeropad), base) == Denoted(head, Value(run, base), base)
  {
    DigitsAreNotSpaces(run, base);
    TrimJustified(head, run, width, left, zeropad);
    ReadCore(head, run, base);
  }

  lemma DigitsAreNotSpaces(run: string, base: nat)
    requires IsBase(base) && AllDigits(run, base)
    ensures run != "" ==> run[0] != ' ' && run[|run| - 1] != ' '
  {
    assert run != "" ==> DigitValue(run[0]) < base && DigitValue(run[|run| - 1]) < base;
  }

  lemma ReadCore(head: string, run: string, base: nat)
    requires IsBase(base) && AllDigits(run, base)
    requires IsMinus(head) || IsHarmlessHead(head, base) || IsBrokenPrefix(head, base)
    ensures ReadSigned(if head == " " then run else head + run, base) == Denoted(head, Value(run, base), base)
  {
    if head == "" || head == " " {
      assert "" + run == run;
      ReadRun(run, base);
    } else if head[0] == '-' || head[0] == '+' {
      assert (head + run)[1..] == run;
      ReadRun(run, base);
    } else {
      ReadUnsigned(head, run, base);
    }
  }

  lemma ReadUnsigned(head: string, run: string, base: nat)
    requires IsBase(base) && AllDigits(run, base)
    requires |head| > 0 && head[0] != '-' && head[0] != '+' && head[0] != ' '
    requires IsHarmlessHead(head, base) || IsBrokenPrefix(head, base)
    ensures ReadSigned(head + run, base) == Denoted(head, Value(run, base), base)
  {
    hide Value;
    var t := head + run;
    assert t[0] == head[0] && t[|head|..] == run;
    if head[0] == '0' && |head| == 1 {
      LeadingZeros(1, run, base);
      assert t == Repeat('0', 1) + run;
      ReadRun(t, base);
    }
  }

  lemma ReadRun(run: string, base: nat)
    requires IsBase(base) && AllDigits(run, base)
    ensures ReadPrefixed(run, base) == ReadSigned(run, base) == Some(Value(run, base))
  {
    hide Value;
    assert |run| > 0 ==> DigitValue(run[0]) < base;
    assert |run| > 1 ==> DigitValue(run[1]) < base;
  }
}
