/** The integer printer, in place on its 32-character scratch buffer, against the field it is
    to print. */
module IntegerPrinter {
  import opened Text
  import opened Numerals
  import opened FormatFlags
  import opened IntegerFields
  import opened Gadget

  /** The padding loops: one space for each column from `from` up to `width`. */
  method EmitSpaces(out: OutputGadget, from: nat, width: nat)
    requires out.Valid()
    modifies out, out.buffer
    ensures out.Valid() && out.emitted == old(out.emitted) + Repeat(' ', width - from)
  {
    var i := from;
    ghost var start := out.emitted;
    Appended(start, "");
    while i < width
      invariant from <= i <= Max(from, width)
      invariant out.Valid() && out.emitted == start + Repeat(' ', i - from)
    {
      Appended(start, Repeat(' ', i - from));
      RepeatFront(' ', i - from);
      out.PutChar(' ');
      i := i + 1;
    }
  }

  /** The reversing loop of out_rev_. */
  method EmitReversed(out: OutputGadget, buf: string)
    requires out.Valid()
    modifies out, out.buffer
    ensures out.Valid() && out.emitted == old(out.emitted) + Reverse(buf)
  {
    ghost var start := out.emitted;
    Appended(start, "");
    var len := |buf|;
    while len > 0
      invariant 0 <= len <= |buf|
      invariant out.Valid() && out.emitted == start + Reverse(buf[len..])
    {
      len := len - 1;
      Appended(start, Reverse(buf[len + 1..]));
      ReverseConcat([buf[len]], buf[len + 1..]);
      ReverseOne(buf[len]);
      assert buf[len..] == [buf[len]] + buf[len + 1..];
      out.PutChar(buf[len]);
    }
    assert buf[0..] == buf;
  }

  /** The right padding loop of out_rev_, which measures what has been written since
      `startPos` by the wrapped positions. */
  method EmitTrailingSpaces(out: OutputGadget, startPos: nat, width: nat, ghost start: nat)
    requires out.Valid() && width < SIZE_MODULUS
    requires start <= |out.emitted| < start + SIZE_MODULUS && startPos == start % SIZE_MODULUS
    modifies out, out.buffer
    ensures out.Valid()
    ensures out.emitted == old(out.emitted) + Repeat(' ', width - (|old(out.emitted)| - start))
  {
    ghost var text, n := out.emitted, 0;
    Appended(text, "");
    WrappedDistance(start, |text| - start);
    while (out.pos - startPos) % SIZE_MODULUS < width
      invariant 0 <= n <= Max(0, width - (|text| - start))
      invariant out.Valid() && out.emitted == text + Repeat(' ', n)
      invariant (out.pos - startPos) % SIZE_MODULUS == |text| - start + n
      decreases width - n
    {
      Appended(text, Repeat(' ', n));
      RepeatFront(' ', n);
      out.PutChar(' ');
      n := n + 1;
      WrappedDistance(start, |text| - start + n);
    }
  }

  /** out_rev_: emit a backwards-written text with the space padding its width asks for. */
  method OutRev(out: OutputGadget, buf: string, width: nat, flags: Flags)
    requires out.Valid() && |buf| < SIZE_MODULUS && width < SIZE_MODULUS
    modifies out, out.buffer
    ensures out.Valid()
    ensures out.emitted == old(out.emitted) + Justify(Reverse(buf), width, flags.left, flags.zeropad)
  {
    var startPos := out.pos;
    ghost var start := out.emitted;
    if !flags.left && !flags.zeropad {
      EmitSpaces(out, |buf|, width);
      Regrouped(start, Repeat(' ', width - |buf|), Reverse(buf));
    }
    EmitReversed(out, buf);
    if flags.left {
      Regrouped(start, Reverse(buf), Repeat(' ', width - |buf|));
      EmitTrailingSpaces(out, startPos, width, |start|);
    }
  }

  lemma Appended(a: string, b: string)
    ensures a + "" == a
    ensures forall c: char :: a + b + [c] == a + (b + [c])
  {
  }

  lemma Regrouped(a: string, b: string, c: string)
    ensures a + b + c == a + (b + c)
  {
  }

  /** `if (len < SIZE) buf[len++] = c` */
  method Push(buf: array<char>, len: nat, c: char) returns (newLen: nat)
    requires buf.Length == BUFFER_SIZE && len <= BUFFER_SIZE
    modifies buf
    ensures newLen <= BUFFER_SIZE
    ensures buf[..newLen] == Clip(old(buf[..len]) + [c])
  {
    newLen := len;
    if len < BUFFER_SIZE {
      buf[len] := c;
      newLen := len + 1;
    }
  }

  /** The padding loops: zeros up to `target` characters, if there is room. */
  method PushZeros(buf: array<char>, len: nat, target: nat) returns (newLen: nat)
    requires buf.Length == BUFFER_SIZE && len <= BUFFER_SIZE
    modifies buf
    ensures newLen == Max(len, Min(target, BUFFER_SIZE))
    ensures buf[..newLen] == old(buf[..len]) + Repeat('0', newLen - len)
  {
    newLen := len;
    while newLen < target && newLen < BUFFER_SIZE
      invariant len <= newLen <= Max(len, Min(target, BUFFER_SIZE))
      invariant buf[..newLen] == old(buf[..len]) + Repeat('0', newLen - len)
    {
      buf[newLen] := '0';
      newLen := newLen + 1;
    }
  }

  /** The sign character, if there is room for it. */
  method PushSign(buf: array<char>, len: nat, negative: bool, flags: Flags) returns (newLen: nat)
    requires buf.Length == BUFFER_SIZE && len <= BUFFER_SIZE
    modifies buf
    ensures newLen <= BUFFER_SIZE
    ensures buf[..newLen] == Clip(old(buf[..len]) + SignChar(negative, flags))
  {
    newLen := len;
    if len < BUFFER_SIZE {
      if negative {
        newLen := Push(buf, len, '-');
      } else if flags.plus {
        newLen := Push(buf, len, '+');
      } else if flags.space {
        newLen := Push(buf, len, ' ');
      }
    }
  }

  /** The zeros asked for by the width or by the precision; `fill` is the width left for
      them. */
  method PushLeadingZeros(buf: array<char>, digits: nat, fill: nat, precision: nat, flags: Flags)
    returns (len: nat)
    requires buf.Length == BUFFER_SIZE && digits <= BUFFER_SIZE
    modifies buf
    ensures len == Max(digits, Max(if flags.ZeroFilled() then Min(fill, BUFFER_SIZE) else 0,
                                   Min(precision, BUFFER_SIZE)))
    ensures buf[..len] == old(buf[..digits]) + Repeat('0', len - digits)
  {
    len := digits;
    if !flags.left {
      if flags.zeropad {
        len := PushZeros(buf, len, fill);
      }
    }
    ghost var n := len;
    len := PushZeros(buf, len, precision);
    RepeatSplit('0', n - digits, len - n);
  }

  /** The prefix of the alternative form, right to left. */
  method PushPrefix(buf: array<char>, digits: nat, base: nat, flags: Flags) returns (len: nat)
    requires buf.Length == BUFFER_SIZE && digits <= BUFFER_SIZE
    modifies buf
    ensures len <= BUFFER_SIZE
    ensures buf[..len] == Clip(old(buf[..digits]) + Reverse(PrefixText(base, flags.upper)))
  {
    ghost var run := buf[..digits];
    ghost var marker := if base == 16 then (if flags.upper then "X" else "x") else if base == 2 then "b" else "";
    len := digits;
    if base == 16 && !flags.upper {
      len := Push(buf, len, 'x');
    } else if base == 16 && flags.upper {
      len := Push(buf, len, 'X');
    } else if base == 2 {
      len := Push(buf, len, 'b');
    }
    assert buf[..len] == Clip(run + marker);
    len := Push(buf, len, '0');
    ClipConcat(run + marker, "0");
    assert run + marker + "0" == run + Reverse(PrefixText(base, flags.upper));
  }

  /** The scratch buffer before the sign, if it had room for everything. */
  function Body(s: Shape): string
    requires s.Valid()
  {
    s.digits + Repeat('0', s.RunLength() - |s.digits|) + Reverse(s.Prefix())
  }

  lemma NoPrefix(s: Shape)
    requires s.Valid() && !s.HasPrefix()
    ensures Clip(Body(s)) == s.digits + Repeat('0', s.ZeroExtended() - |s.digits|)
  {
    assert Reverse("") == "";
    var run := s.digits + Repeat('0', s.RunLength() - |s.digits|);
    assert run + "" == run;
  }

  /** Padding zeros taken back to make room for the prefix. */
  method TakeBack(len: nat, digits: nat, fill: nat, base: nat, precision: nat, flags: Flags) returns (newLen: nat)
    requires digits <= len
    ensures digits <= newLen <= len
    ensures newLen == if !flags.precision && len > 0 && (len == precision || len == fill)
                      then len - Min(len - digits, if base == 16 || base == 2 then 2 else 1)
                      else len
  {
    newLen := len;
    if !flags.precision && len > 0 && (len == precision || len == fill) {
      if digits < newLen {
        newLen := newLen - 1;
      }
      if newLen > 0 && (base == 16 || base == 2) && digits < newLen {
        newLen := newLen - 1;
      }
    }
  }

  /** Zeros and prefix of print_integer_finalization. */
  method PushZerosAndPrefix(buf: array<char>, digits: nat, fill: nat, base: nat, precision: nat, flags: Flags,
                            ghost s: Shape)
    returns (len: nat)
    requires buf.Length == BUFFER_SIZE && s.Valid() && digits == |s.digits| && buf[..digits] == s.digits
    requires s.base == base && s.precision == precision && fill == FillWidth(s.negative, s.width, flags)
    requires flags == s.flags.(hash := s.flags.hash && (!s.isZero || (flags.precision && base != 16)))
    modifies buf
    ensures len <= BUFFER_SIZE
    ensures buf[..len] == Clip(Body(s))
  {
    hide Clip, Reverse, Repeat, PrefixText, Shape.RunLength, Shape.ZeroExtended, Shape.HasPrefix, Shape.Prefix;
    len := PushLeadingZeros(buf, digits, fill, precision, flags);
    var hash := flags.hash;
    if base == 8 && len > digits {
      hash := false;
    }
    PrefixDecision(s, fill, len, flags);
    if hash {
      ghost var n := len;
      len := TakeBack(len, digits, fill, base, precision, flags);
      RunAfterTakeBack(s, fill, len);
      TakenBack(buf[..], s.digits, n, len);
      len := PushPrefix(buf, len, base, flags);
    } else {
      NoPrefix(s);
    }
  }

  lemma PrefixDecision(s: Shape, fill: nat, n: nat, flags: Flags)
    requires s.Valid() && fill == FillWidth(s.negative, s.width, flags)
    requires flags == s.flags.(hash := s.flags.hash && (!s.isZero || (flags.precision && s.base != 16)))
    requires n == Max(|s.digits|, Max(if flags.ZeroFilled() then Min(fill, BUFFER_SIZE) else 0,
                                      Min(s.precision, BUFFER_SIZE)))
    ensures n == s.ZeroExtended()
    ensures s.HasPrefix() <==> flags.hash && !(s.base == 8 && n > |s.digits|)
    ensures s.HasPrefix() ==> s.Prefix() == PrefixText(s.base, flags.upper)
  {
  }

  lemma RunAfterTakeBack(s: Shape, fill: nat, m: nat)
    requires s.Valid() && s.HasPrefix() && fill == FillWidth(s.negative, s.width, s.flags)
    requires var n := s.ZeroExtended();
             m == if !s.flags.precision && n > 0 && (n == s.precision || n == fill)
                  then n - Min(n - |s.digits|, if s.base == 16 || s.base == 2 then 2 else 1)
                  else n
    ensures m == s.RunLength()
  {
  }

  lemma TakenBack(cells: string, d: string, n: nat, m: nat)
    requires |d| <= m <= n <= |cells| && cells[..n] == d + Repeat('0', n - |d|)
    ensures cells[..m] == d + Repeat('0', m - |d|)
  {
    var few, rest := Repeat('0', m - |d|), Repeat('0', n - m);
    RepeatSplit('0', m - |d|, n - m);
    Regrouped(d, few, rest);
    assert cells[..n] == (d + few) + rest;
    assert cells[..n][..m] == d + few;
    assert cells[..n][..m] == cells[..m];
  }

  /** print_integer_finalization; `flags` may have lost its hash on the way here. */
  method PrintIntegerFinalization(out: OutputGadget, buf: array<char>, digits: nat, negative: bool, base: nat,
                                  precision: nat, width: nat, flags: Flags, ghost s: Shape)
    requires out.Valid() && width < SIZE_MODULUS
    requires buf.Length == BUFFER_SIZE && s.Valid() && digits == |s.digits| && buf[..digits] == s.digits
    requires buf != out.buffer
    requires s.negative == negative && s.base == base && s.precision == precision && s.width == width
    requires flags == s.flags.(hash := s.flags.hash && (!s.isZero || (flags.precision && base != 16)))
    modifies out, out.buffer, buf
    ensures out.Valid() && out.emitted == old(out.emitted) + s.Field()
  {
    hide Shape.Parts, Clip, Reverse, Repeat, Body;
    var fill := width;
    if !flags.left {
      if fill > 0 && flags.zeropad && (negative || flags.plus || flags.space) {
        fill := fill - 1;
      }
    }
    var len := PushZerosAndPrefix(buf, digits, fill, base, precision, flags, s);
    len := PushSign(buf, len, negative, flags);
    FinishedBuffer(s);
    OutRev(out, buf[..len], fill, flags);
  }

  lemma FinishedBuffer(s: Shape)
    requires s.Valid()
    ensures Clip(Clip(Body(s)) + SignChar(s.negative, s.flags)) == s.Parts().Buffer()
  {
    ClipConcat(Body(s), SignChar(s.negative, s.flags));
    ReverseTwice(s.digits);
  }

  /** The digit loop of print_integer. */
  method PushDigits(buf: array<char>, number: nat, base: nat, upper: bool) returns (len: nat)
    requires buf.Length == BUFFER_SIZE && IsBase(base) && number > 0
    modifies buf
    ensures len <= BUFFER_SIZE && buf[..len] == Clip(DigitChars(number, base, upper))
  {
    var value := number;
    len := 0;
    while true
      invariant 0 <= len < BUFFER_SIZE && value > 0
      invariant buf[..len] + DigitChars(value, base, upper) == DigitChars(number, base, upper)
      decreases value
    {
      DigitStep(value, base, upper);
      var digit, rest := value % base, value / base;
      ghost var before := buf[..len];
      buf[len] := DigitChar(digit, upper);
      assert buf[..len + 1] == before + [DigitChar(digit, upper)];
      Regrouped(before, [DigitChar(digit, upper)], DigitChars(rest, base, upper));
      len, value := len + 1, rest;
      if value == 0 || len == BUFFER_SIZE {
        break;
      }
    }
    ClipReached(buf[..len], DigitChars(value, base, upper));
  }

  lemma ClipReached(a: string, b: string)
    requires |a| <= BUFFER_SIZE && (b == "" || |a| == BUFFER_SIZE)
    ensures a == Clip(a + b)
  {
  }

  lemma DigitStep(value: nat, base: nat, upper: bool)
    requires IsBase(base) && value > 0
    ensures value % base == Rem(value, base) && value / base == Quot(value, base) < value
    ensures DigitChars(value, base, upper)
            == [DigitChar(Rem(value, base), upper)] + DigitChars(Quot(value, base), base, upper)
  {
    DivideOut(value, base);
  }

  /** The digits written before print_integer_finalization is called, and whether the
      alternative form is still wanted. */
  method PushNumber(buf: array<char>, value: nat, base: nat, flags: Flags) returns (len: nat, hash: bool)
    requires buf.Length == BUFFER_SIZE && IsBase(base)
    modifies buf
    ensures len <= BUFFER_SIZE && buf[..len] == NumberDigits(value, base, flags)
    ensures hash == (flags.hash && (value != 0 || (flags.precision && base != 16)))
  {
    hide DigitChars, Clip;
    len, hash := 0, flags.hash;
    if value == 0 {
      if !flags.precision {
        buf[0] := '0';
        len := 1;
        assert buf[..1] == "0";
        hash := false;
      } else if base == 16 {
        hash := false;
      }
    } else {
      len := PushDigits(buf, value, base, flags.upper);
    }
  }

  /** print_integer */
  method PrintInteger(out: OutputGadget, value: nat, negative: bool, base: nat, precision: nat, width: nat,
                      flags: Flags)
    requires out.Valid() && IsBase(base) && width < SIZE_MODULUS
    modifies out, out.buffer
    ensures out.Valid()
    ensures out.emitted == old(out.emitted) + Job(value, negative, base, precision, width, flags).Field()
  {
    hide DigitChars;
    ghost var s := Job(value, negative, base, precision, width, flags).Plan();
    var buf := new char[BUFFER_SIZE];
    var len, hash := PushNumber(buf, value, base, flags);
    PrintIntegerFinalization(out, buf, len, negative, base, precision, width, flags.(hash := hash), s);
  }
}
