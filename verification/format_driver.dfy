/** The format driver: a format pointer and an argument list advanced step by step, every
    character going through the gadget, against what the format is to print. */
module FormatDriver {
  import opened Text
  import opened Numerals
  import opened FormatFlags
  import opened Readers
  import opened Gadget
  import opened DecimalParser
  import opened IntegerFields
  import opened IntegerPrinter
  import opened Rounding
  import opened DecimalFields
  import opened DecimalLaws
  import opened DecimalPrinter
  import opened FormatSpec
  import opened FormatLaws

  /** strnlen_s_ */
  method Strnlen(s: string, maxsize: nat) returns (n: nat)
    ensures n == Min(|s|, maxsize)
  {
    n := 0;
    var left := maxsize;
    while n < |s| && left > 0
      invariant n <= |s| && n + left == maxsize
    {
      left := left - 1;
      n := n + 1;
    }
  }

  /** parse_flags */
  method ParseFlags(format: string) returns (flags: Flags, rest: string)
    ensures forall args: seq<Arg> ::
              FlagStage(Next(NO_FLAGS, 0, 0, format, args)) == Next(flags, 0, 0, rest, args)
  {
    flags, rest := NO_FLAGS, format;
    while rest != "" && WithFlag(rest[0], flags).Some?
      invariant forall args: seq<Arg> ::
                  FlagStage(Next(NO_FLAGS, 0, 0, format, args)) == FlagStage(Next(flags, 0, 0, rest, args))
      decreases |rest|
    {
      flags := WithFlag(rest[0], flags).value;
      rest := rest[1..];
    }
  }

  /** The width field; `stop` reports that the format ended where its end is checked for. */
  method ParseWidth(format: string, args: seq<Arg>, flags: Flags)
    returns (stop: bool, width: nat, newFlags: Flags, rest: string, more: seq<Arg>)
    requires WidthStage(Next(flags, 0, 0, format, args)) != Undefined
    ensures WidthStage(Next(flags, 0, 0, format, args))
            == if stop then Stopped else Next(newFlags, width, 0, rest, more)
  {
    stop, width, newFlags, rest, more := false, 0, flags, format, args;
    if rest != "" && IsDigit(rest[0]) {
      var next;
      width, next := Atou(rest, 0);
      assert rest[0..] == rest;
      rest := rest[next..];
    } else if rest != "" && rest[0] == '*' {
      var w := more[0].v;
      more := more[1..];
      if w < 0 {
        newFlags := newFlags.(left := true);
        width := -w;
      } else {
        width := w;
      }
      rest := rest[1..];
      if rest == "" {
        stop := true;
      }
    }
  }

  /** The loop that skips a negative precision. */
  method SkipNegativePrecision(format: string, ghost s: Scan) returns (rest: string)
    requires s.Next? && s.rest == format != ""
    ensures SkipNegative(s) == if rest == "" then Stopped else s.(rest := rest)
  {
    rest := format[1..];
    ghost var t := s;
    while rest != "" && IsDigit(rest[0])
      invariant t.Next? && t == s.(rest := t.rest) && t.rest != "" && rest == t.rest[1..]
      invariant SkipNegative(s) == SkipNegative(t)
      decreases |rest|
    {
      t := t.(rest := rest);
      rest := rest[1..];
    }
  }

  /** The precision given by an argument. */
  method TakePrecision(format: string, args: seq<Arg>, flags: Flags, ghost s: Scan)
    returns (stop: bool, precision: nat, newFlags: Flags, rest: string, more: seq<Arg>)
    requires s.Next? && s.rest == format != "" && s.args == args && s.flags == flags && s.precision == 0
    requires format[0] == '*' && TakeInt(args).Some?
    ensures PrecisionValue(s) == if stop then Stopped else Next(newFlags, s.width, precision, rest, more)
  {
    var p := args[0].v;
    precision, newFlags := 0, flags.(precision := true);
    if p < 0 {
      newFlags := flags.(precision := false);
    } else {
      precision := if p > 0 then p else 0;
    }
    assert newFlags == flags.(precision := p >= 0);
    more := args[1..];
    rest := format[1..];
    stop := rest == "";
  }

  /** The precision after its point. */
  method ParsePrecisionValue(format: string, args: seq<Arg>, flags: Flags, ghost s: Scan)
    returns (stop: bool, precision: nat, newFlags: Flags, rest: string, more: seq<Arg>)
    requires s.Next? && s.rest == format != "" && s.args == args && s.flags == flags && s.precision == 0
    requires PrecisionValue(s) != Undefined
    ensures PrecisionValue(s) == if stop then Stopped else Next(newFlags, s.width, precision, rest, more)
  {
    hide SkipNegative, LeadingDigits, ParsedNumber;
    stop, precision, newFlags, rest, more := false, 0, flags, format, args;
    if rest[0] == '-' {
      newFlags := newFlags.(precision := false);
      rest := SkipNegativePrecision(rest, s.(flags := newFlags));
      stop := rest == "";
    } else if IsDigit(rest[0]) {
      var next;
      precision, next := Atou(rest, 0);
      assert rest[0..] == rest;
      rest := rest[next..];
    } else if rest[0] == '*' {
      stop, precision, newFlags, rest, more := TakePrecision(rest, more, newFlags, s);
    }
  }

  /** The precision field. */
  method ParsePrecision(format: string, args: seq<Arg>, flags: Flags, ghost s: Scan)
    returns (stop: bool, precision: nat, newFlags: Flags, rest: string, more: seq<Arg>)
    requires s.Next? && s.rest == format && s.args == args && s.flags == flags && s.precision == 0
    requires PrecisionStage(s) != Undefined
    ensures PrecisionStage(s) == if stop then Stopped else Next(newFlags, s.width, precision, rest, more)
  {
    hide PrecisionValue;
    stop, precision, newFlags, rest, more := false, 0, flags, format, args;
    if rest != "" && rest[0] == '.' {
      newFlags := newFlags.(precision := true);
      rest := rest[1..];
      if rest == "" {
        stop := true;
      } else {
        stop, precision, newFlags, rest, more :=
          ParsePrecisionValue(rest, more, newFlags, s.(flags := newFlags, rest := rest));
      }
    }
  }

  /** The length field. */
  method ParseLength(format: string, flags: Flags, ghost s: Scan)
    returns (stop: bool, newFlags: Flags, rest: string)
    requires s.Next? && s.rest == format && s.flags == flags
    ensures LengthStage(s) == if stop then Stopped else s.(flags := newFlags, rest := rest)
  {
    stop, newFlags, rest := false, flags, format;
    if rest != "" && WithLength(rest[0], flags).Some? {
      var c := rest[0];
      newFlags := WithLength(c, flags).value;
      rest := rest[1..];
      if rest == "" {
        stop := true;
        return;
      }
      if (c == 'l' || c == 'h') && rest[0] == c {
        newFlags := WithSecondLength(c, newFlags);
        rest := rest[1..];
        stop := rest == "";
      }
    }
  }

  /** The flags an integer specifier sets and clears. */
  method AdjustFlags(c: char, flags: Flags) returns (f: Flags)
    ensures f == IntegerFlags(c, flags)
  {
    var hash, upper, zeropad, plus, space := flags.hash, flags.upper, flags.zeropad, flags.plus, flags.space;
    if BaseOf(c) == 10 {
      hash := false;
    }
    if c == 'X' {
      upper := true;
    }
    if flags.precision {
      zeropad := false;
    }
    if !IsSignedSpecifier(c) {
      plus, space := false, false;
    }
    f := flags.(hash := hash, upper := upper, zeropad := zeropad, plus := plus, space := space);
  }

  /** The `d`, `i`, `u`, `x`, `X`, `o` and `b` specifiers. */
  method PrintIntegerSpecifier(out: OutputGadget, c: char, precision: nat, width: nat, flags: Flags, args: seq<Arg>,
                               ghost s: Scan)
    requires out.Valid() && IsIntegerSpecifier(c) && width < SIZE_MODULUS
    requires s.Next? && s.flags == flags && s.width == width && s.precision == precision && s.args == args
    requires IntegerValue(c, flags, args).Some?
    modifies out, out.buffer
    ensures out.Valid()
    ensures out.emitted == old(out.emitted) + IntegerJob(c, s, IntegerValue(c, flags, args).value).Field()
  {
    hide IntegerValue, IntegerFlags, Job.Field;
    var f := AdjustFlags(c, flags);
    var value := IntegerValue(c, flags, args).value;
    PrintInteger(out, if value > 0 then value else -value, value < 0, BaseOf(c), precision, width, f);
  }

  /** The `c` specifier. */
  method PrintChar(out: OutputGadget, c: char, width: nat, flags: Flags)
    requires out.Valid()
    modifies out, out.buffer
    ensures out.Valid() && out.emitted == old(out.emitted) + CharField(c, width, flags)
  {
    ghost var start := out.emitted;
    var l := 1;
    if !flags.left {
      EmitSpaces(out, l, width);
      Regrouped(start, Repeat(' ', width - 1), [c]);
    }
    out.PutChar(c);
    if flags.left {
      EmitSpaces(out, l, width);
      Regrouped(start, [c], Repeat(' ', width - 1));
    }
  }

  /** The characters of a string, up to the precision if there is one. */
  method EmitString(out: OutputGadget, s: string, precision: nat, flags: Flags)
    requires out.Valid()
    modifies out, out.buffer
    ensures out.Valid() && out.emitted == old(out.emitted) + StringBody(s, precision, flags)
  {
    ghost var start := out.emitted;
    var i, left := 0, precision;
    while i < |s| && (!flags.precision || left > 0)
      invariant 0 <= i <= |s|
      invariant flags.precision ==> i <= precision && left == precision - i
      invariant out.Valid() && out.emitted == start + s[..i]
      decreases |s| - i
    {
      out.PutChar(s[i]);
      assert s[..i + 1] == s[..i] + [s[i]];
      i := i + 1;
      left := if left > 0 then left - 1 else SIZE_MODULUS - 1;
    }
    assert s[..|s|] == s;
  }

  /** The `s` specifier for a string that is there. */
  method PrintString(out: OutputGadget, s: string, precision: nat, width: nat, flags: Flags)
    requires out.Valid()
    modifies out, out.buffer
    ensures out.Valid() && out.emitted == old(out.emitted) + StringField(s, precision, width, flags)
  {
    hide Repeat, StringBody;
    ghost var start, body := out.emitted, StringBody(s, precision, flags);
    var l := Strnlen(s, if precision > 0 then precision else INT_MAX);
    if flags.precision {
      l := if l < precision then l else precision;
    }
    if !flags.left {
      EmitSpaces(out, l, width);
      Regrouped(start, Repeat(' ', width - l), body);
    }
    EmitString(out, s, precision, flags);
    if flags.left {
      EmitSpaces(out, l, width);
      Regrouped(start, body, Repeat(' ', width - l));
    }
  }

  /** The `s` specifier. */
  method PrintStringSpecifier(out: OutputGadget, p: Option<string>, precision: nat, width: nat, flags: Flags)
    requires out.Valid() && width < SIZE_MODULUS
    modifies out, out.buffer
    ensures out.Valid()
    ensures out.emitted == old(out.emitted)
                           + if p.None? then NullField(width, flags) else StringField(p.value, precision, width, flags)
  {
    if p.None? {
      assert Reverse(")llun(") == "(null)";
      OutRev(out, ")llun(", width, flags);
    } else {
      PrintString(out, p.value, precision, width, flags);
    }
  }

  /** The `f` and `F` specifiers. */
  method PrintDecimalSpecifier(out: OutputGadget, c: char, precision: nat, width: nat, flags: Flags, x: Float)
    requires out.Valid() && width < SIZE_MODULUS && (c == 'f' || c == 'F')
    requires IsDecimal(x, precision, flags)
    modifies out, out.buffer
    ensures out.Valid()
    ensures out.emitted == old(out.emitted) + PrintedJob(x, EffectivePrecision(precision, flags), width,
                                                         DecimalFlags(c, flags)).Field()
  {
    hide Pow, Rounded, DecimalJob.Field;
    if c == 'F' {
      PrintFloatingPoint(out, x, precision, width, flags.(upper := true));
    } else {
      assert DecimalFlags(c, flags) == flags;
      PrintFloatingPoint(out, x, precision, width, flags);
    }
  }

  /** The switch over the specifier. */
  method PrintSpecifier(out: OutputGadget, c: char, precision: nat, width: nat, flags: Flags, args: seq<Arg>,
                        ghost s: Scan)
    returns (more: seq<Arg>)
    requires out.Valid() && width < SIZE_MODULUS
    requires Inside(s) && s.rest[0] == c && s.args == args
             && s.flags == flags && s.width == width && s.precision == precision
    requires Convert(s).Printed?
    modifies out, out.buffer
    ensures out.Valid() && out.emitted == old(out.emitted) + Convert(s).text && more == Convert(s).args
  {
    hide IntegerValue, IntegerFlags, IntegerJob, DecimalFlags, CharField, NullField, StringField, PrintedJob;
    if IsIntegerSpecifier(c) {
      PrintIntegerSpecifier(out, c, precision, width, flags, args, s);
      more := args[1..];
    } else if c == 'f' || c == 'F' {
      PrintDecimalSpecifier(out, c, precision, width, flags, args[0].x);
      more := args[1..];
    } else if c == 'c' {
      PrintChar(out, (args[0].v % 0x100) as char, width, flags);
      more := args[1..];
    } else if c == 's' {
      PrintStringSpecifier(out, args[0].s, precision, width, flags);
      more := args[1..];
    } else {
      out.PutChar(c);
      more := args;
    }
  }

  /** The fields of a directive between the percent sign and the specifier. */
  method ParseDirective(format: string, args: seq<Arg>)
    returns (stop: bool, flags: Flags, width: nat, precision: nat, rest: string, more: seq<Arg>)
    requires Directive(format, args) != Undefined
    ensures Directive(format, args) == if stop then Stopped else Next(flags, width, precision, rest, more)
  {
    hide FlagStage, WidthStage, PrecisionStage, LengthStage;
    StagesStop();
    width, precision := 0, 0;
    flags, rest := ParseFlags(format);
    ghost var s := Next(flags, 0, 0, rest, args);
    assert FlagStage(Next(NO_FLAGS, 0, 0, format, args)) == s;
    stop, width, flags, rest, more := ParseWidth(rest, args, flags);
    if !stop {
      s := Next(flags, width, 0, rest, more);
      stop, precision, flags, rest, more := ParsePrecision(rest, more, flags, s);
      if !stop {
        s := Next(flags, width, precision, rest, more);
        stop, flags, rest := ParseLength(rest, flags, s);
      }
    }
  }

  lemma StagesStop()
    ensures forall s :: WidthStage(s) == Undefined ==> PrecisionStage(WidthStage(s)) == Undefined
    ensures PrecisionStage(Stopped) == Stopped && LengthStage(Stopped) == Stopped
    ensures PrecisionStage(Undefined) == Undefined && LengthStage(Undefined) == Undefined
  {
  }

  /** One directive: nothing is printed when the format stops short of its specifier. */
  method RunDirective(out: OutputGadget, format: string, args: seq<Arg>)
    returns (stop: bool, rest: string, more: seq<Arg>)
    requires out.Valid() && Directive(format, args) != Undefined
    requires Directive(format, args).Next? ==>
               Inside(Directive(format, args)) && Convert(Directive(format, args)).Printed?
    modifies out, out.buffer
    ensures out.Valid() && stop == Directive(format, args).Stopped?
    ensures stop ==> out.emitted == old(out.emitted)
    ensures !stop ==> var s := Directive(format, args);
                      s.Next? && rest == s.rest[1..] && more == Convert(s).args
                      && out.emitted == old(out.emitted) + Convert(s).text
  {
    hide Directive, Convert;
    var flags, width, precision;
    stop, flags, width, precision, rest, more := ParseDirective(format, args);
    DirectiveSound(format, args);
    if !stop {
      more := PrintSpecifier(out, rest[0], precision, width, flags, more, Directive(format, args));
      rest := rest[1..];
    }
  }

  /** The text of a run that did not go wrong. */
  function TextOf(o: Outcome): string
    requires o != Bad
  {
    o.text
  }

  /** format_string_loop */
  method FormatStringLoop(out: OutputGadget, format: string, args: seq<Arg>)
    requires out.Valid() && Render(format, args) != Bad
    modifies out, out.buffer
    ensures out.Valid() && out.emitted == old(out.emitted) + TextOf(Render(format, args))
  {
    hide Directive, Convert;
    ghost var start, printed := out.emitted, "";
    var rest, more := format, args;
    PrependTwice("", "", Render(format, args));
    Regrouped(start, "", "");
    while rest != ""
      invariant out.Valid() && out.emitted == start + printed
      invariant Render(format, args) == Prepend(printed, Render(rest, more))
      decreases |rest|
    {
      ghost var before := printed;
      if rest[0] != '%' {
        out.PutChar(rest[0]);
        printed := before + [rest[0]];
        PrependTwice(before, [rest[0]], Render(rest[1..], more));
        Regrouped(start, before, [rest[0]]);
        rest := rest[1..];
        continue;
      }
      rest := rest[1..];
      if rest == "" {
        break;
      }
      ghost var s := Directive(rest, more);
      var stop, next, left := RunDirective(out, rest, more);
      if stop {
        break;
      }
      ghost var text := Convert(s).text;
      printed := before + text;
      PrependTwice(before, text, Render(next, left));
      Regrouped(start, before, text);
      rest, more := next, left;
    }
  }

  /** vsnprintf_impl on a buffer gadget, and vsnprintf_: the length returned does not depend
      on the room, the buffer gets as much of the text as fits and a NUL, and nothing else
      changes. */
  method Vsnprintf(s: array?<char>, offset: nat, n: nat, format: string, args: seq<Arg>) returns (r: int)
    requires Render(format, args) != Bad
    requires s != null ==> offset + Min(n, INT_MAX) <= s.Length
    modifies s
    ensures r == AsInt(|TextOf(Render(format, args))| % SIZE_MODULUS)
    ensures s != null && |TextOf(Render(format, args))| < SIZE_MODULUS ==>
              Holds(s[..], old(s[..]), offset, Truncated(TextOf(Render(format, args)), Min(n, INT_MAX)))
    ensures s != null ==> SameOutside(s[..], old(s[..]), offset, Min(n, INT_MAX))
  {
    hide Render, Holds, SameOutside, Truncated;
    ghost var text := TextOf(Render(format, args));
    var gadget := new OutputGadget.ForBuffer(s, offset, n);
    FormatStringLoop(gadget, format, args);
    assert gadget.emitted == text by { Regrouped("", "", text); }
    gadget.AppendTermination();
    r := AsInt(gadget.pos);
  }

  /** vfctprintf: the same characters in the same order, through a function; nothing happens
      without one. */
  method Vfctprintf(hasOut: bool, format: string, args: seq<Arg>) returns (r: int, sent: string)
    requires Render(format, args) != Bad
    ensures !hasOut ==> r == 0 && sent == ""
    ensures hasOut ==> r == AsInt(|TextOf(Render(format, args))| % SIZE_MODULUS)
    ensures hasOut && |TextOf(Render(format, args))| < SIZE_MODULUS ==>
              sent == TextOf(Render(format, args))[..Min(|TextOf(Render(format, args))|, INT_MAX)]
  {
    hide Render;
    if !hasOut {
      return 0, "";
    }
    var gadget := new OutputGadget.ForFunction();
    FormatStringLoop(gadget, format, args);
    assert gadget.emitted == TextOf(Render(format, args));
    gadget.AppendTermination();
    r, sent := AsInt(gadget.pos), gadget.sent;
  }
}
