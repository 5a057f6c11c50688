/** What written directives for characters and strings print, what other specifiers print, and
    widths and precisions taken from the arguments. */
module TextLaws {
  import opened Text
  import opened Numerals
  import opened FormatFlags
  import opened Readers
  import opened DecimalParser
  import opened FormatSpec
  import opened DirectiveText

  /** `t` shows `body`, in order, with spaces up to the width: behind it or in front of it. */
  predicate Shows(t: string, body: string, width: nat, left: bool)
  {
    var n := |body|;
    var k := if width > n then width - n else 0;
    && |t| == n + k
    && (if left then t[..n] == body && forall i :: n <= i < n + k ==> t[i] == ' '
        else t[k..] == body && forall i :: 0 <= i < k ==> t[i] == ' ')
  }

  lemma SpacesShow(body: string, k: int)
    ensures var spaces := Repeat(' ', k);
            && (body + spaces)[..|body|] == body && (spaces + body)[|spaces|..] == body
            && (forall i :: |body| <= i < |body| + |spaces| ==> (body + spaces)[i] == ' ')
            && forall i :: 0 <= i < |spaces| ==> (spaces + body)[i] == ' '
  {
    RepeatElements(' ', k);
  }

  /** `%s` prints the string, or as much of it as the precision allows. */
  lemma StringPrinted(d: Written, p: string)
    requires d.Valid() && d.specifier == 's' && |p| <= 0x7FFF_FFFF
    ensures var o := Render(d.Format(), [Str(Some(p))]);
            var n := if d.flags.precision && d.precision < |p| then d.precision else |p|;
            o.Done? && o.args == [] && Shows(o.text, p[..n], d.width, d.flags.left)
  {
    hide Render, Written.Format, StringField, Shows, SizesOf;
    RenderOne(d, [Str(Some(p))]);
    StringFieldShows(p, d.precision, d.width, d.flags.(sizes := SizesOf(d.length)));
  }

  lemma StringFieldShows(p: string, precision: nat, width: nat, flags: Flags)
    requires |p| <= 0x7FFF_FFFF && (!flags.precision ==> precision == 0)
    ensures var n := if flags.precision && precision < |p| then precision else |p|;
            Shows(StringField(p, precision, width, flags), p[..n], width, flags.left)
  {
    hide Repeat;
    var n := if flags.precision && precision < |p| then precision else |p|;
    assert p[..|p|] == p;
    SpacesShow(p[..n], width - n);
  }

  /** `%c` prints the character its argument converts to. */
  lemma CharPrinted(d: Written, v: int)
    requires d.Valid() && d.specifier == 'c' && -0x8000_0000 <= v < 0x8000_0000
    ensures var o := Render(d.Format(), [Int(v)]);
            o.Done? && o.args == [] && Shows(o.text, [(v % 0x100) as char], d.width, d.flags.left)
  {
    hide Render, Written.Format, Repeat;
    RenderOne(d, [Int(v)]);
    SpacesShow([(v % 0x100) as char], d.width - 1);
  }

  /** A null pointer prints `(null)`, padded unless zeros were asked for in front. */
  lemma NullPrinted(d: Written)
    requires d.Valid() && d.specifier == 's'
    ensures var o := Render(d.Format(), [Str(None)]);
            o.Done? && o.args == []
            && Shows(o.text, "(null)", if d.flags.zeropad && !d.flags.left then 0 else d.width, d.flags.left)
  {
    hide Render, Written.Format, Repeat;
    RenderOne(d, [Str(None)]);
    SpacesShow("(null)", d.width - 6);
    assert "" + "(null)" == "(null)";
  }

  /** `%%` prints a percent sign, and a character that is no specifier prints itself: without
      padding, and without taking an argument. */
  lemma OtherPrinted(d: Written, args: seq<Arg>)
    requires d.Valid() && d.specifier !in "diuoxXbfFeEgGcspn"
    ensures Render(d.Format(), args) == Done([d.specifier], args)
  {
    hide Render, Written.Format;
    RenderOne(d, args);
  }

  // ----- widths and precisions from the arguments

  predicate IsInt(v: int) { -0x8000_0000 <= v < 0x8000_0000 }

  /** The directive with the width `w`, a negative one asking for the `-` flag. */
  function WithWidth(d: Written, w: int): Written
  {
    d.(flags := d.flags.(left := d.flags.left || w < 0), width := if w < 0 then -w else w)
  }

  /** The directive with the precision `p`, a negative one asking for none. */
  function WithPrecision(d: Written, p: int): Written
  {
    if p < 0 then d else d.(flags := d.flags.(precision := true), precision := p)
  }

  /** What stands behind a precision. */
  function End(d: Written, after: string): string { LengthText(d.length) + ([d.specifier] + after) }

  lemma WidthFromArgument(s: Scan, w: int, after: string)
    requires s.Next? && IsInt(w) && s.args != [] && s.args[0] == Int(w) && s.rest == "*" + after && after != ""
    ensures WidthStage(s)
            == s.(flags := s.flags.(left := s.flags.left || w < 0), width := if w < 0 then -w else w,
                  rest := after, args := s.args[1..])
  {
    assert s.rest[1..] == after;
  }

  lemma PrecisionFromArgument(s: Scan, p: int, after: string)
    requires s.Next? && IsInt(p) && s.args != [] && s.args[0] == Int(p) && s.rest == ".*" + after && after != ""
    ensures PrecisionStage(s)
            == s.(flags := s.flags.(precision := p >= 0), precision := if p < 0 then 0 else p, rest := after,
                  args := s.args[1..])
  {
    assert s.rest[1..] == "*" + after;
    assert ("*" + after)[1..] == after;
  }

  lemma {:induction false} DigitsSkipped(s: Scan, digits: string, after: string)
    requires s.Next? && AllDigits(digits, 10) && s.rest != "" && s.rest[1..] == digits + after
    requires after != "" && !IsDigit(after[0])
    ensures SkipNegative(s) == s.(rest := after)
    decreases |digits|
  {
    if digits == "" {
      assert "" + after == after;
    } else {
      FirstIsDigit(digits);
      assert (digits + after)[1..] == digits[1..] + after;
      DigitsSkipped(s.(rest := digits + after), digits[1..], after);
    }
  }

  lemma NegativePrecisionSkipped(s: Scan, digits: string, after: string)
    requires s.Next? && AllDigits(digits, 10) && s.rest == ".-" + (digits + after)
    requires after != "" && !IsDigit(after[0])
    ensures PrecisionStage(s) == s.(flags := s.flags.(precision := false), rest := after)
  {
    hide SkipNegative, AllDigits;
    assert s.rest[1..] == "-" + (digits + after);
    assert ("-" + (digits + after))[1..] == digits + after;
    DigitsSkipped(s.(flags := s.flags.(precision := false), rest := "-" + (digits + after)), digits, after);
  }

  /** Flags up to a width that is taken from the arguments. */
  lemma StarRead(d: Written, w: int, after: string, args: seq<Arg>)
    requires d.Valid() && IsInt(w) && after != ""
    ensures WidthStage(FlagStage(Next(NO_FLAGS, 0, 0, FlagsText(d.flags) + ("*" + after), [Int(w)] + args)))
            == Next(WithWidth(d, w).flags.(precision := false), WithWidth(d, w).width, 0, after, args)
  {
    hide FlagStage, WidthStage, FlagsText;
    FlagsRead(d.flags.(precision := false), "*" + after, [Int(w)] + args);
    PrecisionIsNoFlag(d.flags);
    WidthFromArgument(Next(d.flags.(precision := false), 0, 0, "*" + after, [Int(w)] + args), w, after);
    assert ([Int(w)] + args)[1..] == args;
  }

  /** Flags and a width written down. */
  lemma PlainRead(d: Written, after: string, args: seq<Arg>)
    requires d.Valid() && after != "" && after[0] == '.'
    ensures WidthStage(FlagStage(Next(NO_FLAGS, 0, 0, FlagsText(d.flags) + (WidthText(d.width) + after), args)))
            == Next(d.flags.(precision := false), d.width, 0, after, args)
  {
    hide FlagStage, WidthStage, FlagsText, PlainText;
    if d.width > 0 {
      PlainStart(d.width);
    }
    FlagsRead(d.flags.(precision := false), WidthText(d.width) + after, args);
    PrecisionIsNoFlag(d.flags);
    WidthRead(Next(d.flags.(precision := false), 0, 0, WidthText(d.width) + after, args), d.width, after);
  }

  lemma EndStarts(d: Written, after: string)
    requires d.Valid()
    ensures End(d, after) != "" && EndsNumbers(End(d, after)[0])
  {
    LengthStarts(d.length, [d.specifier] + after);
  }

  /** `*` for the width means the width written down, with `-` for a negative argument. */
  lemma WidthStar(d: Written, w: int, after: string, args: seq<Arg>)
    requires d.Valid() && IsInt(w)
    ensures Directive(FlagsText(d.flags) + ("*" + (PrecisionText(d.precision, d.flags) + End(d, after))),
                      [Int(w)] + args)
            == Directive(WithWidth(d, w).Text(after), args)
  {
    hide FlagStage, WidthStage, PrecisionStage, LengthStage, PlainText, FlagsText, LengthText, SizesOf,
         Written.Text;
    var e := WithWidth(d, w);
    EndStarts(d, after);
    StarRead(d, w, PrecisionText(d.precision, d.flags) + End(d, after), args);
    var s := Next(e.flags.(precision := false), e.width, 0, PrecisionText(d.precision, d.flags) + End(d, after), args);
    PrecisionRead(s, d.precision, e.flags, End(d, after));
    LengthRead(s.(flags := e.flags, precision := d.precision, rest := End(d, after)), d.length,
               [d.specifier] + after);
    DirectiveReadsBack(e, after, args);
  }

  /** `.*` means the precision written down, and none for a negative argument. */
  lemma PrecisionStar(d: Written, p: int, after: string, args: seq<Arg>)
    requires d.Valid() && !d.flags.precision && IsInt(p)
    ensures Directive(FlagsText(d.flags) + (WidthText(d.width) + (".*" + End(d, after))), [Int(p)] + args)
            == Directive(WithPrecision(d, p).Text(after), args)
  {
    hide FlagStage, WidthStage, PrecisionStage, LengthStage, PlainText, FlagsText, WidthText, LengthText, SizesOf,
         Written.Text;
    var e := WithPrecision(d, p);
    EndStarts(d, after);
    PlainRead(d, ".*" + End(d, after), [Int(p)] + args);
    var s := Next(d.flags, d.width, 0, ".*" + End(d, after), [Int(p)] + args);
    PrecisionFromArgument(s, p, End(d, after));
    assert ([Int(p)] + args)[1..] == args;
    LengthRead(Next(e.flags, d.width, e.precision, End(d, after), args), d.length, [d.specifier] + after);
    DirectiveReadsBack(e, after, args);
  }

  /** Both from the arguments: the width first. */
  lemma BothStars(d: Written, w: int, p: int, after: string, args: seq<Arg>)
    requires d.Valid() && !d.flags.precision && IsInt(w) && IsInt(p)
    ensures Directive(FlagsText(d.flags) + ("*" + (".*" + End(d, after))), [Int(w)] + ([Int(p)] + args))
            == Directive(WithPrecision(WithWidth(d, w), p).Text(after), args)
  {
    hide FlagStage, WidthStage, PrecisionStage, LengthStage, PlainText, FlagsText, WidthText, LengthText, SizesOf,
         Written.Text;
    var e := WithPrecision(WithWidth(d, w), p);
    EndStarts(d, after);
    StarRead(d, w, ".*" + End(d, after), [Int(p)] + args);
    var s := Next(WithWidth(d, w).flags, e.width, 0, ".*" + End(d, after), [Int(p)] + args);
    PrecisionFromArgument(s, p, End(d, after));
    assert ([Int(p)] + args)[1..] == args;
    LengthRead(Next(e.flags, e.width, e.precision, End(d, after), args), d.length, [d.specifier] + after);
    DirectiveReadsBack(e, after, args);
  }

  /** A negative precision written down means none. */
  lemma NegativePrecision(d: Written, digits: string, after: string, args: seq<Arg>)
    requires d.Valid() && !d.flags.precision && AllDigits(digits, 10)
    ensures Directive(FlagsText(d.flags) + (WidthText(d.width) + (".-" + (digits + End(d, after)))), args)
            == Directive(d.Text(after), args)
  {
    hide FlagStage, WidthStage, PrecisionStage, LengthStage, PlainText, FlagsText, WidthText, LengthText, SizesOf,
         AllDigits, Written.Text;
    EndStarts(d, after);
    PlainRead(d, ".-" + (digits + End(d, after)), args);
    NegativePrecisionSkipped(Next(d.flags, d.width, 0, ".-" + (digits + End(d, after)), args), digits, End(d, after));
    LengthRead(Next(d.flags, d.width, 0, End(d, after), args), d.length, [d.specifier] + after);
    DirectiveReadsBack(d, after, args);
  }
}
