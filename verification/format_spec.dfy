/** What a format and its arguments print. A format stands for the text before its
    terminating NUL, a format pointer for what is left of that text. */
module FormatSpec {
  import opened Text
  import opened Numerals
  import opened FormatFlags
  import opened Readers
  import opened DecimalParser
  import opened IntegerFields
  import opened Rounding
  import opened DecimalLaws
  import opened DecimalPrinter

  /** Arguments: integers of whatever width, strings or null pointers, and doubles. */
  datatype Arg = Int(v: int) | Str(s: Option<string>) | Real(x: Float)

  /** Where the parsing of one directive has got to: it goes on; it met the end of the
      format where the code checks for it; or the behaviour is undefined. */
  datatype Scan =
    | Next(flags: Flags, width: nat, precision: nat, rest: string, args: seq<Arg>)
    | Stopped
    | Undefined

  /** ADVANCE_IN_FORMAT_STRING */
  function Advance(s: Scan): (r: Scan)
    requires s.Next? && s.rest != ""
    ensures r.Next? ==> r == s.(rest := s.rest[1..]) && r.rest != ""
  {
    if |s.rest| == 1 then Stopped else s.(rest := s.rest[1..])
  }

  /** An int argument. */
  function TakeInt(args: seq<Arg>): Option<int>
  {
    if args != [] && args[0].Int? && -0x8000_0000 <= args[0].v < 0x8000_0000 then Some(args[0].v) else None
  }

  function AbsInt(v: int): nat { if v < 0 then -v else v }

  // ----- the stages of a directive

  /** The flag a character stands for. */
  function WithFlag(c: char, flags: Flags): (r: Option<Flags>)
    ensures r.Some? ==> r.value.precision == flags.precision
  {
    if c == '0' then Some(flags.(zeropad := true))
    else if c == '-' then Some(flags.(left := true))
    else if c == '+' then Some(flags.(plus := true))
    else if c == ' ' then Some(flags.(space := true))
    else if c == '#' then Some(flags.(hash := true))
    else None
  }

  function FlagStage(s: Scan): (r: Scan)
    requires s.Next?
    ensures r.Next? && |r.rest| <= |s.rest|
    decreases |s.rest|
  {
    if s.rest == "" then s else
      match WithFlag(s.rest[0], s.flags)
      case None => s
      case Some(f) => FlagStage(s.(flags := f, rest := s.rest[1..]))
  }

  function WidthStage(s: Scan): (r: Scan)
    ensures s.Next? && r.Next? ==> |r.rest| <= |s.rest|
  {
    if !s.Next? || s.rest == "" then s
    else if IsDigit(s.rest[0]) then
      s.(width := ParsedNumber(s.rest), rest := s.rest[LeadingDigits(s.rest)..])
    else if s.rest[0] == '*' then
      match TakeInt(s.args)
      case None => Undefined
      case Some(w) =>
        Advance(s.(flags := if w < 0 then s.flags.(left := true) else s.flags, width := AbsInt(w),
                   args := s.args[1..]))
    else s
  }

  /** The sign and the digits of a negative precision. */
  function SkipNegative(s: Scan): (r: Scan)
    requires s.Next? && s.rest != ""
    ensures r.Next? ==> |r.rest| < |s.rest|
    decreases |s.rest|
  {
    var a := Advance(s);
    if a.Next? && IsDigit(a.rest[0]) then SkipNegative(a) else a
  }

  function PrecisionStage(s: Scan): (r: Scan)
    ensures s.Next? && r.Next? ==> |r.rest| <= |s.rest|
  {
    if !s.Next? || s.rest == "" || s.rest[0] != '.' then s
    else
      var a := Advance(s.(flags := s.flags.(precision := true)));
      if a.Next? then PrecisionValue(a) else a
  }

  function PrecisionValue(s: Scan): (r: Scan)
    requires s.Next? && s.rest != ""
    ensures r.Next? ==> |r.rest| <= |s.rest|
  {
    if s.rest[0] == '-' then SkipNegative(s.(flags := s.flags.(precision := false)))
    else if IsDigit(s.rest[0]) then
      s.(precision := ParsedNumber(s.rest), rest := s.rest[LeadingDigits(s.rest)..])
    else if s.rest[0] == '*' then
      match TakeInt(s.args)
      case None => Undefined
      case Some(p) =>
        Advance(s.(flags := s.flags.(precision := p >= 0), precision := Max(p, 0), args := s.args[1..]))
    else s
  }

  /** Length modifiers on a target whose int, long, size_t and ptrdiff_t have 32 bits and
      whose intmax_t has 64. */
  function WithLength(c: char, flags: Flags): (r: Option<Flags>)
    ensures r.Some? ==> r.value.precision == flags.precision
  {
    if c == 'l' then Some(flags.(sizes := flags.sizes.(longSize := true)))
    else if c == 'L' then Some(flags.(sizes := flags.sizes.(longDouble := true)))
    else if c == 'h' then Some(flags.(sizes := flags.sizes.(shortSize := true)))
    else if c == 'j' then Some(flags.(sizes := flags.sizes.(longLong := true)))
    else if c == 't' || c == 'z' then Some(flags)
    else None
  }

  /** A doubled `l` or `h`. */
  function WithSecondLength(c: char, flags: Flags): (r: Flags)
    ensures r.precision == flags.precision
  {
    if c == 'l' then flags.(sizes := flags.sizes.(longLong := true))
    else flags.(sizes := flags.sizes.(charSize := true))
  }

  function LengthStage(s: Scan): (r: Scan)
    ensures s.Next? && r.Next? ==> |r.rest| <= |s.rest|
  {
    if !s.Next? || s.rest == "" then s
    else
      match WithLength(s.rest[0], s.flags)
      case None => s
      case Some(f) => SecondLength(s.rest[0], Advance(s.(flags := f)))
  }

  function SecondLength(c: char, s: Scan): (r: Scan)
    requires s.Next? ==> s.rest != ""
    ensures s.Next? && r.Next? ==> |r.rest| <= |s.rest|
  {
    if s.Next? && (c == 'l' || c == 'h') && s.rest[0] == c
    then Advance(s.(flags := WithSecondLength(c, s.flags)))
    else s
  }

  /** Everything between the percent sign and the specifier. */
  function Directive(f: string, args: seq<Arg>): (r: Scan)
    ensures r.Next? ==> |r.rest| <= |f|
  {
    LengthStage(PrecisionStage(WidthStage(FlagStage(Next(NO_FLAGS, 0, 0, f, args)))))
  }

  // ----- the conversions

  datatype Conversion = Printed(text: string, args: seq<Arg>) | Unprintable

  predicate IsIntegerSpecifier(c: char)
  {
    c == 'd' || c == 'i' || c == 'u' || c == 'x' || c == 'X' || c == 'o' || c == 'b'
  }

  predicate IsSignedSpecifier(c: char) { c == 'd' || c == 'i' }

  function BaseOf(c: char): (b: nat)
    ensures IsBase(b)
  {
    if c == 'x' || c == 'X' then 16 else if c == 'o' then 8 else if c == 'b' then 2 else 10
  }

  /** The flags an integer is printed with. */
  function IntegerFlags(c: char, flags: Flags): Flags
  {
    flags.(hash := flags.hash && BaseOf(c) != 10,
           upper := flags.upper || c == 'X',
           zeropad := flags.zeropad && !flags.precision,
           plus := flags.plus && IsSignedSpecifier(c),
           space := flags.space && IsSignedSpecifier(c))
  }

  /** Conversion to signed char and to short int. */
  function SignedChar(v: int): (r: int)
    ensures -0x80 <= r < 0x80 && r % 0x100 == v % 0x100
  {
    var u := v % 0x100;
    if u < 0x80 then u else u - 0x100
  }

  function SignedShort(v: int): (r: int)
    ensures -0x8000 <= r < 0x8000 && r % 0x1_0000 == v % 0x1_0000
  {
    var u := v % 0x1_0000;
    if u < 0x8000 then u else u - 0x1_0000
  }

  /** The integer an argument passes, in the width the length modifiers name. */
  function IntegerValue(c: char, flags: Flags, args: seq<Arg>): (r: Option<int>)
    ensures r.Some? ==> args != []
  {
    if args == [] || !args[0].Int? then None
    else
      var v, bound := args[0].v, if flags.sizes.longLong then 0x1_0000_0000_0000_0000 else 0x1_0000_0000;
      var narrow := !flags.sizes.longLong && !flags.sizes.longSize;
      if IsSignedSpecifier(c) then
        if !(-bound / 2 <= v < bound / 2) then None
        else if narrow && flags.sizes.charSize then Some(SignedChar(v))
        else if narrow && flags.sizes.shortSize then Some(SignedShort(v))
        else Some(v)
      else
        if !(0 <= v < bound) then None
        else if narrow && flags.sizes.charSize then Some(v % 0x100)
        else if narrow && flags.sizes.shortSize then Some(v % 0x1_0000)
        else Some(v)
  }

  /** How an integer directive calls print_integer. ABS_FOR_PRINTING negates in 64 bits, so
      that the least long long keeps its magnitude. */
  function IntegerJob(c: char, s: Scan, v: int): Job
    requires s.Next?
  {
    Job(AbsInt(v), v < 0, BaseOf(c), s.precision, s.width, IntegerFlags(c, s.flags))
  }

  function CharField(c: char, width: nat, flags: Flags): string
  {
    Justify([c], width, flags.left, false)
  }

  /** What `%s` prints of a string: all of it, or as much as the precision allows. */
  function StringBody(p: string, precision: nat, flags: Flags): string
  {
    if flags.precision then p[..Min(|p|, precision)] else p
  }

  /** The length by which `%s` reckons its padding. */
  function StringLength(p: string, precision: nat, flags: Flags): nat
  {
    var l := Min(|p|, if precision > 0 then precision else INT_MAX);
    if flags.precision then Min(l, precision) else l
  }

  function StringField(p: string, precision: nat, width: nat, flags: Flags): string
  {
    var body, pad := StringBody(p, precision, flags), Repeat(' ', width - StringLength(p, precision, flags));
    if flags.left then body + pad else pad + body
  }

  /** A null pointer goes through out_rev_ like a number. */
  function NullField(width: nat, flags: Flags): string
  {
    Justify("(null)", width, flags.left, flags.zeropad)
  }

  /** A number `%f` prints in decimal notation, with a precision its buffer can start on. */
  predicate IsDecimal(x: Float, precision: nat, flags: Flags)
  {
    0.0 <= x.magnitude <= 1_000_000_000.0 && EffectivePrecision(precision, flags) <= MAX_PRECISION
  }

  function ConvertInteger(c: char, s: Scan): Conversion
    requires s.Next?
  {
    match IntegerValue(c, s.flags, s.args)
    case None => Unprintable
    case Some(v) => Printed(IntegerJob(c, s, v).Field(), s.args[1..])
  }

  function DecimalFlags(c: char, flags: Flags): Flags
  {
    flags.(upper := flags.upper || c == 'F')
  }

  function ConvertDecimal(c: char, s: Scan): Conversion
    requires s.Next?
  {
    if s.args != [] && s.args[0].Real? && IsDecimal(s.args[0].x, s.precision, s.flags) then
      Printed(PrintedJob(s.args[0].x, EffectivePrecision(s.precision, s.flags), s.width,
                         DecimalFlags(c, s.flags)).Field(), s.args[1..])
    else Unprintable
  }

  function ConvertChar(s: Scan): Conversion
    requires s.Next?
  {
    match TakeInt(s.args)
    case None => Unprintable
    case Some(v) => Printed(CharField((v % 0x100) as char, s.width, s.flags), s.args[1..])
  }

  function ConvertString(s: Scan): Conversion
    requires s.Next?
  {
    if s.args != [] && s.args[0].Str? then
      match s.args[0].s
      case None => Printed(NullField(s.width, s.flags), s.args[1..])
      case Some(p) => Printed(StringField(p, s.precision, s.width, s.flags), s.args[1..])
    else Unprintable
  }

  /** The specifiers `e`, `g`, `p` and `n` and numbers beyond a thousand million are outside
      the model. */
  function Convert(s: Scan): Conversion
    requires s.Next? && s.rest != ""
  {
    var c := s.rest[0];
    if IsIntegerSpecifier(c) then ConvertInteger(c, s)
    else if c == 'f' || c == 'F' then ConvertDecimal(c, s)
    else if c == 'c' then ConvertChar(s)
    else if c == 's' then ConvertString(s)
    else if c in "eEgGpn" then Unprintable
    else Printed([c], s.args)
  }

  // ----- whole formats

  /** A run of the format loop: to the end of the format, to an unfinished directive where
      the code stops, or into undefined behaviour. */
  datatype Outcome = Done(text: string, args: seq<Arg>) | Cut(text: string) | Bad

  function Prepend(t: string, o: Outcome): Outcome
  {
    match o
    case Done(text, args) => Done(t + text, args)
    case Cut(text) => Cut(t + text)
    case Bad => Bad
  }

  function Render(f: string, args: seq<Arg>): Outcome
    decreases |f|
  {
    if f == "" then Done("", args)
    else if f[0] != '%' then Prepend([f[0]], Render(f[1..], args))
    else if |f| == 1 then Cut("")
    else
      var s := Directive(f[1..], args);
      if s.Stopped? then Cut("")
      else if s.Undefined? || s.rest == "" then Bad
      else
        match Convert(s)
        case Unprintable => Bad
        case Printed(t, more) => Prepend(t, Render(s.rest[1..], more))
  }
}
