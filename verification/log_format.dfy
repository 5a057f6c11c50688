/** The log formatter: a plain copy for texts without directives, the printf engine for the
    others. */
module LogFormat {
  import opened Text
  import opened Gadget
  import opened FormatSpec
  import opened FormatLaws
  import opened FormatDriver

  /** LOG_PREPEND_SIZE_MAX */
  const PREPEND_SIZE_MAX: nat := 20

  /** LOG_BUFF_SIZE_MAX: 100 dumped bytes of three characters, a caption, 12 more and the
      prepended text. */
  const BUFF_SIZE_MAX: nat := 100 * 3 + 20 + 12 + PREPEND_SIZE_MAX

  /** LOG_CONTENT_SIZE_MAX */
  const CONTENT_SIZE_MAX: nat := BUFF_SIZE_MAX - PREPEND_SIZE_MAX - 2

  /** A conversion to uint16_t. */
  function U16(x: int): nat { x % 0x1_0000 }

  /** The buffer after `text` was copied to `at` without a NUL. */
  function Copied(cells: string, at: nat, text: string): string
    requires at + |text| <= |cells|
    ensures Holds(Copied(cells, at, text), cells, at, text)
  {
    cells[..at] + text + cells[at + |text|..]
  }

  /** A format without directives prints itself and takes no argument. */
  lemma {:induction false} PlainFormat(f: string, args: seq<Arg>)
    requires '%' !in f
    ensures Render(f, args) == Done(f, args)
    decreases |f|
  {
    if f != "" {
      PlainFormat(f[1..], args);
      assert f == [f[0]] + f[1..];
    }
  }

  /** memcpy */
  method CopyText(buffer: array<char>, at: nat, text: string)
    requires at + |text| <= buffer.Length
    modifies buffer
    ensures buffer[..] == Copied(old(buffer[..]), at, text)
  {
    forall i | 0 <= i < |text| {
      buffer[at + i] := text[i];
    }
  }

  /** log_format_string_args */
  method LogFormatStringArgs(format: string, args: seq<Arg>, buffer: array<char>, offset: nat) returns (len: nat)
    requires Render(format, args) != Bad
    requires |TextOf(Render(format, args))| < SIZE_MODULUS
    requires Min(offset, PREPEND_SIZE_MAX)
             + (if '%' in format then CONTENT_SIZE_MAX else U16(|format|)) <= buffer.Length
    modifies buffer
    ensures len == U16(|TextOf(Render(format, args))|)
    ensures buffer[..] == Copied(old(buffer[..]), Min(offset, PREPEND_SIZE_MAX),
                                 if '%' in format then Truncated(TextOf(Render(format, args)), CONTENT_SIZE_MAX)
                                 else format[..U16(|format|)])
  {
    hide Render, Truncated;
    var at := if offset < PREPEND_SIZE_MAX then offset else PREPEND_SIZE_MAX;
    if '%' in format {
      var r := Vsnprintf(buffer, at, CONTENT_SIZE_MAX, format, args);
      LowBits(|TextOf(Render(format, args))|, r);
      len := U16(r);
    } else {
      PlainFormat(format, args);
      len := U16(|format|);
      CopyText(buffer, at, format[..len]);
    }
  }

  lemma LowBits(n: nat, r: int)
    requires n < SIZE_MODULUS && r == AsInt(n)
    ensures U16(r) == U16(n)
  {
  }

  /** The fast path against the engine: same length always, and over that length the same
      characters exactly when it is below LOG_CONTENT_SIZE_MAX. For a text shorter than that
      the engine differs in one cell, where it writes a NUL behind the text. */
  lemma FastPathAgrees(f: string, args: seq<Arg>, cells: string, at: nat)
    requires '%' !in f && NUL !in f && |f| < SIZE_MODULUS
    requires at + Max(U16(|f|), CONTENT_SIZE_MAX) <= |cells|
    ensures Render(f, args) == Done(f, args)
    ensures var n := U16(|f|);
            var fast, slow := Copied(cells, at, f[..n]), Copied(cells, at, Truncated(f, CONTENT_SIZE_MAX));
            && (slow[at..at + n] == fast[at..at + n] <==> n < CONTENT_SIZE_MAX)
            && (|f| < CONTENT_SIZE_MAX ==> n == |f| && slow == fast[at + n := NUL])
  {
    PlainFormat(f, args);
    hide Render, Copied, Truncated;
    var n := U16(|f|);
    if n < CONTENT_SIZE_MAX {
      BelowContentSize(f, cells, at);
    } else {
      FromContentSize(f, cells, at);
    }
    if |f| < CONTENT_SIZE_MAX {
      OneNulMore(f, cells, at);
    }
  }

  lemma BelowContentSize(f: string, cells: string, at: nat)
    requires at + Max(U16(|f|), CONTENT_SIZE_MAX) <= |cells| && U16(|f|) < CONTENT_SIZE_MAX
    ensures var n := U16(|f|);
            Copied(cells, at, Truncated(f, CONTENT_SIZE_MAX))[at..at + n] == Copied(cells, at, f[..n])[at..at + n]
  {
    hide Copied;
    var n, t := U16(|f|), Truncated(f, CONTENT_SIZE_MAX);
    CopiedText(cells, at, f[..n], n);
    CopiedText(cells, at, t, n);
    assert t[..n] == f[..n][..n];
  }

  lemma FromContentSize(f: string, cells: string, at: nat)
    requires NUL !in f && at + U16(|f|) <= |cells| && U16(|f|) >= CONTENT_SIZE_MAX
    ensures var n := U16(|f|);
            Copied(cells, at, Truncated(f, CONTENT_SIZE_MAX))[at..at + n] != Copied(cells, at, f[..n])[at..at + n]
  {
    hide Copied;
    var n, t, k := U16(|f|), Truncated(f, CONTENT_SIZE_MAX), CONTENT_SIZE_MAX - 1;
    CopiedText(cells, at, f[..n], n);
    CopiedText(cells, at, t, CONTENT_SIZE_MAX);
    assert Copied(cells, at, t)[at..at + n][k] == t[k] == NUL;
    assert Copied(cells, at, f[..n])[at..at + n][k] == f[k] && f[k] in f;
  }

  lemma OneNulMore(f: string, cells: string, at: nat)
    requires at + CONTENT_SIZE_MAX <= |cells| && |f| < CONTENT_SIZE_MAX
    ensures var n := U16(|f|);
            n == |f| && Copied(cells, at, Truncated(f, CONTENT_SIZE_MAX)) == Copied(cells, at, f[..n])[at + n := NUL]
  {
    hide Copied;
    assert Truncated(f, CONTENT_SIZE_MAX) == f + [NUL];
    assert f[..|f|] == f;
    CopiedOneMore(cells, at, f, NUL);
  }

  lemma CopiedText(cells: string, at: nat, text: string, n: nat)
    requires at + |text| <= |cells| && n <= |text|
    ensures Copied(cells, at, text)[at..at + n] == text[..n]
    ensures forall i :: 0 <= i < |text| ==> Copied(cells, at, text)[at + i] == text[i]
  {
  }

  lemma CopiedOneMore(cells: string, at: nat, text: string, c: char)
    requires at + |text| < |cells|
    ensures Copied(cells, at, text + [c]) == Copied(cells, at, text)[at + |text| := c]
  {
  }
}
