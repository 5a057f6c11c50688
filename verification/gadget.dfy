/** The output gadget: the one place every formatting routine writes its characters to,
    which counts all of them and stores those that fit. */
module Gadget {
  import opened Text

  /** What `vsnprintf_` leaves in a buffer with room for `room` characters. */
  function Truncated(text: string, room: nat): (r: string)
    ensures |r| == if room == 0 then 0 else Min(|text| + 1, room)
    ensures room > 0 ==> r[|r| - 1] == NUL && r[..|r| - 1] <= text
  {
    if room == 0 then "" else text[..Min(|text|, room - 1)] + [NUL]
  }

  /** The int a caller gets for a 32-bit unsigned position. */
  function AsInt(x: nat): (r: int)
    requires x < SIZE_MODULUS
    ensures -0x8000_0000 <= r < 0x8000_0000
    ensures r % SIZE_MODULUS == x
  {
    if x < 0x8000_0000 then x else x - SIZE_MODULUS
  }

  /** The distance between two wrapped positions is the number of characters in between. */
  lemma WrappedDistance(start: nat, count: nat)
    requires count < SIZE_MODULUS
    ensures ((start + count) % SIZE_MODULUS - start % SIZE_MODULUS) % SIZE_MODULUS == count
  {
  }

  /** `buffer` with `base` stands for a char pointer into the middle of an array. A gadget
      with a function passes its characters on to it; `sent` records them. */
  class OutputGadget {
    const hasFunction: bool
    const buffer: array?<char>
    const base: nat
    const maxChars: nat
    var pos: nat
    var sent: string
    ghost var emitted: string
    ghost const initial: string

    ghost predicate Valid()
      reads this, buffer
    {
      && maxChars <= INT_MAX
      && pos == |emitted| % SIZE_MODULUS
      && (hasFunction ==> buffer == null)
      && (!hasFunction && maxChars > 0 ==> buffer != null)
      && (hasFunction && |emitted| < SIZE_MODULUS ==> sent == emitted[..Stored()])
      && (!hasFunction ==> sent == "")
      && (buffer != null ==> base + maxChars <= buffer.Length == |initial| && Untouched() && Prefix())
    }

    /** Cells outside the part handed over are as they were. */
    ghost predicate Untouched()
      reads this, buffer
      requires buffer != null && base + maxChars <= buffer.Length == |initial|
    {
      forall i :: 0 <= i < base || base + maxChars <= i < buffer.Length ==> buffer[i] == initial[i]
    }

    /** The part handed over holds the first characters emitted, then what it held before.
        Once the 32-bit position has wrapped, nothing is known about it. */
    ghost predicate Prefix()
      reads this, buffer
      requires buffer != null && base + maxChars <= buffer.Length == |initial|
    {
      |emitted| < SIZE_MODULUS ==>
        forall i :: base <= i < base + maxChars ==>
          buffer[i] == if i - base < |emitted| then emitted[i - base] else initial[i]
    }

    /** How many of the emitted characters have been stored or sent. */
    ghost function Stored(): nat
      reads this
    {
      Min(|emitted|, maxChars)
    }

    /** buffer_gadget: a null pointer leaves the discarding gadget. */
    constructor ForBuffer(s: array?<char>, offset: nat, size: nat)
      requires s != null ==> offset + Min(size, INT_MAX) <= s.Length
      ensures Valid() && emitted == "" && !hasFunction && buffer == s && base == offset
      ensures maxChars == if s == null then 0 else Min(size, INT_MAX)
      ensures s != null ==> initial == s[..]
    {
      hasFunction, buffer, base := false, s, offset;
      pos, sent, emitted := 0, "", "";
      initial := if s == null then "" else s[..];
      maxChars := if s == null then 0 else if size > INT_MAX then INT_MAX else size;
    }

    /** function_gadget. */
    constructor ForFunction()
      ensures Valid() && emitted == "" && hasFunction && maxChars == INT_MAX
    {
      hasFunction, buffer, base, maxChars := true, null, 0, INT_MAX;
      pos, sent, emitted, initial := 0, "", "", "";
    }

    /** putchar_via_gadget: the position always advances, so that it counts what would have
        been written without the limit. */
    method PutChar(c: char)
      requires Valid()
      modifies this, buffer
      ensures Valid() && emitted == old(emitted) + [c]
    {
      var writePos := pos;
      pos := (pos + 1) % SIZE_MODULUS;
      emitted := emitted + [c];
      if writePos >= maxChars {
        return;
      }
      if hasFunction {
        sent := sent + [c];
      } else {
        buffer[base + writePos] := c;
      }
    }

    /** append_termination_with_gadget. */
    method AppendTermination()
      requires Valid()
      modifies buffer
      ensures hasFunction || buffer == null ==> Valid()
      ensures buffer != null && |emitted| < SIZE_MODULUS ==>
                Holds(buffer[..], initial, base, Truncated(emitted, maxChars))
      ensures buffer != null ==> SameOutside(buffer[..], initial, base, maxChars)
    {
      hide Truncated, Holds, SameOutside;
      if hasFunction || maxChars == 0 {
        if buffer != null {
          NoRoom(emitted, buffer[..], initial, base);
        }
        return;
      }
      if buffer == null {
        return;
      }
      var nullCharPos := if pos < maxChars then pos else maxChars - 1;
      buffer[base + nullCharPos] := NUL;
      OutsideKept(buffer[..], initial, base, maxChars);
      if |emitted| < SIZE_MODULUS {
        TerminatedText(buffer[..], initial, base, emitted, maxChars);
      }
    }
  }

  /** `cells` are `initial` with `text` written from `base` on. */
  predicate Holds(cells: string, initial: string, base: nat, text: string)
  {
    base + |text| <= |initial| && cells == initial[..base] + text + initial[base + |text|..]
  }

  /** `cells` and `initial` differ at most in the `room` cells from `base` on. */
  predicate SameOutside(cells: string, initial: string, base: nat, room: nat)
  {
    && base + room <= |cells| == |initial|
    && cells[..base] == initial[..base] && cells[base + room..] == initial[base + room..]
  }

  lemma OutsideKept(cells: string, initial: string, base: nat, room: nat)
    requires base + room <= |cells| == |initial|
    requires forall i :: 0 <= i < base || base + room <= i < |cells| ==> cells[i] == initial[i]
    ensures SameOutside(cells, initial, base, room)
  {
  }

  lemma NoRoom(text: string, cells: string, initial: string, base: nat)
    requires base <= |cells| == |initial| && forall i :: 0 <= i < |cells| ==> cells[i] == initial[i]
    ensures Holds(cells, initial, base, Truncated(text, 0)) && SameOutside(cells, initial, base, 0)
  {
    assert Truncated(text, 0) == "";
  }

  /** A room filled with the first characters of `text`, closed with a NUL, and otherwise
      left alone, holds the truncated text. */
  lemma TerminatedText(cells: string, initial: string, base: nat, text: string, room: nat)
    requires base + room <= |cells| == |initial| && room > 0
    requires forall i :: 0 <= i < base || base + room <= i < |cells| ==> cells[i] == initial[i]
    requires var last := Min(|text|, room - 1);
             cells[base + last] == NUL
             && forall i :: base <= i < base + room && i != base + last ==>
                  cells[i] == if i - base < |text| then text[i - base] else initial[i]
    ensures Holds(cells, initial, base, Truncated(text, room))
  {
    var t := Truncated(text, room);
    var all := initial[..base] + t + initial[base + |t|..];
    forall i | 0 <= i < |cells|
      ensures cells[i] == all[i]
    {
    }
  }
}
