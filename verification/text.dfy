/** Strings as the printf engine builds them: runs of one character, reversal of a
    backwards-written buffer, the fixed 32-character scratch buffer, and field padding. */
module Text {

  /** PRINTF_INTEGER_BUFFER_SIZE and PRINTF_DECIMAL_BUFFER_SIZE. */
  const BUFFER_SIZE: nat := 32

  /** Number of values of printf_size_t (unsigned int), the type of positions and widths. */
  const SIZE_MODULUS: nat := 0x1_0000_0000

  /** PRINTF_MAX_POSSIBLE_BUFFER_SIZE, that is INT_MAX. */
  const INT_MAX: nat := 0x7FFF_FFFF

  const NUL: char := '\0'

  function Min(a: int, b: int): int { if a < b then a else b }

  function Max(a: int, b: int): int { if a < b then b else a }

  function Repeat(c: char, n: int): (s: string)
    ensures |s| == if n <= 0 then 0 else n
  {
    if n <= 0 then "" else seq(n, _ => c)
  }

  function Reverse<T>(s: seq<T>): (r: seq<T>)
    ensures |r| == |s|
  {
    seq(|s|, i requires 0 <= i < |s| => s[|s| - 1 - i])
  }

  /** What the scratch buffer holds after the characters of `s` were pushed one by one,
      each push guarded by "if there is room". */
  function Clip(s: string): (r: string)
    ensures r <= s
    ensures |r| == Min(|s|, BUFFER_SIZE)
  {
    if |s| <= BUFFER_SIZE then s else s[..BUFFER_SIZE]
  }

  /** A field: `text` padded with spaces to `width`, on the right under the `-` flag, on
      the left otherwise, unless the `0` flag already took care of left padding. */
  function Justify(text: string, width: nat, left: bool, zeropad: bool): (r: string)
  {
    if left then text + Repeat(' ', width - |text|)
    else if zeropad then text
    else Repeat(' ', width - |text|) + text
  }

  lemma RepeatElements(c: char, n: int)
    ensures forall i :: 0 <= i < n ==> Repeat(c, n)[i] == c
  {
  }

  lemma ReverseElements<T>(s: seq<T>)
    ensures forall i :: 0 <= i < |s| ==> Reverse(s)[i] == s[|s| - 1 - i]
  {
  }

  lemma ReverseConcat<T>(a: seq<T>, b: seq<T>)
    ensures Reverse(a + b) == Reverse(b) + Reverse(a)
  {
  }

  lemma ReverseOne<T>(x: T)
    ensures Reverse([x]) == [x]
  {
  }

  lemma ReverseTwice<T>(s: seq<T>)
    ensures Reverse(Reverse(s)) == s
  {
  }

  /** The first characters written are the last ones read. */
  lemma ReversePrefix<T>(s: seq<T>, n: nat)
    requires n <= |s|
    ensures Reverse(s[..n]) == Reverse(s)[|s| - n..]
  {
  }

  lemma ReverseRepeat(c: char, n: int)
    ensures Reverse(Repeat(c, n)) == Repeat(c, n)
  {
  }

  /** Guarded pushes of `a` and then of `b` are guarded pushes of `a + b`. */
  lemma ClipConcat(a: string, b: string)
    ensures Clip(Clip(a) + b) == Clip(a + b)
  {
    if |a| > BUFFER_SIZE {
      assert Clip(a) + b == a[..BUFFER_SIZE] + b;
      assert Clip(Clip(a) + b) == a[..BUFFER_SIZE];
    }
  }

  lemma RepeatSplit(c: char, a: nat, b: nat)
    ensures Repeat(c, a + b) == Repeat(c, a) + Repeat(c, b)
  {
  }

  /** One more in front is one more at the end. */
  lemma RepeatFront(c: char, n: nat)
    ensures [c] + Repeat(c, n) == Repeat(c, n + 1) == Repeat(c, n) + [c]
  {
  }
}
