/** The flag bits a conversion directive collects, and the sizes it may name. */
module FormatFlags {
  /** The length modifiers seen so far. */
  datatype Sizes = Sizes(charSize: bool, shortSize: bool, longSize: bool, longLong: bool, longDouble: bool)

  datatype Flags = Flags(zeropad: bool, left: bool, plus: bool, space: bool, hash: bool, upper: bool,
                         precision: bool, adapt: bool, sizes: Sizes)
  {
    /** Left padding is done with zeros inside the number. */
    predicate ZeroFilled() { zeropad && !left }

    /** A non-negative number shows a sign character. */
    predicate Signed() { plus || space }
  }

  const NO_FLAGS := Flags(false, false, false, false, false, false, false, false,
                          Sizes(false, false, false, false, false))

  /** The sign character in front of a number; `+` wins over a space. */
  function SignChar(negative: bool, flags: Flags): (s: string)
    ensures |s| == if negative || flags.Signed() then 1 else 0
  {
    if negative then "-" else if flags.plus then "+" else if flags.space then " " else ""
  }

  /** Under zero filling the sign takes one column of the width. */
  function FillWidth(negative: bool, width: nat, flags: Flags): nat
  {
    if flags.ZeroFilled() && width > 0 && (negative || flags.Signed()) then width - 1 else width
  }
}
