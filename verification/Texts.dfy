/** What the modules about written values share: hexadecimal digits and texts put together from pieces. */
module Texts {

  const LowerDigits := "0123456789abcdef"
  const UpperDigits := "0123456789ABCDEF"

  /** The character is the hexadecimal digit of this value, in either case. */
  predicate HexDigitOf(c: char, n: nat) {
    n < 16 && (c == LowerDigits[n] || c == UpperDigits[n])
  }

  function Joined(ts: seq<string>): string {
    if ts == [] then "" else ts[0] + Joined(ts[1..])
  }
}
