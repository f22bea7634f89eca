/** What more than one component uses: optional values and results, small arithmetic, the width of a
    machine word, white space. */
module Basics {
  datatype Option<+T> = None | Some(value: T)

  datatype Result<+T, +E> = Ok(value: T) | Err(error: E)

  /** The number of values of a `usize`. */
  const USIZE_VALUES := 0x1_0000_0000_0000_0000

  const ISIZE_MIN := -0x8000_0000_0000_0000

  type Isize = k: int | ISIZE_MIN <= k < -ISIZE_MIN

  function Max(a: nat, b: nat): nat { if a < b then b else a }

  function Min(a: nat, b: nat): nat { if a < b then a else b }

  function SaturatingSub(a: nat, b: nat): nat { if a < b then 0 else a - b }

  predicate IsAsciiDigit(c: char) { '0' <= c <= '9' }

  /** `char::is_whitespace`, the White_Space property of the Unicode standard. */
  predicate IsWhitespace(c: char) {
    var v := c as int;
    || 9 <= v <= 13 || v == 0x20 || v == 0x85 || v == 0xA0 || v == 0x1680 || 0x2000 <= v <= 0x200A
    || v == 0x2028 || v == 0x2029 || v == 0x202F || v == 0x205F || v == 0x3000
  }
}
