/** Octets and their hexadecimal notation. */
module Bytes {
  import opened Wrappers

  /** One octet; also the character code of one character of a JavaScript
      "binary string" such as the result of `atob`. */
  type Byte = b: int | 0 <= b < 256

  /** The hexadecimal digit for `d`, in lower or upper case. */
  function HexDigit(d: int, upper: bool): (c: char)
    requires 0 <= d < 16
  {
    if d < 10 then ('0' as int + d) as char
    else if upper then ('A' as int + d - 10) as char
    else ('a' as int + d - 10) as char
  }

  /** The value of a hexadecimal digit of either case (the HEXDIG of section 2.1
      of RFC 3986). */
  function HexValue(c: char): (r: Option<int>)
    ensures r.Some? ==> 0 <= r.value < 16
  {
    if '0' <= c <= '9' then Some(c as int - '0' as int)
    else if 'a' <= c <= 'f' then Some(c as int - 'a' as int + 10)
    else if 'A' <= c <= 'F' then Some(c as int - 'A' as int + 10)
    else None
  }

  /** Each digit reads back as its value, whatever its case. */
  lemma HexValueOfDigit(d: int, upper: bool)
    requires 0 <= d < 16
    ensures HexValue(HexDigit(d, upper)) == Some(d)
  {
  }
}
