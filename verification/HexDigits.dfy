/** Hexadecimal digits, as the address texts use them. */
module HexDigits {
  type Nibble = n: int | 0 <= n < 16

  /** The value of a hexadecimal digit, or -1. */
  function HexNibble(c: char): (v: int)
    ensures -1 <= v < 16
  {
    if '0' <= c <= '9' then c as int - '0' as int
    else if 'a' <= c <= 'f' then c as int - 'a' as int + 10
    else if 'A' <= c <= 'F' then c as int - 'A' as int + 10
    else -1
  }

  function HexChar(n: Nibble): char {
    if n < 10 then '0' + n as char else 'a' + (n - 10) as char
  }

  /** A printed digit reads back, and is lower case. */
  lemma {:induction false} HexCharReads(n: Nibble)
    ensures HexNibble(HexChar(n)) == n && ('0' <= HexChar(n) <= '9' || 'a' <= HexChar(n) <= 'f')
  {
  }

  /** A character is a digit of value `n` if it is the printed one or its capital. */
  lemma {:induction false} NibbleExactlyWhen(c: char, n: Nibble)
    ensures HexNibble(c) == n <==> c == "0123456789abcdef"[n] || c == "0123456789ABCDEF"[n]
  {
  }
}
