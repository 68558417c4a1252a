// Hexadecimal digits, in either case on input.
module Hex {

  // hex_char_to_int: the digit's value, or -1.
  function HexVal(c: char): (v: int)
    ensures -1 <= v < 16
  {
    if '0' <= c <= '9' then c as int - '0' as int
    else if 'A' <= c <= 'F' then c as int - 'A' as int + 10
    else if 'a' <= c <= 'f' then c as int - 'a' as int + 10
    else -1
  }

  function HexDigit(v: int): (c: char)
    requires 0 <= v < 16
    ensures HexVal(c) == v
  {
    if v < 10 then (v + '0' as int) as char else (v - 10 + 'A' as int) as char
  }

  // The digits in either case, and nothing else.
  lemma HexDigits(c: char)
    ensures HexVal(c) >= 0 <==> c in "0123456789" || c in "abcdef" || c in "ABCDEF"
    ensures HexVal(c) >= 0 ==>
              c == "0123456789abcdef"[HexVal(c)] || c == "0123456789ABCDEF"[HexVal(c)]
  {
  }

  predicate IsHex(s: string) {
    forall i :: 0 <= i < |s| ==> HexVal(s[i]) >= 0
  }
}
