/** Percent-encoded octets: hexadecimal digits in either case. */
module Percent {
  import opened Options
  import opened Utf8

  function HexDigit(n: int, upper: bool): char
    requires 0 <= n < 16
  {
    if n < 10 then ('0' as int + n) as char
    else if upper then ('A' as int + n - 10) as char
    else ('a' as int + n - 10) as char
  }

  // The value of a hexadecimal digit, -1 for any other character.
  function HexValue(c: char): int {
    if '0' <= c <= '9' then c as int - '0' as int
    else if 'A' <= c <= 'F' then c as int - 'A' as int + 10
    else if 'a' <= c <= 'f' then c as int - 'a' as int + 10
    else -1
  }

  function PercentByte(b: Byte, upper: bool): string {
    ['%', HexDigit(b / 16, upper), HexDigit(b % 16, upper)]
  }

  // The octet written as %XX at the start of s.
  function ReadOctet(s: string): Option<Byte> {
    if |s| < 3 || s[0] != '%' || HexValue(s[1]) < 0 || HexValue(s[2]) < 0 then None
    else Some(HexValue(s[1]) * 16 + HexValue(s[2]))
  }

  lemma {:induction false} HexByPosition(n: int)
    requires 0 <= n < 16
    ensures HexDigit(n, true) == "0123456789ABCDEF"[n] && HexDigit(n, false) == "0123456789abcdef"[n]
    ensures HexValue(HexDigit(n, true)) == n && HexValue(HexDigit(n, false)) == n
  {
  }

  lemma {:induction false} ReadPercentByte(b: Byte, upper: bool, rest: string)
    ensures ReadOctet(PercentByte(b, upper) + rest) == Some(b)
    ensures (PercentByte(b, upper) + rest)[3..] == rest
  {
    var s := PercentByte(b, upper) + rest;
    assert s[0] == '%' && s[1] == HexDigit(b / 16, upper) && s[2] == HexDigit(b % 16, upper);
    assert b == b / 16 * 16 + b % 16;
  }
}
