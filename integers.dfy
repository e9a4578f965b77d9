/**
 * Java's 32-bit `Integer`: `Integer.valueOf(String)` (decimal parsing, which
 * throws NumberFormatException on anything else), the decimal text that
 * string concatenation prints, and the wrap-around of `i++`.
 */
module Integers {
  import opened Wrappers

  const MinInt32: int := -0x8000_0000
  const MaxInt32: int := 0x7fff_ffff

  predicate InInt32(n: int) {
    MinInt32 <= n <= MaxInt32
  }

  /** `i++` on an `Integer`: adding one modulo 2^32, so MaxInt32 wraps to MinInt32. */
  function Increment(n: int): (r: int)
    requires InInt32(n)
    ensures InInt32(r) && (r - n) % 0x1_0000_0000 == 1
    ensures n < MaxInt32 ==> r == n + 1
    ensures n == MaxInt32 ==> r == MinInt32
  {
    if n == MaxInt32 then MinInt32 else n + 1
  }

  predicate IsDigit(c: char) {
    '0' <= c <= '9'
  }

  predicate AllDigits(s: string) {
    forall i :: 0 <= i < |s| ==> IsDigit(s[i])
  }

  /** The value of a string of decimal digits, read left to right. */
  function DigitsValue(s: string): nat
    requires AllDigits(s)
    decreases |s|
  {
    if s == [] then 0
    else DigitsValue(s[..|s| - 1]) * 10 + (s[|s| - 1] - '0') as nat
  }

  /** `Integer.valueOf(s)`: an optional sign, then at least one decimal
      digit, and a value that fits 32 bits; None stands for the thrown
      NumberFormatException. */
  function ParseInt(s: string): Option<int> {
    if |s| == 0 then None
    else if s[0] == '-' || s[0] == '+' then
      if |s| == 1 || !AllDigits(s[1..]) then None
      else
        var v: int := if s[0] == '-' then 0 - DigitsValue(s[1..]) as int else DigitsValue(s[1..]);
        if InInt32(v) then Some(v) else None
    else if !AllDigits(s) then None
    else if InInt32(DigitsValue(s)) then Some(DigitsValue(s))
    else None
  }

  function DigitChar(d: nat): (c: char)
    requires d < 10
    ensures IsDigit(c) && (c - '0') as nat == d
  {
    '0' + d as char
  }

  /** The decimal digits of a natural number, without leading zeros. */
  function NatToString(n: nat): string
    decreases n
  {
    if n < 10 then [DigitChar(n)] else NatToString(n / 10) + [DigitChar(n % 10)]
  }

  /** The text Java prints for an int (`"" + n`). */
  function IntToString(n: int): string {
    if n < 0 then "-" + NatToString(-n) else NatToString(n)
  }

  lemma {:induction false} NatToStringDigits(n: nat)
    ensures |NatToString(n)| > 0 && AllDigits(NatToString(n))
    ensures DigitsValue(NatToString(n)) == n
    decreases n
  {
    if n >= 10 {
      NatToStringDigits(n / 10);
      var s := NatToString(n);
      assert s[..|s| - 1] == NatToString(n / 10);
    }
  }

  /** Parsing what Java prints for an int gives that int back. */
  lemma ParsePrinted(n: int)
    requires InInt32(n)
    ensures ParseInt(IntToString(n)) == Some(n)
  {
    if n < 0 {
      NatToStringDigits(-n);
      var s := IntToString(n);
      assert s[0] == '-' && s[1..] == NatToString(-n);
    } else {
      NatToStringDigits(n);
      assert IntToString(n)[0] != '-' && IntToString(n)[0] != '+';
    }
  }

  /** Distinct counter values print as distinct names. */
  lemma PrintedIsInjective(m: int, n: int)
    requires InInt32(m) && InInt32(n) && m != n
    ensures IntToString(m) != IntToString(n)
  {
    ParsePrinted(m);
    ParsePrinted(n);
  }
}
