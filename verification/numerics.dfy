/** Java's fixed-width integers and the decimal rendering of `String.valueOf(int)`. */
module Numerics {

  const INT_MIN: int := -0x8000_0000
  const INT_MAX: int := 0x7fff_ffff
  const LONG_MIN: int := -0x8000_0000_0000_0000
  const LONG_MAX: int := 0x7fff_ffff_ffff_ffff

  /** Java `int` */
  type Int32 = x: int | INT_MIN <= x <= INT_MAX
  /** Java `long` */
  type Int64 = x: int | LONG_MIN <= x <= LONG_MAX

  predicate InInt(x: int) {
    INT_MIN <= x <= INT_MAX
  }

  predicate InLong(x: int) {
    LONG_MIN <= x <= LONG_MAX
  }

  /** Two's-complement wrap-around of a mathematical result into a Java `int`. */
  function WrapInt(x: int): (r: Int32)
    ensures InInt(x) ==> r == x
    ensures (x - r) % 0x1_0000_0000 == 0
  {
    (x - INT_MIN) % 0x1_0000_0000 + INT_MIN
  }

  /** Two's-complement wrap-around of a mathematical result into a Java `long`. */
  function WrapLong(x: int): (r: Int64)
    ensures InLong(x) ==> r == x
    ensures (x - r) % 0x1_0000_0000_0000_0000 == 0
  {
    (x - LONG_MIN) % 0x1_0000_0000_0000_0000 + LONG_MIN
  }

  function Max(a: int, b: int): int {
    if a >= b then a else b
  }

  function Min(a: int, b: int): int {
    if a <= b then a else b
  }

  predicate IsDigit(c: char) {
    '0' <= c <= '9'
  }

  predicate AllDigits(s: string) {
    forall i :: 0 <= i < |s| ==> IsDigit(s[i])
  }

  function DigitChar(d: int): (c: char)
    requires 0 <= d < 10
    ensures IsDigit(c)
    ensures c as int - '0' as int == d
  {
    (d + '0' as int) as char
  }

  /** The shortest decimal numeral of a non-negative number, as `String.valueOf` prints it. */
  function DecimalString(n: nat): (s: string)
    ensures 1 <= |s|
    ensures AllDigits(s)
    ensures 1 < |s| ==> s[0] != '0'
  {
    if n < 10 then [DigitChar(n)] else DecimalString(n / 10) + [DigitChar(n % 10)]
  }

  /** Reads a numeral back (the inverse of `DecimalString`). */
  function ParseDecimal(s: string): nat
    requires AllDigits(s)
  {
    if s == [] then 0
    else ParseDecimal(s[..|s| - 1]) * 10 + (s[|s| - 1] as int - '0' as int)
  }

  lemma {:induction false} ParseDecimalString(n: nat)
    ensures ParseDecimal(DecimalString(n)) == n
  {
    var s := DecimalString(n);
    if n >= 10 {
      ParseDecimalString(n / 10);
      assert s[..|s| - 1] == DecimalString(n / 10);
    }
  }

  /** Distinct numbers never print the same: the rendering is injective. */
  lemma DecimalStringInjective(m: nat, n: nat)
    requires DecimalString(m) == DecimalString(n)
    ensures m == n
  {
    ParseDecimalString(m);
    ParseDecimalString(n);
  }
}
