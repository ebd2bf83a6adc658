/** Rendering and reading natural numbers in base 10 and base 16, as
    `to_string()` / `toString(16)` write them and `parseInt(s, 16)` reads them. */
module Numerals {

  /** Values 0 to 255: `u8` on the Rust side. */
  type byte = x: int | 0 <= x < 256

  predicate IsDecimalDigit(c: char) {
    '0' <= c <= '9'
  }

  predicate IsHexDigit(c: char) {
    '0' <= c <= '9' || 'a' <= c <= 'f' || 'A' <= c <= 'F'
  }

  /** Value of a hexadecimal digit in either case. */
  function DigitValue(c: char): (d: nat)
    requires IsHexDigit(c)
    ensures d < 16
    ensures IsDecimalDigit(c) ==> d < 10
  {
    if '0' <= c <= '9' then c as int - '0' as int
    else if 'a' <= c <= 'f' then c as int - 'a' as int + 10
    else c as int - 'A' as int + 10
  }

  /** The lower-case digit for `d`. */
  function DigitChar(d: nat): (c: char)
    requires d < 16
    ensures IsHexDigit(c) && DigitValue(c) == d
    ensures d < 10 ==> IsDecimalDigit(c)
    ensures !('A' <= c <= 'Z')
  {
    if d < 10 then ('0' as int + d) as char else ('a' as int + d - 10) as char
  }

  /** Every character is a digit of `base`. */
  predicate IsNumeral(s: string, base: nat)
    requires 2 <= base <= 16
  {
    forall i :: 0 <= i < |s| ==> IsHexDigit(s[i]) && DigitValue(s[i]) < base
  }

  /** The canonical digits of `n` in `base`, most significant first. */
  function NatToString(n: nat, base: nat): (r: string)
    requires 2 <= base <= 16
    ensures |r| >= 1 && IsNumeral(r, base)
    ensures |r| > 1 ==> r[0] != '0'
    ensures forall i :: 0 <= i < |r| ==> r[i] != ' ' && r[i] != ',' && r[i] != '.' && !('A' <= r[i] <= 'Z')
    decreases n
  {
    if n < base then [DigitChar(n)]
    else
      DivMod(n, base);
      var front := NatToString(n / base, base);
      var r := front + [DigitChar(n % base)];
      assert forall i :: 0 <= i < |front| ==> r[i] == front[i];
      r
  }

  lemma DivMod(n: nat, base: nat)
    requires 2 <= base <= n
    ensures 0 < n / base < n && 0 <= n % base < base
    ensures n == (n / base) * base + n % base
  {
  }

  /** The number a string of `base` digits denotes. */
  function StringToNat(s: string, base: nat): nat
    requires 2 <= base <= 16
    requires IsNumeral(s, base)
    decreases |s|
  {
    if |s| == 0 then 0
    else StringToNat(s[..|s| - 1], base) * base + DigitValue(s[|s| - 1])
  }

  /** A run of zeros denotes 0 in every base. */
  lemma {:induction false} ZerosReadZero(s: string, base: nat)
    requires 2 <= base <= 16
    requires forall i :: 0 <= i < |s| ==> s[i] == '0'
    ensures IsNumeral(s, base) && StringToNat(s, base) == 0
    decreases |s|
  {
    if |s| > 0 {
      ZerosReadZero(s[..|s| - 1], base);
    }
  }

  /** Reading back a rendered number gives the number. */
  lemma {:induction false} StringToNatOfNatToString(n: nat, base: nat)
    requires 2 <= base <= 16
    ensures StringToNat(NatToString(n, base), base) == n
    decreases n
  {
    if n >= base {
      var s := NatToString(n, base);
      DivMod(n, base);
      StringToNatOfNatToString(n / base, base);
      assert s[..|s| - 1] == NatToString(n / base, base);
    }
  }

  /** Rendering is injective. */
  lemma NatToStringInjective(a: nat, b: nat, base: nat)
    requires 2 <= base <= 16
    requires NatToString(a, base) == NatToString(b, base)
    ensures a == b
  {
    StringToNatOfNatToString(a, base);
    StringToNatOfNatToString(b, base);
  }

  /** A leading zero does not change the value. */
  lemma {:induction false} StringToNatLeadingZero(s: string, base: nat)
    requires 2 <= base <= 16
    requires IsNumeral(s, base)
    ensures IsNumeral("0" + s, base)
    ensures StringToNat("0" + s, base) == StringToNat(s, base)
    decreases |s|
  {
    var z := "0" + s;
    if |s| > 0 {
      assert z[..|z| - 1] == "0" + s[..|s| - 1];
      StringToNatLeadingZero(s[..|s| - 1], base);
    } else {
      assert z[..0] == "";
    }
  }

  function NatToDecimal(n: nat): string {
    NatToString(n, 10)
  }

  /** `toString(16)`: lower-case hexadecimal. */
  function NatToHex(n: nat): string {
    NatToString(n, 16)
  }

  /** A token `parseInt(t, 16)` reads completely: one or more hex digits. */
  predicate IsHexNumeral(s: string) {
    |s| > 0 && IsNumeral(s, 16)
  }

  /** A non-empty run of decimal digits. */
  predicate IsDecimalNumeral(s: string) {
    |s| > 0 && IsNumeral(s, 10)
  }

  /** `parseInt(t, 16)` on a token of hex digits. */
  function HexValue(s: string): nat
    requires IsHexNumeral(s)
  {
    StringToNat(s, 16)
  }

  function DecimalValue(s: string): nat
    requires IsDecimalNumeral(s)
  {
    StringToNat(s, 10)
  }

  /** Decimal digits are hex digits, so a decimal token is also a hex token
      (read with a different value). */
  lemma DecimalIsHex(s: string)
    requires IsDecimalNumeral(s)
    ensures IsHexNumeral(s)
  {
  }
}
