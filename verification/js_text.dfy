/** JavaScript's conversion of integral numbers to text, as the host glue
    uses it when it builds messages: `"" + n` writes decimal digits and
    `n.toString(16)` lower-case hexadecimal digits, both with a leading `-`
    for negative values and no leading zeros. */
module JsText {

  /** The two radices the host glue uses. */
  predicate IsRadix(base: nat) {
    base == 10 || base == 16
  }

  /** The character for one digit: `0`-`9`, then `a`-`f`. */
  function DigitChar(d: nat): (c: char)
    requires d < 16
    ensures DigitValue(c) == d
  {
    if d < 10 then ('0' as int + d) as char else ('a' as int + d - 10) as char
  }

  predicate IsDigitChar(c: char, base: nat)
    requires IsRadix(base)
  {
    ('0' <= c <= '9' && (c as int) - ('0' as int) < base) || (base == 16 && 'a' <= c <= 'f')
  }

  /** The value of a digit character; other characters read as 0. */
  function DigitValue(c: char): nat {
    if '0' <= c <= '9' then (c as int) - ('0' as int)
    else if 'a' <= c <= 'f' then (c as int) - ('a' as int) + 10
    else 0
  }

  /** Digits of `n` in the given radix, most significant first, with no
      leading zeros (`0` is written as one digit). */
  function NatText(n: nat, base: nat): (s: string)
    requires IsRadix(base)
    ensures |s| >= 1 && IsDigitChar(s[0], base)
    ensures |s| > 1 ==> s[0] != '0'
    decreases n
  {
    if n < base then [DigitChar(n)] else NatText(n / base, base) + [DigitChar(n % base)]
  }

  /** Every character written is a digit of the radix. */
  lemma {:induction false} NatTextDigits(n: nat, base: nat)
    requires IsRadix(base)
    ensures forall i | 0 <= i < |NatText(n, base)| :: IsDigitChar(NatText(n, base)[i], base)
    decreases n
  {
    if n >= base {
      NatTextDigits(n / base, base);
    }
  }

  /** Reading a digit string back, most significant digit first. */
  function ReadNat(s: string, base: nat): nat
    requires IsRadix(base)
  {
    if |s| == 0 then 0 else ReadNat(s[..|s| - 1], base) * base + DigitValue(s[|s| - 1])
  }

  /** Writing a natural number and reading it back gives the number. */
  lemma {:induction false} ReadNatText(n: nat, base: nat)
    requires IsRadix(base)
    ensures ReadNat(NatText(n, base), base) == n
    decreases n
  {
    var s := NatText(n, base);
    if n >= base {
      ReadNatText(n / base, base);
      assert s[..|s| - 1] == NatText(n / base, base);
      if base == 10 {
        assert (n / 10) * 10 + n % 10 == n;
      } else {
        assert (n / 16) * 16 + n % 16 == n;
      }
    }
  }

  /** `String(n)` for base 10 and `n.toString(16)` for base 16. */
  function IntText(n: int, base: nat): (s: string)
    requires IsRadix(base)
    ensures |s| >= 1 && (s[0] == '-' <==> n < 0)
    ensures n >= 0 ==> IsDigitChar(s[0], base)
  {
    if n < 0 then "-" + NatText(-n, base) else NatText(n, base)
  }

  /** After an optional `-`, every character written is a digit. */
  lemma IntTextDigits(n: int, base: nat)
    requires IsRadix(base)
    ensures forall i | 0 < i < |IntText(n, base)| :: IsDigitChar(IntText(n, base)[i], base)
  {
    if n < 0 {
      NatTextDigits(-n, base);
      assert forall i | 0 < i < |IntText(n, base)| :: IntText(n, base)[i] == NatText(-n, base)[i - 1];
    } else {
      NatTextDigits(n, base);
    }
  }

  /** Reading a signed digit string back. */
  function ReadInt(s: string, base: nat): int
    requires IsRadix(base)
  {
    if |s| > 0 && s[0] == '-' then -(ReadNat(s[1..], base) as int) else ReadNat(s, base)
  }

  /** Writing an integer and reading it back gives the integer. */
  lemma IntTextRoundTrip(n: int, base: nat)
    requires IsRadix(base)
    ensures ReadInt(IntText(n, base), base) == n
  {
    if n < 0 {
      ReadNatText(-n, base);
      assert IntText(n, base)[1..] == NatText(-n, base);
    } else {
      ReadNatText(n, base);
    }
  }

  /** Different integers are written differently. */
  lemma IntTextInjective(m: int, n: int, base: nat)
    requires IsRadix(base) && IntText(m, base) == IntText(n, base)
    ensures m == n
  {
    IntTextRoundTrip(m, base);
    IntTextRoundTrip(n, base);
  }
}
