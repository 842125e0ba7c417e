/**
 * Decimal rendering of integers, as `String(n)` and template literals produce
 * it for integral numbers: digits without leading zeros, '-' before negatives.
 */
module Decimal {

  function DigitChar(d: nat): (c: char)
    requires d < 10
    ensures '0' <= c <= '9'
  {
    ('0' as int + d) as char
  }

  function DigitValue(c: char): (d: nat)
    requires '0' <= c <= '9'
    ensures d < 10
  {
    c as int - '0' as int
  }

  /** `String(n)` for a natural number. */
  function NatToString(n: nat): (s: string)
    decreases n
  {
    if n < 10 then [DigitChar(n)] else NatToString(n / 10) + [DigitChar(n % 10)]
  }

  /** `String(n)` for an integer. */
  function IntToString(n: int): string {
    if n < 0 then "-" + NatToString(-n) else NatToString(n)
  }

  predicate AllDigits(s: string) {
    forall i :: 0 <= i < |s| ==> '0' <= s[i] <= '9'
  }

  /** Reads a string of decimal digits back into the number it denotes. */
  function ParseDigits(s: string): nat
    requires AllDigits(s)
  {
    if s == [] then 0 else 10 * ParseDigits(s[..|s| - 1]) + DigitValue(s[|s| - 1])
  }

  /** The rendering is a non-empty string of digits without a leading zero (except "0" itself). */
  lemma {:induction false} NatToStringShape(n: nat)
    ensures NatToString(n) != [] && AllDigits(NatToString(n))
    ensures |NatToString(n)| > 1 ==> NatToString(n)[0] != '0'
    ensures n == 0 <==> NatToString(n) == "0"
    decreases n
  {
    if n >= 10 {
      NatToStringShape(n / 10);
      assert NatToString(n)[0] == NatToString(n / 10)[0];
    }
  }

  /** Parsing undoes rendering. */
  lemma {:induction false} ParseRender(n: nat)
    ensures AllDigits(NatToString(n)) && ParseDigits(NatToString(n)) == n
    decreases n
  {
    NatToStringShape(n);
    if n >= 10 {
      ParseRender(n / 10);
      var s := NatToString(n);
      assert s[..|s| - 1] == NatToString(n / 10);
      assert DigitValue(s[|s| - 1]) == n % 10;
    }
  }

  /** Distinct numbers render to distinct strings. */
  lemma NatToStringInjective(m: nat, n: nat)
    ensures NatToString(m) == NatToString(n) <==> m == n
  {
    if NatToString(m) == NatToString(n) {
      ParseRender(m);
      ParseRender(n);
    }
  }

  /** Distinct integers render to distinct strings (the sign keeps negatives apart). */
  lemma IntToStringInjective(m: int, n: int)
    ensures IntToString(m) == IntToString(n) <==> m == n
  {
    if IntToString(m) == IntToString(n) {
      if m < 0 && n < 0 {
        assert NatToString(-m) == IntToString(m)[1..];
        NatToStringInjective(-m, -n);
      } else if m >= 0 && n >= 0 {
        NatToStringInjective(m, n);
      } else {
        NatToStringShape(if m < 0 then n else m);
        assert false;
      }
    }
  }
}
