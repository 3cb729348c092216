/**
 * Unsigned numerals in a radix from 2 to 36 with the digits `0-9a-z`, as
 * printed by num-bigint's `BigUint::to_str_radix` and, in radix 10, by the
 * `Display` of an unsigned integer.
 */
module Numerals {

  /** The value of a numeral digit, or 36 for a character that is no digit. */
  function DigitValue(c: char): (d: nat)
    ensures d <= 36
  {
    if '0' <= c <= '9' then c as int - '0' as int
    else if 'a' <= c <= 'z' then c as int - 'a' as int + 10
    else 36
  }

  /** The lower-case digit character of the value `d`. */
  function DigitChar(d: nat): (c: char)
    requires d < 36
    ensures DigitValue(c) == d
  {
    if d < 10 then ('0' as int + d) as char else ('a' as int + d - 10) as char
  }

  predicate IsDigit(c: char, radix: nat)
  {
    DigitValue(c) < radix
  }

  /** A numeral as `to_str_radix` writes one: digits only, no leading zero except the numeral "0". */
  predicate IsCanonical(s: string, radix: nat)
  {
    && |s| > 0
    && (forall i :: 0 <= i < |s| ==> IsDigit(s[i], radix))
    && (s[0] == '0' ==> s == "0")
  }

  /** The value of a numeral read most significant digit first. */
  function ParseRadix(s: string, radix: nat): nat
  {
    if s == [] then 0 else ParseRadix(s[..|s| - 1], radix) * radix + DigitValue(s[|s| - 1])
  }

  lemma DivModStep(n: nat, radix: nat)
    requires 2 <= radix <= n
    ensures 1 <= n / radix < n
    ensures n == (n / radix) * radix + n % radix
    ensures n % radix < radix
  {
  }

  lemma DivModOf(m: nat, d: nat, radix: nat)
    requires 2 <= radix && d < radix
    ensures (m * radix + d) / radix == m
    ensures (m * radix + d) % radix == d
  {
    var n := m * radix + d;
    var q, r := n / radix, n % radix;
    assert q * radix + r == m * radix + d;
    assert (q - m) * radix == d - r;
    MulBounds(q - m, radix);
  }

  lemma MulBounds(k: int, radix: nat)
    ensures 1 <= k ==> k * radix >= radix
    ensures k <= -1 ==> k * radix + radix <= 0
  {
  }

  /** `n.to_str_radix(radix)`: the digits of `n`, most significant first. */
  function ToStrRadix(n: nat, radix: nat): (s: string)
    requires 2 <= radix <= 36
    ensures |s| > 0
    ensures forall i :: 0 <= i < |s| ==> IsDigit(s[i], radix)
    ensures s[0] == '0' <==> n == 0
    ensures n == 0 ==> s == "0"
    decreases n
  {
    if n < radix then [DigitChar(n)] else DivModStep(n, radix); ToStrRadix(n / radix, radix) + [DigitChar(n % radix)]
  }

  lemma DigitCharOfValue(c: char, radix: nat)
    requires radix <= 36 && IsDigit(c, radix)
    ensures DigitChar(DigitValue(c)) == c
  {
  }

  /** Reading back what `ToStrRadix` wrote gives the number. */
  lemma {:induction false} ParseToStrRadix(n: nat, radix: nat)
    requires 2 <= radix <= 36
    ensures ParseRadix(ToStrRadix(n, radix), radix) == n
  {
    if n >= radix {
      DivModStep(n, radix);
      var s := ToStrRadix(n, radix);
      assert s[..|s| - 1] == ToStrRadix(n / radix, radix);
      ParseToStrRadix(n / radix, radix);
    }
  }

  lemma {:induction false} LeadingDigitPositive(s: string, radix: nat)
    requires |s| > 0 && 0 < DigitValue(s[0])
    ensures ParseRadix(s, radix) > 0 || radix == 0
  {
    if |s| > 1 {
      LeadingDigitPositive(s[..|s| - 1], radix);
    }
  }

  /** A canonical numeral is exactly what `ToStrRadix` writes for its value. */
  lemma {:induction false} ToStrRadixParse(s: string, radix: nat)
    requires 2 <= radix <= 36 && IsCanonical(s, radix)
    ensures ToStrRadix(ParseRadix(s, radix), radix) == s
  {
    var last := s[|s| - 1];
    DigitCharOfValue(last, radix);
    if |s| > 1 {
      var p := s[..|s| - 1];
      assert p[0] == s[0];
      assert IsCanonical(p, radix) by {
        assert forall i :: 0 <= i < |p| ==> p[i] == s[i];
      }
      LeadingDigitPositive(p, radix);
      var m := ParseRadix(p, radix);
      var d := DigitValue(last);
      var n := m * radix + d;
      assert ParseRadix(s, radix) == n;
      DivModOf(m, d, radix);
      MulBounds(m, radix);
      ToStrRadixParse(p, radix);
      calc {
        ToStrRadix(n, radix);
        ToStrRadix(n / radix, radix) + [DigitChar(n % radix)];
        ToStrRadix(m, radix) + [DigitChar(d)];
        p + [last];
      }
      assert p + [last] == s;
    }
  }

  /** Different numbers get different numerals. */
  lemma ToStrRadixInjective(m: nat, n: nat, radix: nat)
    requires 2 <= radix <= 36
    ensures ToStrRadix(m, radix) == ToStrRadix(n, radix) <==> m == n
  {
    ParseToStrRadix(m, radix);
    ParseToStrRadix(n, radix);
  }
}
