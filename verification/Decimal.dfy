/** Decimal numerals: how the queue prints unsigned integers and how it parses them back. */
module Decimal {
  import opened Text

  const U32_MAX: nat := 0xFFFF_FFFF
  const USIZE_MAX: nat := 0xFFFF_FFFF_FFFF_FFFF
  const U64_MAX: nat := 0xFFFF_FFFF_FFFF_FFFF

  predicate IsDigit(c: char) {
    '0' <= c <= '9'
  }

  predicate AllDigits(s: string) {
    forall i :: 0 <= i < |s| ==> IsDigit(s[i])
  }

  function DigitChar(d: nat): (c: char)
    requires d < 10
    ensures IsDigit(c) && c as int - '0' as int == d
  {
    "0123456789"[d]
  }

  /** The decimal numeral of `n`, without leading zeros. */
  function Numeral(n: nat): (s: string)
    ensures s != "" && AllDigits(s)
  {
    if n < 10 then [DigitChar(n)] else Numeral(n / 10) + [DigitChar(n % 10)]
  }

  function Value(s: string): nat
    requires AllDigits(s)
  {
    if s == "" then 0 else 10 * Value(s[..|s| - 1]) + (s[|s| - 1] as int - '0' as int)
  }

  /** Unsigned `str::parse`: an optional leading plus sign, then at least one digit, and a value that fits. */
  function ParseUnsigned(s: string, max: nat): Option<nat> {
    var digits := if s != "" && s[0] == '+' then s[1..] else s;
    if digits == "" || !AllDigits(digits) || Value(digits) > max then None else Some(Value(digits))
  }

  function ParseU32(s: string): (r: Option<nat>)
    ensures r.Some? ==> r.value <= U32_MAX
  {
    ParseUnsigned(s, U32_MAX)
  }

  function ParseUsize(s: string): Option<nat> {
    ParseUnsigned(s, USIZE_MAX)
  }

  /** At least one digit, of decimal value `n`. */
  predicate DigitsSpell(s: string, n: nat) {
    s != "" && AllDigits(s) && Value(s) == n
  }

  /** An unsigned number: digits, with or without a leading plus sign. */
  predicate IsNumber(s: string, n: nat) {
    DigitsSpell(s, n) || (s != "" && s[0] == '+' && DigitsSpell(s[1..], n))
  }

  /** Parsing accepts exactly the unsigned numbers up to `max`, leading zeros and sign included. */
  lemma ParseMeaning(s: string, max: nat, n: nat)
    ensures ParseUnsigned(s, max) == Some(n) <==> IsNumber(s, n) && n <= max
  {
    if s != "" && s[0] == '+' {
      assert !IsDigit(s[0]) && !AllDigits(s);
    }
  }

  lemma NumberChars(s: string, n: nat)
    requires IsNumber(s, n)
    ensures s != "" && forall i :: 0 <= i < |s| ==> IsDigit(s[i]) || s[i] == '+'
  {
    if !DigitsSpell(s, n) {
      assert forall i :: 1 <= i < |s| ==> s[i] == s[1..][i - 1];
    }
  }

  lemma {:induction false} LeadingZero(s: string)
    requires AllDigits(s)
    ensures AllDigits("0" + s) && Value("0" + s) == Value(s)
    decreases |s|
  {
    var t := "0" + s;
    if s == "" {
      assert t[..0] == "" && t[0] == '0';
    } else {
      var n := |s| - 1;
      LeadingZero(s[..n]);
      assert t[..|t| - 1] == "0" + s[..n];
    }
  }

  /** The only numeral that starts with a zero is zero's. */
  lemma {:induction false} NumeralCanonical(n: nat)
    ensures Numeral(n)[0] == '0' ==> n == 0 && Numeral(n) == "0"
  {
    if n >= 10 {
      NumeralCanonical(n / 10);
    }
  }

  lemma {:induction false} ValueOfNumeral(n: nat)
    ensures Value(Numeral(n)) == n
  {
    if n >= 10 {
      ValueOfNumeral(n / 10);
      assert Numeral(n)[..|Numeral(n)| - 1] == Numeral(n / 10);
    }
  }

  /** Parsing a printed number gives it back. */
  lemma NumeralRoundTrip(n: nat, max: nat)
    requires n <= max
    ensures ParseUnsigned(Numeral(n), max) == Some(n)
  {
    ValueOfNumeral(n);
    assert IsDigit(Numeral(n)[0]);
  }

  lemma NumeralInjective(m: nat, n: nat)
    requires Numeral(m) == Numeral(n)
    ensures m == n
  {
    ValueOfNumeral(m);
    ValueOfNumeral(n);
  }

  lemma NumeralLacks(n: nat, c: char)
    requires !IsDigit(c)
    ensures c !in Numeral(n)
  {
  }
}
