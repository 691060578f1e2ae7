/** Printing and parsing unsigned decimal numbers, as Rust's `Display` and `FromStr` do. */
module Decimal {
  import opened Wrappers

  predicate IsDigit(c: char) {
    '0' <= c <= '9'
  }

  predicate AllDigits(s: string) {
    forall i | 0 <= i < |s| :: IsDigit(s[i])
  }

  function DigitChar(d: nat): (c: char)
    requires d < 10
    ensures IsDigit(c) && DigitValue(c) == d
  {
    '0' + d as char
  }

  function DigitValue(c: char): (d: nat)
    requires IsDigit(c)
    ensures d < 10 && '0' + d as char == c
  {
    (c - '0') as int
  }

  function ToDecimal(n: nat): (s: string)
    ensures |s| > 0 && AllDigits(s)
  {
    if n < 10 then [DigitChar(n)] else ToDecimal(n / 10) + [DigitChar(n % 10)]
  }

  function FromDecimal(s: string): nat
    requires AllDigits(s)
  {
    if s == [] then 0 else 10 * FromDecimal(s[..|s| - 1]) + DigitValue(s[|s| - 1])
  }

  /** The one way a number is printed: no leading zero unless it is zero. */
  predicate Canonical(s: string) {
    |s| > 0 && AllDigits(s) && (|s| > 1 ==> s[0] != '0')
  }

  lemma {:induction false} PrintThenParse(n: nat)
    ensures FromDecimal(ToDecimal(n)) == n && Canonical(ToDecimal(n))
    ensures n > 0 ==> ToDecimal(n)[0] != '0'
  {
    if n >= 10 {
      PrintThenParse(n / 10);
      var s := ToDecimal(n);
      assert s[..|s| - 1] == ToDecimal(n / 10);
    }
  }

  lemma {:induction false} CanonicalIsPositive(s: string)
    requires Canonical(s) && s[0] != '0'
    ensures FromDecimal(s) > 0
  {
    if |s| > 1 { CanonicalIsPositive(s[..|s| - 1]); }
  }

  lemma {:induction false} ParseThenPrint(s: string)
    requires Canonical(s)
    ensures ToDecimal(FromDecimal(s)) == s
  {
    var front, last := s[..|s| - 1], s[|s| - 1];
    if |s| == 1 {
      assert FromDecimal(s) == DigitValue(last);
      assert s == [last];
    } else {
      ParseThenPrint(front);
      CanonicalIsPositive(front);
      assert FromDecimal(s) / 10 == FromDecimal(front) && FromDecimal(s) % 10 == DigitValue(last);
      assert s == front + [last];
    }
  }

  function Power10(k: nat): (p: nat)
    ensures p > 0
  {
    if k == 0 then 1 else 10 * Power10(k - 1)
  }

  lemma {:induction false} PrintedLength(n: nat, k: nat)
    requires k > 0 && n < Power10(k)
    ensures |ToDecimal(n)| <= k
  {
    if n >= 10 {
      assert n / 10 < Power10(k - 1);
      PrintedLength(n / 10, k - 1);
    }
  }

  /** `str::parse` for an unsigned integer with the given largest value. */
  function ParseUnsigned(s: string, max: nat): Option<nat> {
    var digits := if |s| > 0 && s[0] == '+' then s[1..] else s;
    if digits == [] || !AllDigits(digits) then None
    else if FromDecimal(digits) > max then None
    else Some(FromDecimal(digits))
  }

  lemma ParsePrinted(n: nat, max: nat)
    ensures ParseUnsigned(ToDecimal(n), max) == if n <= max then Some(n) else None
  {
    PrintThenParse(n);
    assert IsDigit(ToDecimal(n)[0]);
  }
}
