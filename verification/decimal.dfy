/**
 Decimal numerals as printf's `%u` writes them (no sign, no leading zeros)
 and as a reader of such a numeral takes them back.
 */
module Decimal {

  predicate IsDigit(c: char) {
    '0' <= c <= '9'
  }

  predicate AllDigits(s: string) {
    forall i :: 0 <= i < |s| ==> IsDigit(s[i])
  }

  function DigitChar(d: nat): (c: char)
    requires d < 10
    ensures IsDigit(c) && DigitValue(c) == d
  {
    "0123456789"[d]
  }

  function DigitValue(c: char): (d: nat)
    requires IsDigit(c)
    ensures d < 10
  {
    c as int - '0' as int
  }

  /** The value of a string of decimal digits, most significant first (the empty string is 0). */
  function Value(s: string): nat
    requires AllDigits(s)
  {
    if s == [] then 0 else 10 * Value(s[..|s| - 1]) + DigitValue(s[|s| - 1])
  }

  function Pow10(k: nat): (p: nat)
    ensures p >= 1
  {
    if k == 0 then 1 else 10 * Pow10(k - 1)
  }

  /** `%u`: the shortest decimal numeral of `n`. */
  function Render(n: nat): (s: string)
    ensures 1 <= |s| && AllDigits(s)
    ensures n > 0 ==> s[0] != '0'
  {
    if n < 10 then [DigitChar(n)] else Render(n / 10) + [DigitChar(n % 10)]
  }

  /** Reading the numeral back gives the number: rendering loses nothing. */
  lemma {:induction false} ValueOfRender(n: nat)
    ensures Value(Render(n)) == n
  {
    if n >= 10 {
      var s := Render(n);
      assert s[..|s| - 1] == Render(n / 10);
      ValueOfRender(n / 10);
    }
  }

  /** Rendering is injective, so a numeral names exactly one number. */
  lemma RenderInjective(m: nat, n: nat)
    requires Render(m) == Render(n)
    ensures m == n
  {
    ValueOfRender(m);
    ValueOfRender(n);
  }

  /** A number below 10^k takes at most k digits. */
  lemma {:induction false} RenderLength(n: nat, k: nat)
    requires 1 <= k && n < Pow10(k)
    ensures |Render(n)| <= k
  {
    if n >= 10 {
      assert n / 10 < Pow10(k - 1);
      RenderLength(n / 10, k - 1);
    }
  }

  /** A 32-bit unsigned number takes at most ten digits. */
  lemma RenderLength32(n: nat)
    requires n < 0x1_0000_0000
    ensures |Render(n)| <= 10
  {
    assert Pow10(10) == 10_000_000_000 by {
      assert Pow10(5) == 100_000;
    }
    RenderLength(n, 10);
  }
}
