/**
 The C library's `atoi` (section 7.22.1.2 of ISO C): skip leading white
 space, read an optional sign, then the longest run of decimal digits; no
 digits read as 0. The result is a C `int`; a value outside its range is
 undefined behaviour, so callers must stay within `Defined`.
 */
module CAtoi {
  import Decimal

  const INT_MIN: int := -0x8000_0000
  const INT_MAX: int := 0x7FFF_FFFF

  /** `isspace` in the "C" locale. */
  predicate IsSpace(c: char) {
    c == ' ' || c == '\t' || c == '\n' || c == '\U{B}' || c == '\U{C}' || c == '\r'
  }

  /** What is left once the leading white space is skipped. */
  function SkipSpaces(s: string): (t: string)
    ensures |t| <= |s| && t == s[|s| - |t|..]
    ensures forall i :: 0 <= i < |s| - |t| ==> IsSpace(s[i])
    ensures t == [] || !IsSpace(t[0])
  {
    if s != [] && IsSpace(s[0]) then SkipSpaces(s[1..]) else s
  }

  /** The longest prefix of `s` made of decimal digits. */
  function DigitPrefix(s: string): (d: string)
    ensures d <= s && Decimal.AllDigits(d)
    ensures |d| == |s| || !Decimal.IsDigit(s[|d|])
  {
    if s != [] && Decimal.IsDigit(s[0]) then [s[0]] + DigitPrefix(s[1..]) else []
  }

  /** `atoi` over the mathematical integers. Only a minus sign right after
      the white space makes the value negative, and a nonzero value needs a
      digit somewhere in the text. */
  function Atoi(s: string): (v: int)
    ensures v < 0 ==> SkipSpaces(s) != [] && SkipSpaces(s)[0] == '-'
    ensures v != 0 ==> exists k :: 0 <= k < |s| && Decimal.IsDigit(s[k])
  {
    DigitBehindValue(s);
    Signed(SkipSpaces(s))
  }

  /** A nonzero reading comes from a digit just after the white space and sign. */
  lemma DigitBehindValue(s: string)
    ensures Signed(SkipSpaces(s)) != 0 ==> exists k :: 0 <= k < |s| && Decimal.IsDigit(s[k])
  {
    var t := SkipSpaces(s);
    var off := |s| - |t|;
    assert t == s[off..];
    if t != [] && (t[0] == '-' || t[0] == '+') {
      var d := DigitPrefix(t[1..]);
      if d != [] {
        assert d[0] == t[1..][0] == s[off + 1];
      } else {
        assert Decimal.Value(d) == 0;
      }
    } else {
      var d := DigitPrefix(t);
      if d != [] {
        assert d[0] == t[0] == s[off];
      } else {
        assert Decimal.Value(d) == 0;
      }
    }
  }

  /** An optional sign followed by the digit run that `atoi` reads. */
  function Signed(t: string): int {
    if t != [] && t[0] == '-' then -(Decimal.Value(DigitPrefix(t[1..])) as int)
    else if t != [] && t[0] == '+' then Decimal.Value(DigitPrefix(t[1..]))
    else Decimal.Value(DigitPrefix(t))
  }

  /** `atoi(s)` is defined by ISO C only when its value fits in an `int`. */
  predicate Defined(s: string) {
    INT_MIN <= Atoi(s) <= INT_MAX
  }

  predicate AllSpaces(s: string) {
    forall i :: 0 <= i < |s| ==> IsSpace(s[i])
  }

  lemma {:induction false} SkipSpacesPrefix(w: string, t: string)
    requires AllSpaces(w)
    requires t == [] || !IsSpace(t[0])
    ensures SkipSpaces(w + t) == t
  {
    if w != [] {
      assert (w + t)[1..] == w[1..] + t;
      SkipSpacesPrefix(w[1..], t);
    }
  }

  lemma {:induction false} DigitPrefixOf(d: string, rest: string)
    requires Decimal.AllDigits(d)
    requires rest == [] || !Decimal.IsDigit(rest[0])
    ensures DigitPrefix(d + rest) == d
  {
    if d != [] {
      assert (d + rest)[1..] == d[1..] + rest;
      DigitPrefixOf(d[1..], rest);
    }
  }

  /** The sign `%d` or a hand-written numeral may carry. */
  datatype Sign = Unsigned | Plus | Minus {
    function Text(): string {
      match this
      case Unsigned => ""
      case Plus => "+"
      case Minus => "-"
    }
  }

  /**
   `atoi` reads back any run of decimal digits, leading zeros included,
   whatever white space comes before it and whatever non-digit text follows.
   */
  lemma AtoiOfDigits(spaces: string, sign: Sign, d: string, rest: string)
    requires AllSpaces(spaces)
    requires d != [] && Decimal.AllDigits(d)
    requires rest == [] || !Decimal.IsDigit(rest[0])
    ensures Atoi(spaces + sign.Text() + d + rest)
            == if sign == Minus then -(Decimal.Value(d) as int) else Decimal.Value(d)
  {
    var t := sign.Text() + (d + rest);
    assert spaces + sign.Text() + d + rest == spaces + t;
    SignedOfDigits(sign, d, rest);
    AtoiAfterSpaces(spaces, t);
  }

  /** An optional sign and a digit run, read without the white space. */
  lemma SignedOfDigits(sign: Sign, d: string, rest: string)
    requires d != [] && Decimal.AllDigits(d)
    requires rest == [] || !Decimal.IsDigit(rest[0])
    ensures var t := sign.Text() + (d + rest);
            && (t == [] || !IsSpace(t[0]))
            && Signed(t) == if sign == Minus then -(Decimal.Value(d) as int) else Decimal.Value(d)
  {
    var u := d + rest;
    DigitPrefixOf(d, rest);
    assert u[0] == d[0];
    var t := sign.Text() + u;
    match sign
    case Unsigned =>
      assert t == u;
      UnsignedValue(u);
    case Plus =>
      assert t == ['+'] + u;
      assert t[1..] == u;
    case Minus =>
      assert t == ['-'] + u;
      assert t[1..] == u;
  }

  /**
   `atoi` reads back the numeral `%u` or `%d` prints, whatever white space
   comes before it and whatever non-digit text follows it.
   */
  lemma AtoiOfNumeral(spaces: string, sign: Sign, n: nat, rest: string)
    requires AllSpaces(spaces)
    requires rest == [] || !Decimal.IsDigit(rest[0])
    ensures Atoi(spaces + sign.Text() + Decimal.Render(n) + rest) == if sign == Minus then -(n as int) else n
  {
    Decimal.ValueOfRender(n);
    AtoiOfDigits(spaces, sign, Decimal.Render(n), rest);
  }

  lemma AtoiAfterSpaces(spaces: string, t: string)
    requires AllSpaces(spaces)
    requires t == [] || !IsSpace(t[0])
    ensures Atoi(spaces + t) == Signed(t)
  {
    SkipSpacesPrefix(spaces, t);
  }

  /** Text that starts with a digit is read without a sign. */
  lemma UnsignedValue(u: string)
    requires u != [] && Decimal.IsDigit(u[0])
    ensures !IsSpace(u[0])
    ensures Signed(u) == Decimal.Value(DigitPrefix(u))
  {
  }

  /** Text with no digits after the optional white space and sign reads as 0. */
  lemma AtoiNoDigits(s: string)
    requires var t := SkipSpaces(s);
             var u := if t != [] && (t[0] == '-' || t[0] == '+') then t[1..] else t;
             u == [] || !Decimal.IsDigit(u[0])
    ensures Atoi(s) == 0
  {
  }
}
