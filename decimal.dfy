/** The decimal rendering a template literal gives a non-negative integer
    (`${n}`), and the reading back of the number at the head of a text, so
    that the items-left label can be shown to state its count. */
module Decimal {

  predicate IsDigit(c: char) { '0' <= c <= '9' }

  predicate AllDigits(s: string)
  {
    forall i :: 0 <= i < |s| ==> IsDigit(s[i])
  }

  function DigitChar(d: nat): (c: char)
    requires d < 10
    ensures IsDigit(c) && c as int - '0' as int == d
  {
    ('0' as int + d) as char
  }

  /** `${n}` for a non-negative integer: its digits, most significant first,
      without leading zeros. */
  function Render(n: nat): (r: string)
    ensures |r| > 0 && AllDigits(r)
    ensures |r| > 1 ==> r[0] != '0'
  {
    if n < 10 then [DigitChar(n)] else Render(n / 10) + [DigitChar(n % 10)]
  }

  /** The value of a string of decimal digits. */
  function Parse(s: string): nat
    requires AllDigits(s)
  {
    if s == [] then 0 else Parse(s[..|s| - 1]) * 10 + (s[|s| - 1] as int - '0' as int)
  }

  /** The longest run of digits at the head of `s`. */
  function LeadingDigits(s: string): (r: string)
    ensures AllDigits(r) && r <= s
  {
    if s != [] && IsDigit(s[0]) then [s[0]] + LeadingDigits(s[1..]) else []
  }

  /** The number written at the head of `s`. */
  function LeadingNumber(s: string): nat
  {
    Parse(LeadingDigits(s))
  }

  /** Reading a rendered number gives the number back. */
  lemma {:induction false} ParseRender(n: nat)
    ensures Parse(Render(n)) == n
  {
    if n >= 10 {
      ParseRender(n / 10);
      var r := Render(n);
      assert r[..|r| - 1] == Render(n / 10);
    }
  }

  /** A run of digits followed by a non-digit is read up to that non-digit. */
  lemma {:induction false} LeadingDigitsOfAppend(d: string, rest: string)
    requires AllDigits(d)
    requires rest != [] ==> !IsDigit(rest[0])
    ensures LeadingDigits(d + rest) == d
  {
    if d != [] {
      assert (d + rest)[1..] == d[1..] + rest;
      LeadingDigitsOfAppend(d[1..], rest);
    }
  }

  /** A rendered number followed by a text that starts with a non-digit
      reads back as that number. */
  lemma RenderThenText(n: nat, rest: string)
    requires rest != [] ==> !IsDigit(rest[0])
    ensures LeadingNumber(Render(n) + rest) == n
  {
    LeadingDigitsOfAppend(Render(n), rest);
    ParseRender(n);
  }
}
