/** `String(n)` for the natural numbers the in-memory adapter's counter takes:
    canonical decimal notation, proved injective through its parser. */
module Decimal {

  predicate IsDigit(c: char) {
    '0' <= c <= '9'
  }

  predicate IsDigits(s: string) {
    forall i :: 0 <= i < |s| ==> IsDigit(s[i])
  }

  function DigitChar(d: nat): (c: char)
    requires d < 10
    ensures IsDigit(c)
  {
    (48 + d) as char
  }

  function DigitValue(c: char): (d: nat)
    requires IsDigit(c)
    ensures d < 10
  {
    c as int - 48
  }

  /** The decimal rendering of n: a non-empty string of digits with no leading zero. */
  function Render(n: nat): (r: string)
    ensures r != [] && IsDigits(r)
    ensures |r| > 1 ==> r[0] != '0'
  {
    if n < 10 then [DigitChar(n)] else Render(n / 10) + [DigitChar(n % 10)]
  }

  /** The value of a string of decimal digits (the empty string reads as 0). */
  function Parse(s: string): nat
    requires IsDigits(s)
  {
    if s == [] then 0 else Parse(s[..|s| - 1]) * 10 + DigitValue(s[|s| - 1])
  }

  /** Reading back a rendered number gives the number. */
  lemma {:induction false} ParseRender(n: nat)
    ensures Parse(Render(n)) == n
  {
    if n >= 10 {
      var r := Render(n);
      assert r[..|r| - 1] == Render(n / 10);
      ParseRender(n / 10);
    }
  }

  /** Distinct numbers render as distinct strings. */
  lemma RenderInjective(m: nat, n: nat)
    ensures Render(m) == Render(n) <==> m == n
  {
    ParseRender(m);
    ParseRender(n);
  }
}
