/**
 * Unsigned decimal numbers: `format!("{}", n)` for a `usize` and
 * `str::parse::<usize>()`, on unbounded naturals.
 */
module Decimal {
  import opened Text
  import opened Wrappers

  predicate IsDigit(c: char)
  {
    '0' <= c <= '9'
  }

  function DigitChar(d: nat): (c: char)
    requires d < 10
    ensures IsDigit(c) && c as int - '0' as int == d
  {
    ('0' as int + d) as char
  }

  /** `format!("{}", n)`: the shortest decimal rendering of `n`. */
  function Render(n: nat): (s: string)
    ensures s != [] && forall i :: 0 <= i < |s| ==> IsDigit(s[i])
    ensures n > 0 ==> s[0] != '0'
  {
    if n < 10 then [DigitChar(n)] else Render(n / 10) + [DigitChar(n % 10)]
  }

  /** The value of a string of digits, most significant first. */
  function DigitsValue(s: string): nat
    requires forall i :: 0 <= i < |s| ==> IsDigit(s[i])
  {
    if s == [] then 0
    else
      var last := s[|s| - 1];
      assert IsDigit(last);
      DigitsValue(s[..|s| - 1]) * 10 + (last as int - '0' as int)
  }

  predicate AllDigits(s: string)
  {
    forall i :: 0 <= i < |s| ==> IsDigit(s[i])
  }

  /**
   * `str::parse::<usize>()`: an optional '+' and then at least one ASCII
   * digit, nothing else; the value is not bounded here.
   */
  function Parse(s: string): Option<nat>
  {
    var digits := if |s| > 0 && s[0] == '+' then s[1..] else s;
    if digits != [] && AllDigits(digits) then Some(DigitsValue(digits)) else None
  }

  lemma {:induction false} ValueOfRender(n: nat)
    ensures DigitsValue(Render(n)) == n
  {
    if n >= 10 {
      var s := Render(n);
      assert s[..|s| - 1] == Render(n / 10);
      ValueOfRender(n / 10);
    }
  }

  /** Parsing a rendered number gives the number back. */
  lemma ParseRender(n: nat)
    ensures Parse(Render(n)) == Some(n)
  {
    ValueOfRender(n);
  }

  /** Distinct numbers render differently. */
  lemma RenderInjective(a: nat, b: nat)
    requires Render(a) == Render(b)
    ensures a == b
  {
    ParseRender(a);
    ParseRender(b);
  }

  /** A rendering is a token: it has no whitespace and is never empty. */
  lemma RenderIsToken(n: nat)
    ensures IsToken(Render(n))
  {
  }

  /** Parse accepts exactly the optionally '+'-signed non-empty digit strings. */
  lemma ParseAccepts(s: string)
    ensures Parse(s).Some? <==>
      (s != [] && AllDigits(s)) || (|s| > 1 && s[0] == '+' && AllDigits(s[1..]))
  {
  }
}
