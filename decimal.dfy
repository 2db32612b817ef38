/**
 * Decimal rendering of integers, as Rust's `{}` formatting of an `i32` writes it:
 * an optional '-' followed by the digits of the magnitude, without leading zeros.
 * `Parse` is its inverse.
 */
module Decimal {

  predicate IsDigit(ch: char) {
    '0' <= ch <= '9'
  }

  function DigitChar(d: nat): (ch: char)
    requires d < 10
    ensures IsDigit(ch) && ch as int - '0' as int == d
  {
    ('0' as int + d) as char
  }

  /** Digits of a natural number, most significant first. */
  function Digits(n: nat): (s: string)
    decreases n
  {
    if n < 10 then [DigitChar(n)] else Digits(n / 10) + [DigitChar(n % 10)]
  }

  /** The text Rust's `format!("{}", n)` produces for an integer `n`. */
  function Render(n: int): string {
    if n < 0 then "-" + Digits(-n) else Digits(n)
  }

  /** Value of a string of digits, most significant first. */
  function ParseDigits(s: string): nat
    decreases |s|
  {
    if s == [] then 0
    else
      var d := s[|s| - 1] as int - '0' as int;
      ParseDigits(s[..|s| - 1]) * 10 + (if 0 <= d < 10 then d else 0)
  }

  function Parse(s: string): int {
    if |s| > 0 && s[0] == '-' then
      var magnitude: int := ParseDigits(s[1..]);
      -magnitude
    else
      ParseDigits(s)
  }

  /** Every rendering is a non-empty run of digits with no superfluous leading zero. */
  lemma {:induction false} DigitsWellFormed(n: nat)
    ensures |Digits(n)| > 0
    ensures forall k :: 0 <= k < |Digits(n)| ==> IsDigit(Digits(n)[k])
    ensures Digits(n)[0] == '0' ==> n == 0
    decreases n
  {
    if n >= 10 {
      DigitsWellFormed(n / 10);
    }
  }

  lemma {:induction false} ParseDigitsInverse(n: nat)
    ensures ParseDigits(Digits(n)) == n
    decreases n
  {
    if n >= 10 {
      var s := Digits(n);
      assert s[..|s| - 1] == Digits(n / 10);
      ParseDigitsInverse(n / 10);
    }
  }

  /** Parsing undoes rendering, for every integer. */
  lemma RenderRoundTrip(n: int)
    ensures Parse(Render(n)) == n
  {
    if n < 0 {
      DigitsWellFormed(-n);
      ParseDigitsInverse(-n);
      assert Render(n)[1..] == Digits(-n);
    } else {
      DigitsWellFormed(n);
      ParseDigitsInverse(n);
    }
  }

  /** Rendering is injective: distinct integers are written differently. */
  lemma RenderInjective(m: int, n: int)
    ensures Render(m) == Render(n) ==> m == n
  {
    RenderRoundTrip(m);
    RenderRoundTrip(n);
  }
}
