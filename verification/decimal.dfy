/** The `%zu` conversion `sprintf` uses to print the object length: plain
    decimal digits, no sign, no padding, no leading zeros. */
module Decimal {

  predicate IsDigit(c: char) {
    '0' <= c <= '9'
  }

  predicate AllDigits(s: seq<char>) {
    forall i :: 0 <= i < |s| ==> IsDigit(s[i])
  }

  /** A digit string as `%zu` prints it: non-empty, and no leading zero
      unless the number itself is zero. */
  predicate Canonical(s: seq<char>) {
    |s| > 0 && AllDigits(s) && (|s| == 1 || s[0] != '0')
  }

  function DigitChar(d: nat): (c: char)
    requires d < 10
    ensures IsDigit(c)
  {
    (d + '0' as int) as char
  }

  function DigitValue(c: char): (d: nat)
    requires IsDigit(c)
    ensures d < 10 && DigitChar(d) == c
  {
    c as int - '0' as int
  }

  /** How many characters `%zu` prints for `n`. */
  function NumDigits(n: nat): (k: nat)
    ensures k >= 1
  {
    if n < 10 then 1 else 1 + NumDigits(n / 10)
  }

  function Pow10(k: nat): (p: nat)
    ensures p >= 1
  {
    if k == 0 then 1 else 10 * Pow10(k - 1)
  }

  /** `n` fits in `k` printed digits exactly when it is below 10^k. */
  lemma {:induction false} NumDigitsBound(n: nat, k: nat)
    requires k >= 1
    ensures NumDigits(n) <= k <==> n < Pow10(k)
    decreases k
  {
    if k > 1 && n >= 10 {
      NumDigitsBound(n / 10, k - 1);
      var p := Pow10(k - 1);
      assert n / 10 < p <==> n < 10 * p;
    } else if n < 10 {
      assert Pow10(k) == 10 * Pow10(k - 1);
    }
  }

  /** `sprintf("%zu", n)` without its terminator. */
  function Render(n: nat): (r: seq<char>)
    ensures |r| == NumDigits(n)
    ensures Canonical(r)
  {
    if n < 10 then [DigitChar(n)] else Render(n / 10) + [DigitChar(n % 10)]
  }

  /** The value of a digit string, most significant digit first. */
  function Parse(s: seq<char>): nat
    requires AllDigits(s)
  {
    if |s| == 0 then 0 else 10 * Parse(s[..|s| - 1]) + DigitValue(s[|s| - 1])
  }

  /** Printing then reading back gives the number. */
  lemma {:induction false} ParseRender(n: nat)
    ensures Parse(Render(n)) == n
  {
    if n >= 10 {
      ParseRender(n / 10);
      assert Render(n)[..|Render(n)| - 1] == Render(n / 10);
    }
  }

  lemma {:induction false} ParsePositive(s: seq<char>)
    requires AllDigits(s) && |s| > 0 && s[0] != '0'
    ensures Parse(s) > 0
  {
    if |s| > 1 {
      ParsePositive(s[..|s| - 1]);
    }
  }

  /** Reading then printing gives back any digit string `%zu` could have
      printed, so every canonical string is the rendering of one number. */
  lemma {:induction false} RenderParse(s: seq<char>)
    requires Canonical(s)
    ensures Render(Parse(s)) == s
  {
    var init := s[..|s| - 1];
    var last := s[|s| - 1];
    if |s| > 1 {
      ParsePositive(init);
      RenderParse(init);
      var p := Parse(s);
      assert p / 10 == Parse(init) && p % 10 == DigitValue(last);
      assert s == init + [last];
    }
  }
}
