/** Decimal digit strings: the textual integers that the hour codec reads and writes. */
module Digits {

  predicate IsDigit(c: char) {
    '0' <= c <= '9'
  }

  function DigitValue(c: char): (v: nat)
    requires IsDigit(c)
    ensures v < 10
  {
    c as int - '0' as int
  }

  function DigitChar(v: nat): (c: char)
    requires v < 10
    ensures IsDigit(c) && DigitValue(c) == v
  {
    ('0' as int + v) as char
  }

  predicate AllDigits(s: string) {
    forall i :: 0 <= i < |s| ==> IsDigit(s[i])
  }

  /** The number a digit string denotes; the empty string denotes 0, as `"" * 1` does in JavaScript. */
  function DigitsValue(s: string): nat
    requires AllDigits(s)
  {
    if s == [] then 0 else DigitsValue(s[..|s| - 1]) * 10 + DigitValue(s[|s| - 1])
  }

  /** Canonical decimal text of a natural number (JavaScript's `toString` on a safe integer). */
  function NatToString(n: nat): (s: string)
    ensures AllDigits(s) && |s| > 0
    ensures DigitsValue(s) == n
    ensures s[0] == '0' ==> n == 0 && s == "0"
  {
    if n < 10 then [DigitChar(n)]
    else
      var s := NatToString(n / 10) + [DigitChar(n % 10)];
      assert s[..|s| - 1] == NatToString(n / 10);
      s
  }

  /** A character's value where JavaScript compares it against a number from 1 to 9:
      a digit is its value; any other character is either NaN or 0 under `Number`,
      and both fail every comparison `>= k` with k >= 1, so 0 stands for them. */
  function DigitOrZero(c: char): (v: nat)
    ensures v < 10
    ensures IsDigit(c) ==> v == DigitValue(c)
  {
    if IsDigit(c) then DigitValue(c) else 0
  }

  lemma {:induction false} DigitsValueAppend(s: string, c: char)
    requires AllDigits(s) && IsDigit(c)
    ensures AllDigits(s + [c]) && DigitsValue(s + [c]) == DigitsValue(s) * 10 + DigitValue(c)
  {
    assert (s + [c])[..|s + [c]| - 1] == s;
  }

  function Pow10(k: nat): (p: nat)
    ensures p >= 1
  {
    if k == 0 then 1 else 10 * Pow10(k - 1)
  }

  /** `n` written with exactly `width` digits, zero-padded on the left (moment's `YYYY`, `MM`, `DD`). */
  function FixedDigits(n: nat, width: nat): (s: string)
    requires n < Pow10(width)
    ensures |s| == width && AllDigits(s)
    ensures DigitsValue(s) == n
  {
    if width == 0 then []
    else
      var s := FixedDigits(n / 10, width - 1) + [DigitChar(n % 10)];
      assert s[..|s| - 1] == FixedDigits(n / 10, width - 1);
      s
  }

  /** Reading a fixed-width digit string and writing it back with the same width gives it back. */
  lemma {:induction false} FixedDigitsValue(t: string)
    requires AllDigits(t)
    ensures DigitsValue(t) < Pow10(|t|)
    ensures FixedDigits(DigitsValue(t), |t|) == t
  {
    if t != [] {
      var init, c := t[..|t| - 1], t[|t| - 1];
      FixedDigitsValue(init);
      var n := DigitsValue(t);
      assert n == DigitsValue(init) * 10 + DigitValue(c);
      assert n / 10 == DigitsValue(init) && n % 10 == DigitValue(c);
      assert DigitChar(DigitValue(c)) == c;
      assert t == init + [c];
    }
  }
}
