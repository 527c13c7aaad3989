/** Decimal digit strings: their value, fixed-width rendering and the facts that
    tie the two together. Used by every parser and formatter of the model. */
module Digits {

  predicate IsDigit(c: char) {
    '0' <= c <= '9'
  }

  predicate AllDigits(s: string) {
    forall i :: 0 <= i < |s| ==> IsDigit(s[i])
  }

  function DigitValue(c: char): nat
    requires IsDigit(c)
  {
    c as int - '0' as int
  }

  function DigitChar(d: nat): (c: char)
    requires d < 10
    ensures IsDigit(c) && DigitValue(c) == d
  {
    ('0' as int + d) as char
  }

  function Pow10(n: nat): (p: nat)
    ensures p >= 1
  {
    if n == 0 then 1 else 10 * Pow10(n - 1)
  }

  /** The number a string of decimal digits denotes (leading zeros allowed). */
  function Value(s: string): (v: nat)
    requires AllDigits(s)
    ensures v < Pow10(|s|)
  {
    if |s| == 0 then 0 else 10 * Value(s[..|s| - 1]) + DigitValue(s[|s| - 1])
  }

  /** The last `width` decimal digits of n, zero-padded on the left
      (the .NET custom format specifiers "yyyy", "MM", "HH", "fffffff", ...). */
  function Pad(n: nat, width: nat): (r: string)
    ensures |r| == width && AllDigits(r)
    ensures n < Pow10(width) ==> Value(r) == n
  {
    if width == 0 then ""
    else
      var r := Pad(n / 10, width - 1) + [DigitChar(n % 10)];
      assert r[..width - 1] == Pad(n / 10, width - 1);
      r
  }

  /** Rendering a digit string's value back at the same width gives the string back. */
  lemma {:induction false} PadValue(s: string)
    requires AllDigits(s)
    ensures Pad(Value(s), |s|) == s
  {
    if |s| > 0 {
      var init := s[..|s| - 1];
      assert AllDigits(init);
      var v := Value(s);
      assert v / 10 == Value(init);
      assert v % 10 == DigitValue(s[|s| - 1]);
      PadValue(init);
      assert s == init + [s[|s| - 1]];
    }
  }

  /** Appending a digit shifts the value one place left. */
  lemma ValueSnoc(s: string, c: char)
    requires AllDigits(s) && IsDigit(c)
    ensures AllDigits(s + [c]) && Value(s + [c]) == 10 * Value(s) + DigitValue(c)
  {
    assert (s + [c])[..|s|] == s;
  }

  /** Two digits written after a digit string: its value shifted two places left. */
  lemma ValueAppendTwo(a: string, b: string)
    requires AllDigits(a) && AllDigits(b) && |b| == 2
    ensures AllDigits(a + b) && Value(a + b) == 100 * Value(a) + Value(b)
  {
    ValueSnoc(a, b[0]);
    ValueSnoc(a + [b[0]], b[1]);
    ValueSnoc([b[0]], b[1]);
    assert a + b == a + [b[0]] + [b[1]];
    assert b == [b[0]] + [b[1]];
    assert [b[0]][..0] == "";
  }

  /** Number of digits of n written without leading zeros. */
  function DigitCount(n: nat): (k: nat)
    ensures k >= 1 && n < Pow10(k)
  {
    if n < 10 then 1 else 1 + DigitCount(n / 10)
  }

  /** n written in decimal without leading zeros (`n.ToString()` for n >= 0). */
  function DecimalText(n: nat): (r: string)
    ensures |r| >= 1 && AllDigits(r) && Value(r) == n
  {
    var k := DigitCount(n);
    Pad(n, k)
  }
}
