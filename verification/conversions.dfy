/** The three .NET base-library conversions the row mapper relies on, over the
    invariant culture: `Convert.ToInt64(string)`, `Convert.ToDecimal(string)` and
    `Convert.ToBoolean(string)`. Each throws on malformed text; the exception is the
    `Failure` of a `Result`. A null argument is `None` and converts to the type's
    default instead of throwing. */
module Conversions {
  import opened Wrappers
  import opened Digits

  /** The two exceptions the conversions throw. */
  datatype Cause = FormatError | OverflowError

  const Int64Min: int := -0x8000_0000_0000_0000
  const Int64Max: int := 0x7FFF_FFFF_FFFF_FFFF

  predicate InInt64(n: int) {
    Int64Min <= n <= Int64Max
  }

  // ---------------------------------------------------------------------------
  // Trimming

  /** Drops the longest prefix of characters satisfying `white`. */
  function TrimStart(s: string, white: char -> bool): (r: string)
    ensures |r| <= |s| && r == s[|s| - |r|..]
    ensures |r| > 0 ==> !white(r[0])
    ensures forall i :: 0 <= i < |s| - |r| ==> white(s[i])
  {
    if |s| > 0 && white(s[0]) then
      var r := TrimStart(s[1..], white);
      assert forall i :: 1 <= i < |s| - |r| ==> s[i] == s[1..][i - 1];
      r
    else s
  }

  /** Drops the longest suffix of characters satisfying `white`. */
  function TrimEnd(s: string, white: char -> bool): (r: string)
    ensures |r| <= |s| && r == s[..|r|]
    ensures |r| > 0 ==> !white(r[|r| - 1])
    ensures forall i :: |r| <= i < |s| ==> white(s[i])
  {
    if |s| > 0 && white(s[|s| - 1]) then
      var r := TrimEnd(s[..|s| - 1], white);
      assert forall i :: |r| <= i < |s| - 1 ==> s[i] == s[..|s| - 1][i];
      r
    else s
  }

  function Trim(s: string, white: char -> bool): string {
    TrimEnd(TrimStart(s, white), white)
  }

  predicate AllSatisfy(s: string, p: char -> bool) {
    forall i :: 0 <= i < |s| ==> p(s[i])
  }

  lemma {:induction false} TrimStartPadded(pre: string, s: string, white: char -> bool)
    requires AllSatisfy(pre, white)
    requires |s| > 0 && !white(s[0])
    ensures TrimStart(pre + s, white) == s
  {
    if |pre| > 0 {
      assert (pre + s)[1..] == pre[1..] + s;
      TrimStartPadded(pre[1..], s, white);
    }
  }

  lemma {:induction false} TrimEndPadded(s: string, post: string, white: char -> bool)
    requires AllSatisfy(post, white)
    requires |s| > 0 && !white(s[|s| - 1])
    ensures TrimEnd(s + post, white) == s
  {
    if |post| > 0 {
      assert (s + post)[..|s + post| - 1] == s + post[..|post| - 1];
      TrimEndPadded(s, post[..|post| - 1], white);
    }
  }

  /** Trimming removes exactly the white padding around a text whose ends are not white. */
  lemma TrimPadded(pre: string, s: string, post: string, white: char -> bool)
    requires AllSatisfy(pre, white) && AllSatisfy(post, white)
    requires |s| > 0 && !white(s[0]) && !white(s[|s| - 1])
    ensures Trim(pre + s + post, white) == s
  {
    assert pre + s + post == pre + (s + post);
    TrimStartPadded(pre, s + post, white);
    TrimEndPadded(s, post, white);
  }

  // ---------------------------------------------------------------------------
  // Numbers (NumberStyles.Integer and NumberStyles.Number, invariant culture)

  /** White space the number parser skips around a number: space and U+0009..U+000D. */
  predicate IsNumberWhite(c: char) {
    c == ' ' || '\t' <= c <= '\r'
  }

  predicate IsNull(c: char) {
    c == '\0'
  }

  /** The text the number parser reads a number from: trailing NUL characters are
      accepted after the number and its trailing white space, so they are dropped
      first, then the white space on both sides. */
  function NumberText(s: string): string {
    Trim(TrimEnd(s, IsNull), IsNumberWhite)
  }

  /** Splits an optional leading sign off: (is it negative, the rest). */
  function SplitSign(t: string): (bool, string) {
    if |t| > 0 && (t[0] == '-' || t[0] == '+') then (t[0] == '-', t[1..]) else (false, t)
  }

  function Signed(negative: bool, magnitude: int): int {
    if negative then -magnitude else magnitude
  }

  /** `Int64.Parse(s)`: optional white, optional sign, at least one digit, optional
      white, optional NULs. Malformed text is a FormatError; well-formed text outside the 64-bit
      range is an OverflowError. */
  function ParseInt64(s: string): (r: Result<int, Cause>)
    ensures r.Success? ==> InInt64(r.value)
  {
    var (negative, body) := SplitSign(NumberText(s));
    if |body| >= 1 && AllDigits(body) then
      var n := Signed(negative, Value(body));
      if InInt64(n) then Success(n) else Failure(OverflowError)
    else
      Failure(FormatError)
  }

  /** `Convert.ToInt64(string)`: null converts to 0, anything else is parsed. */
  function ToInt64(cell: Option<string>): (r: Result<int, Cause>)
    ensures cell.None? ==> r == Success(0)
    ensures r.Success? ==> InInt64(r.value)
  {
    match cell
    case None => Success(0)
    case Some(s) => ParseInt64(s)
  }

  /** `n.ToString()` for a 64-bit integer. */
  function Int64Text(n: int): string {
    (if n < 0 then "-" else "") + DecimalText(if n < 0 then -n else n)
  }

  /** A text that neither starts with white space nor ends with white space or NUL is
      read whole. */
  lemma TrimNumberText(s: string)
    requires |s| > 0 && !IsNumberWhite(s[0]) && !IsNumberWhite(s[|s| - 1]) && !IsNull(s[|s| - 1])
    ensures NumberText(s) == s
  {
    assert s + "" == s;
    TrimEndPadded(s, "", IsNull);
    assert "" + s + "" == s;
    TrimPadded("", s, "", IsNumberWhite);
  }

  /** Number white space before and after a number, and NULs after that, are skipped. */
  lemma NumberTextPadded(pre: string, s: string, post: string, nuls: string)
    requires AllSatisfy(pre, IsNumberWhite) && AllSatisfy(post, IsNumberWhite) && AllSatisfy(nuls, IsNull)
    requires |s| > 0 && !IsNumberWhite(s[0]) && !IsNumberWhite(s[|s| - 1]) && !IsNull(s[|s| - 1])
    ensures NumberText(pre + s + post + nuls) == s
  {
    var padded := pre + s + post;
    assert padded[|padded| - 1] == if |post| > 0 then post[|post| - 1] else s[|s| - 1];
    TrimEndPadded(padded, nuls, IsNull);
    TrimPadded(pre, s, post, IsNumberWhite);
  }

  /** Both number parsers read a padded text as the bare one. */
  lemma PaddingSkipped(pre: string, s: string, post: string, nuls: string)
    requires AllSatisfy(pre, IsNumberWhite) && AllSatisfy(post, IsNumberWhite) && AllSatisfy(nuls, IsNull)
    requires |s| > 0 && !IsNumberWhite(s[0]) && !IsNumberWhite(s[|s| - 1]) && !IsNull(s[|s| - 1])
    ensures ParseInt64(pre + s + post + nuls) == ParseInt64(s)
    ensures ParseDecimal(pre + s + post + nuls) == ParseDecimal(s)
  {
    NumberTextPadded(pre, s, post, nuls);
    TrimNumberText(s);
  }

  /** A text that starts and ends with a digit, with an optional minus sign in front,
      is untouched by trimming and splits into that sign and the text. */
  lemma SignedTextParts(negative: bool, body: string)
    requires |body| > 0 && IsDigit(body[0]) && IsDigit(body[|body| - 1])
    ensures SplitSign(NumberText((if negative then "-" else "") + body)) == (negative, body)
  {
    var t := (if negative then "-" else "") + body;
    assert NumberText(t) == t by {
      assert t[0] == (if negative then '-' else body[0]);
      assert t[|t| - 1] == body[|body| - 1];
      TrimNumberText(t);
    }
    if negative {
      assert t[0] == '-' && t[1..] == body;
    } else {
      assert t == body;
    }
  }

  /** The sign and digits of an integer's decimal text, read back, give the integer. */
  lemma Int64TextParts(n: int)
    ensures SplitSign(NumberText(Int64Text(n))) == (n < 0, DecimalText(if n < 0 then -n else n))
  {
    SignedTextParts(n < 0, DecimalText(if n < 0 then -n else n));
  }

  /** Every 64-bit integer's decimal text parses back to it. */
  lemma Int64RoundTrip(n: int)
    requires InInt64(n)
    ensures ParseInt64(Int64Text(n)) == Success(n)
  {
    Int64TextParts(n);
  }

  /** The decimal text of an integer outside the 64-bit range overflows. */
  lemma Int64TextOverflows(n: int)
    requires !InInt64(n)
    ensures ParseInt64(Int64Text(n)) == Failure(OverflowError)
  {
    Int64TextParts(n);
  }

  /** The converse of `Int64RoundTrip` and `Int64TextOverflows`: text `Int64.Parse`
      does not reject as malformed is white space, an optional sign, digits, white
      space and NULs, and it parses to the signed value of the digits when that fits
      in 64 bits and overflows otherwise. */
  lemma Int64WellFormedText(s: string) returns (pre: string, sign: string, digits: string, post: string, nuls: string)
    requires ParseInt64(s) != Failure(FormatError)
    ensures s == pre + sign + digits + post + nuls
    ensures AllSatisfy(pre, IsNumberWhite) && AllSatisfy(post, IsNumberWhite) && AllSatisfy(nuls, IsNull)
    ensures sign == "" || sign == "-" || sign == "+"
    ensures |digits| > 0 && AllDigits(digits)
    ensures var n := Signed(sign == "-", Value(digits));
      ParseInt64(s) == if InInt64(n) then Success(n) else Failure(OverflowError)
  {
    var t := NumberText(s);
    pre, post, nuls := NumberTextSplits(s);
    sign := SignSplits(t);
    digits := SplitSign(t).1;
    SplitsRegroup(s, pre, t, sign, digits, post, nuls);
  }

  /** The number text sits between white space on the left and white space and NULs
      on the right. */
  lemma NumberTextSplits(s: string) returns (pre: string, post: string, nuls: string)
    ensures s == pre + NumberText(s) + post + nuls
    ensures AllSatisfy(pre, IsNumberWhite) && AllSatisfy(post, IsNumberWhite) && AllSatisfy(nuls, IsNull)
  {
    nuls := TrimEndSplits(s, IsNull);
    pre, post := TrimSplits(TrimEnd(s, IsNull), IsNumberWhite);
  }

  /** What `SplitSign` drops is the empty text or one sign. */
  lemma SignSplits(t: string) returns (sign: string)
    ensures t == sign + SplitSign(t).1
    ensures sign == "" || sign == "-" || sign == "+"
    ensures SplitSign(t).0 == (sign == "-")
  {
    if |t| > 0 && (t[0] == '-' || t[0] == '+') {
      sign := t[..1];
      assert t == t[..1] + t[1..];
    } else {
      sign := "";
      assert t == "" + t;
    }
  }

  lemma SplitsRegroup(s: string, pre: string, t: string, sign: string, digits: string, post: string, nuls: string)
    requires s == pre + t + post + nuls && t == sign + digits
    ensures s == pre + sign + digits + post + nuls
  {
    assert pre + (sign + digits) == pre + sign + digits;
  }

  /** A signed body between number padding reads as that sign and body. */
  lemma SignedTextNumber(pre: string, sign: string, body: string, post: string, nuls: string)
    requires AllSatisfy(pre, IsNumberWhite) && AllSatisfy(post, IsNumberWhite) && AllSatisfy(nuls, IsNull)
    requires sign == "" || sign == "-" || sign == "+"
    requires |body| > 0 && (IsDigit(body[0]) || body[0] == '.')
    requires IsDigit(body[|body| - 1]) || body[|body| - 1] == '.'
    ensures SplitSign(NumberText(pre + sign + body + post + nuls)) == (sign == "-", body)
  {
    SignedBodyEnds(sign, body);
    NumberTextPadded(pre, sign + body, post, nuls);
    Regroup5(pre, sign, body, post, nuls);
    SplitSignOf(sign, body);
  }

  lemma SignedBodyEnds(sign: string, body: string)
    requires sign == "" || sign == "-" || sign == "+"
    requires |body| > 0 && (IsDigit(body[0]) || body[0] == '.')
    requires IsDigit(body[|body| - 1]) || body[|body| - 1] == '.'
    ensures var t := sign + body;
      |t| > 0 && !IsNumberWhite(t[0]) && !IsNumberWhite(t[|t| - 1]) && !IsNull(t[|t| - 1])
  {
    var t := sign + body;
    assert t[0] == if sign == "" then body[0] else sign[0];
    assert t[|t| - 1] == body[|body| - 1];
  }

  lemma Regroup5(a: string, b: string, c: string, d: string, e: string)
    ensures a + (b + c) + d + e == a + b + c + d + e
  {
  }

  lemma SplitSignOf(sign: string, body: string)
    requires sign == "" || sign == "-" || sign == "+"
    requires |body| > 0 && (IsDigit(body[0]) || body[0] == '.')
    ensures SplitSign(sign + body) == (sign == "-", body)
  {
    if sign != "" {
      assert (sign + body)[1..] == body;
    } else {
      assert sign + body == body;
    }
  }

  /** The converse of `Int64WellFormedText`: white space, an optional sign, digits,
      white space and NULs parse to the signed value of the digits when it fits in 64
      bits and overflow otherwise; "+5" and "007" are read like "5" and "7". */
  lemma Int64GrammarAccepted(pre: string, sign: string, digits: string, post: string, nuls: string)
    requires AllSatisfy(pre, IsNumberWhite) && AllSatisfy(post, IsNumberWhite) && AllSatisfy(nuls, IsNull)
    requires sign == "" || sign == "-" || sign == "+"
    requires |digits| > 0 && AllDigits(digits)
    ensures var n := Signed(sign == "-", Value(digits));
      ParseInt64(pre + sign + digits + post + nuls) == if InInt64(n) then Success(n) else Failure(OverflowError)
  {
    SignedTextNumber(pre, sign, digits, post, nuls);
  }

  /** Characters that can occur in text `ParseInt64` does not reject as malformed. */
  predicate IsInt64Char(c: char) {
    IsNumberWhite(c) || IsNull(c) || IsDigit(c) || c == '+' || c == '-'
  }

  lemma WellFormedInt64Chars(s: string)
    requires ParseInt64(s) != Failure(FormatError)
    ensures AllSatisfy(s, IsInt64Char)
  {
    var pre, sign, digits, post, nuls := Int64WellFormedText(s);
    var a := pre + sign;
    var b := a + digits;
    var c := b + post;
    assert s == c + nuls;
    forall j | 0 <= j < |s|
      ensures IsInt64Char(s[j])
    {
      if j < |pre| {
        assert s[j] == pre[j];
      } else if j < |a| {
        assert s[j] == sign[j - |pre|];
      } else if j < |b| {
        assert s[j] == digits[j - |a|];
      } else if j < |c| {
        assert s[j] == post[j - |b|];
      } else {
        assert s[j] == nuls[j - |c|];
      }
    }
  }

  /** Text holding any character other than white space, NUL, a sign or a digit, such
      as a letter or the point, is rejected as malformed. */
  lemma Int64NonNumericTextFails(s: string, i: nat)
    requires i < |s| && !IsInt64Char(s[i])
    ensures ParseInt64(s) == Failure(FormatError)
  {
    if ParseInt64(s) != Failure(FormatError) {
      WellFormedInt64Chars(s);
    }
  }

  /** Position of the first `c` in s, or |s| when there is none. */
  function IndexOf(s: string, c: char): (k: nat)
    ensures k <= |s|
    ensures k < |s| ==> s[k] == c
    ensures forall i :: 0 <= i < k ==> s[i] != c
  {
    if |s| == 0 then 0
    else if s[0] == c then 0
    else 1 + IndexOf(s[1..], c)
  }

  /** In "digits.rest" the first '.' follows the digits. */
  lemma PointSplit(d: string, p: string)
    requires AllDigits(d)
    ensures var body := d + "." + p; IndexOf(body, '.') == |d| && body[..|d|] == d && body[|d| + 1..] == p
  {
    var body := d + "." + p;
    assert body[..|d|] == d;
    assert body[|d| + 1..] == p;
    assert body[|d|] == '.';
  }

  /** `System.Decimal` without its 96-bit bound: an integer coefficient scaled down by
      `scale` powers of ten. Parsing keeps trailing zeros, so "1.50" has coefficient
      150 and scale 2. */
  datatype Decimal = Decimal(coefficient: int, scale: nat)

  /** The number a decimal denotes. */
  function DecimalValue(d: Decimal): real {
    d.coefficient as real / Pow10(d.scale) as real
  }

  /** Multiplying the coefficient by 100 at the same scale multiplies the value by 100. */
  lemma ScaledByHundred(c: int, scale: nat)
    ensures DecimalValue(Decimal(100 * c, scale)) == 100.0 * DecimalValue(Decimal(c, scale))
  {
    var p := Pow10(scale) as real;
    var q := c as real / p;
    assert q * p == c as real;
    assert (100.0 * q) * p == (100 * c) as real;
  }

  /** An unsigned decimal: digit* [. digit*] with at least one digit; the value is
      the digits read without the point, scaled by the number after it. */
  function UnsignedDecimal(body: string): (r: Option<Decimal>)
    ensures r.Some? ==> r.value.coefficient >= 0
  {
    var k := IndexOf(body, '.');
    var whole := body[..k];
    var frac := if k < |body| then body[k + 1..] else "";
    if AllDigits(whole) && AllDigits(frac) && |whole| + |frac| >= 1 then
      assert AllDigits(whole + frac) by {
        assert forall i :: 0 <= i < |whole + frac| ==> (whole + frac)[i] == if i < |whole| then whole[i] else frac[i - |whole|];
      }
      Some(Decimal(Value(whole + frac), |frac|))
    else None
  }

  /** "whole.frac" with digits on both sides reads as the digits of whole and frac run
      together, at scale |frac|. */
  lemma UnsignedDecimalWithPoint(whole: string, frac: string)
    requires AllDigits(whole) && AllDigits(frac) && |whole| + |frac| >= 1
    ensures AllDigits(whole + frac) && UnsignedDecimal(whole + "." + frac) == Some(Decimal(Value(whole + frac), |frac|))
  {
    PointSplit(whole, frac);
    assert forall i :: 0 <= i < |whole + frac| ==> (whole + frac)[i] == if i < |whole| then whole[i] else frac[i - |whole|];
  }

  /** "whole.cc" with two digits after the point is 100 * whole + cc hundredths. */
  lemma UnsignedDecimalTwoPlaces(whole: string, frac: string, v: int)
    requires AllDigits(whole) && AllDigits(frac) && |frac| == 2
    requires v == 100 * Value(whole) + Value(frac)
    ensures UnsignedDecimal(whole + "." + frac) == Some(Decimal(v, 2))
  {
    ValueAppendTwo(whole, frac);
    assert Value(whole + frac) == v;
    UnsignedDecimalWithPoint(whole, frac);
  }

  /** `Decimal.Parse(s)` restricted to the grammar
      white* [+|-] digit* [. digit*] white* NUL*  with at least one digit. */
  function ParseDecimal(s: string): (r: Result<Decimal, Cause>)
    ensures r.Failure? ==> r.error == FormatError
  {
    var (negative, body) := SplitSign(NumberText(s));
    match UnsignedDecimal(body)
    case Some(magnitude) => Success(Decimal(Signed(negative, magnitude.coefficient), magnitude.scale))
    case None => Failure(FormatError)
  }

  /** A digit-led, digit-ended body with an optional minus sign in front parses as the
      body's value, negated for the minus sign. */
  lemma ParseSignedDecimal(negative: bool, body: string, d: Decimal)
    requires |body| > 0 && IsDigit(body[0]) && IsDigit(body[|body| - 1])
    requires UnsignedDecimal(body) == Some(d)
    ensures ParseDecimal((if negative then "-" else "") + body) == Success(Decimal(Signed(negative, d.coefficient), d.scale))
  {
    SignedTextParts(negative, body);
  }

  /** Digits hold no point. */
  lemma IndexOfDigits(s: string)
    requires AllDigits(s)
    ensures IndexOf(s, '.') == |s|
  {
  }

  /** An accepted unsigned body is digits, an optional point, and digits, with at
      least one digit, and no fraction digits without the point. */
  lemma UnsignedDecimalSplits(body: string) returns (whole: string, point: string, frac: string)
    requires UnsignedDecimal(body).Some?
    ensures body == whole + point + frac
    ensures point == "" || point == "."
    ensures point == "" ==> frac == ""
    ensures AllDigits(whole) && AllDigits(frac) && |whole| + |frac| >= 1
    ensures UnsignedDecimal(body) == Some(Decimal(Value(whole + frac), |frac|))
  {
    var k := IndexOf(body, '.');
    whole := body[..k];
    if k < |body| {
      point := ".";
      frac := body[k + 1..];
      assert body == body[..k] + [body[k]] + body[k + 1..];
    } else {
      point := "";
      frac := "";
      assert body == whole + "" + "";
    }
  }

  /** Every accepted unsigned body shape is accepted: digits, an optional point and
      digits, with at least one digit. */
  lemma UnsignedDecimalAccepted(whole: string, point: string, frac: string)
    requires point == "" || point == "."
    requires point == "" ==> frac == ""
    requires AllDigits(whole) && AllDigits(frac) && |whole| + |frac| >= 1
    ensures AllDigits(whole + frac)
    ensures UnsignedDecimal(whole + point + frac) == Some(Decimal(Value(whole + frac), |frac|))
  {
    if point == "." {
      UnsignedDecimalWithPoint(whole, frac);
    } else {
      assert whole + point + frac == whole && whole + frac == whole;
      IndexOfDigits(whole);
      assert whole[..|whole|] == whole;
    }
  }

  /** The grammar of `ParseDecimal`, accepting direction: white space, an optional
      sign, digits, an optional point and digits (at least one digit in all), white
      space and NULs parse to the digits' signed value at a scale equal to the number
      of fraction digits. This covers "+1.5", "-.5" and "5." as well. */
  lemma DecimalGrammarAccepted(pre: string, sign: string, whole: string, point: string, frac: string, post: string, nuls: string)
    requires AllSatisfy(pre, IsNumberWhite) && AllSatisfy(post, IsNumberWhite) && AllSatisfy(nuls, IsNull)
    requires sign == "" || sign == "-" || sign == "+"
    requires point == "" || point == "."
    requires point == "" ==> frac == ""
    requires AllDigits(whole) && AllDigits(frac) && |whole| + |frac| >= 1
    ensures AllDigits(whole + frac)
    ensures ParseDecimal(pre + sign + whole + point + frac + post + nuls)
         == Success(Decimal(Signed(sign == "-", Value(whole + frac)), |frac|))
  {
    var body := whole + point + frac;
    UnsignedDecimalAccepted(whole, point, frac);
    DecimalBodyEnds(whole, point, frac);
    SignedTextNumber(pre, sign, body, post, nuls);
    Regroup7(pre, sign, whole, point, frac, post, nuls);
    ParseDecimalOfParts(pre + sign + whole + point + frac + post + nuls, sign == "-", body);
  }

  /** The converse of `DecimalGrammarAccepted`: every accepted text has that shape and
      that value, so "-", ".", "1.2.3", "1 2" and "+-5" are all rejected. */
  lemma DecimalWellFormedText(s: string) returns (pre: string, sign: string, whole: string, point: string, frac: string, post: string, nuls: string)
    requires ParseDecimal(s).Success?
    ensures s == pre + sign + whole + point + frac + post + nuls
    ensures AllSatisfy(pre, IsNumberWhite) && AllSatisfy(post, IsNumberWhite) && AllSatisfy(nuls, IsNull)
    ensures sign == "" || sign == "-" || sign == "+"
    ensures point == "" || point == "."
    ensures point == "" ==> frac == ""
    ensures AllDigits(whole) && AllDigits(frac) && |whole| + |frac| >= 1
    ensures ParseDecimal(s).value == Decimal(Signed(sign == "-", Value(whole + frac)), |frac|)
  {
    var t := NumberText(s);
    pre, post, nuls := NumberTextSplits(s);
    sign := SignSplits(t);
    var body := SplitSign(t).1;
    ParseDecimalOfParts(s, sign == "-", body);
    whole, point, frac := UnsignedDecimalSplits(body);
    SplitsRegroup(s, pre, t, sign, body, post, nuls);
    Regroup7(pre, sign, whole, point, frac, post, nuls);
  }

  /** A decimal body that is digits, an optional point and digits starts and ends with
      a digit or the point. */
  lemma DecimalBodyEnds(whole: string, point: string, frac: string)
    requires point == "" || point == "."
    requires AllDigits(whole) && AllDigits(frac) && |whole| + |point| + |frac| >= 1
    ensures var body := whole + point + frac;
      |body| > 0 && (IsDigit(body[0]) || body[0] == '.') && (IsDigit(body[|body| - 1]) || body[|body| - 1] == '.')
  {
    var body := whole + point + frac;
    assert body[0] == if |whole| > 0 then whole[0] else if point != "" then '.' else frac[0];
    assert body[|body| - 1] == if |frac| > 0 then frac[|frac| - 1] else if point != "" then '.' else whole[|whole| - 1];
  }

  lemma Regroup7(a: string, b: string, c: string, d: string, e: string, f: string, g: string)
    ensures a + b + (c + d + e) + f + g == a + b + c + d + e + f + g
  {
  }

  /** `ParseDecimal` reads its sign and unsigned body off the number text. */
  lemma ParseDecimalOfParts(s: string, negative: bool, body: string)
    requires SplitSign(NumberText(s)) == (negative, body)
    ensures ParseDecimal(s).Success? <==> UnsignedDecimal(body).Some?
    ensures UnsignedDecimal(body).Some? ==>
              ParseDecimal(s).value == Decimal(Signed(negative, UnsignedDecimal(body).value.coefficient), UnsignedDecimal(body).value.scale)
  {
  }

  /** Characters that can occur in text `ParseDecimal` accepts. */
  predicate IsDecimalChar(c: char) {
    IsNumberWhite(c) || IsNull(c) || IsDigit(c) || c == '+' || c == '-' || c == '.'
  }

  /** An accepted unsigned body holds only digits and the point. */
  lemma UnsignedDecimalChars(body: string)
    requires UnsignedDecimal(body).Some?
    ensures AllSatisfy(body, IsDecimalChar)
  {
    var k := IndexOf(body, '.');
    var whole := body[..k];
    var frac := if k < |body| then body[k + 1..] else "";
    assert AllDigits(whole) && AllDigits(frac);
    forall j | 0 <= j < |body|
      ensures IsDecimalChar(body[j])
    {
      if j < k {
        assert whole[j] == body[j];
      } else if j > k {
        assert frac[j - k - 1] == body[j];
      }
    }
  }

  /** Splitting off a sign removes at most a sign character. */
  lemma SplitSignChars(t: string)
    requires AllSatisfy(SplitSign(t).1, IsDecimalChar)
    ensures AllSatisfy(t, IsDecimalChar)
  {
    if |t| > 0 && (t[0] == '-' || t[0] == '+') {
      assert forall j :: 1 <= j < |t| ==> t[j] == t[1..][j - 1];
    }
  }

  /** Trimming the start removes only number white space. */
  lemma TrimStartChars(s: string)
    requires AllSatisfy(TrimStart(s, IsNumberWhite), IsDecimalChar)
    ensures AllSatisfy(s, IsDecimalChar)
  {
    var a := TrimStart(s, IsNumberWhite);
    var lead := |s| - |a|;
    forall j | lead <= j < |s|
      ensures IsDecimalChar(s[j])
    {
      assert s[j] == s[lead..][j - lead];
    }
  }

  /** Trimming the end removes only characters that may occur in a number's text. */
  lemma TrimEndChars(s: string, white: char -> bool)
    requires forall c :: white(c) ==> IsDecimalChar(c)
    requires AllSatisfy(TrimEnd(s, white), IsDecimalChar)
    ensures AllSatisfy(s, IsDecimalChar)
  {
    var t := TrimEnd(s, white);
    forall j | 0 <= j < |t|
      ensures IsDecimalChar(s[j])
    {
      assert s[j] == s[..|t|][j];
    }
  }

  /** Every character of an accepted text is white space, NUL, a sign, a digit or the point. */
  lemma AcceptedDecimalChars(s: string)
    requires ParseDecimal(s).Success?
    ensures AllSatisfy(s, IsDecimalChar)
  {
    var u := TrimEnd(s, IsNull);
    var t := Trim(u, IsNumberWhite);
    UnsignedDecimalChars(SplitSign(t).1);
    SplitSignChars(t);
    TrimEndChars(TrimStart(u, IsNumberWhite), IsNumberWhite);
    TrimStartChars(u);
    TrimEndChars(s, IsNull);
  }

  /** Text holding any other character, such as a letter, is rejected. */
  lemma NonNumericTextFails(s: string, i: nat)
    requires i < |s| && !IsDecimalChar(s[i])
    ensures ParseDecimal(s) == Failure(FormatError)
  {
    if ParseDecimal(s).Success? {
      AcceptedDecimalChars(s);
    }
  }

  // ---------------------------------------------------------------------------
  // Booleans (Boolean.Parse)

  /** `Char.IsWhiteSpace`. */
  predicate IsWhiteSpace(c: char) {
    || c == ' ' || '\t' <= c <= '\r' || c == '\U{0085}' || c == '\U{00A0}' || c == '\U{1680}'
    || '\U{2000}' <= c <= '\U{200A}' || c == '\U{2028}' || c == '\U{2029}'
    || c == '\U{202F}' || c == '\U{205F}' || c == '\U{3000}'
  }

  /** What `Boolean.Parse` trims before comparing: white space and NUL. */
  predicate IsWhiteOrNull(c: char) {
    IsWhiteSpace(c) || c == '\0'
  }

  function AsciiUpper(c: char): char {
    if 'a' <= c <= 'z' then (c as int - 32) as char else c
  }

  /** Ordinal comparison ignoring the case of ASCII letters. */
  predicate EqualsIgnoreCase(a: string, b: string) {
    |a| == |b| && forall i :: 0 <= i < |a| ==> AsciiUpper(a[i]) == AsciiUpper(b[i])
  }

  /** `bool.ToString()`. */
  function BoolText(b: bool): string {
    if b then "True" else "False"
  }

  /** `Boolean.Parse(s)`: "true" or "false" in any letter case, with white space and
      NUL allowed around it; anything else is a FormatError. */
  function ParseBoolean(s: string): (r: Result<bool, Cause>)
    ensures r.Failure? ==> r.error == FormatError
  {
    var t := Trim(s, IsWhiteOrNull);
    if EqualsIgnoreCase(t, "true") then Success(true)
    else if EqualsIgnoreCase(t, "false") then Success(false)
    else Failure(FormatError)
  }

  /** `Convert.ToBoolean(string)`: null converts to false, anything else is parsed. */
  function ToBoolean(cell: Option<string>): (r: Result<bool, Cause>)
    ensures cell.None? ==> r == Success(false)
  {
    match cell
    case None => Success(false)
    case Some(s) => ParseBoolean(s)
  }

  /** A character whose upper case is a letter is that letter in one case or the other. */
  lemma UpperOfLetter(c: char, letter: char)
    requires 'A' <= letter <= 'Z' && AsciiUpper(c) == letter
    ensures c == letter || c as int == letter as int + 32
  {
  }

  lemma EqualsIgnoreCaseTrans(a: string, b: string, c: string)
    requires EqualsIgnoreCase(a, b) && EqualsIgnoreCase(b, c)
    ensures EqualsIgnoreCase(a, c)
  {
  }

  /** A casing of "True"/"False" starts and ends with a letter. */
  lemma BoolWordEnds(b: bool, t: string)
    requires EqualsIgnoreCase(t, BoolText(b))
    ensures |t| > 0 && !IsWhiteOrNull(t[0]) && !IsWhiteOrNull(t[|t| - 1])
  {
    var w := BoolText(b);
    assert AsciiUpper(t[0]) == AsciiUpper(w[0]);
    assert AsciiUpper(t[|t| - 1]) == AsciiUpper(w[|w| - 1]) == 'E';
    UpperOfLetter(t[0], if b then 'T' else 'F');
    UpperOfLetter(t[|t| - 1], 'E');
  }

  /** A casing of "True"/"False" is recognised as the word it is a casing of. */
  lemma BoolWordCase(b: bool, t: string)
    requires EqualsIgnoreCase(t, BoolText(b))
    ensures EqualsIgnoreCase(t, "true") <==> b
    ensures !b ==> EqualsIgnoreCase(t, "false")
  {
    var w := BoolText(b);
    if b {
      assert EqualsIgnoreCase(w, "true");
      EqualsIgnoreCaseTrans(t, w, "true");
    } else {
      assert EqualsIgnoreCase(w, "false");
      EqualsIgnoreCaseTrans(t, w, "false");
      assert |t| == 5;
    }
  }

  /** Any casing of "True"/"False", padded with white space or NUL, parses to its value. */
  lemma BooleanAcceptsPaddedAnyCase(b: bool, t: string, pre: string, post: string)
    requires EqualsIgnoreCase(t, BoolText(b))
    requires AllSatisfy(pre, IsWhiteOrNull) && AllSatisfy(post, IsWhiteOrNull)
    ensures ParseBoolean(pre + t + post) == Success(b)
  {
    BoolWordEnds(b, t);
    TrimPadded(pre, t, post, IsWhiteOrNull);
    BoolWordCase(b, t);
  }

  /** Only the two words parse: a trimmed text that is neither is rejected. */
  lemma BooleanRejectsOtherWords(s: string)
    requires |s| > 0 && !IsWhiteOrNull(s[0]) && !IsWhiteOrNull(s[|s| - 1])
    requires !EqualsIgnoreCase(s, "true") && !EqualsIgnoreCase(s, "false")
    ensures ParseBoolean(s) == Failure(FormatError)
  {
    assert "" + s + "" == s;
    TrimPadded("", s, "", IsWhiteOrNull);
  }

  /** Trimming the start removes a prefix of `white` characters. */
  lemma TrimStartSplits(s: string, white: char -> bool) returns (pre: string)
    ensures s == pre + TrimStart(s, white) && AllSatisfy(pre, white)
  {
    var a := TrimStart(s, white);
    pre := s[..|s| - |a|];
    forall i | 0 <= i < |pre|
      ensures white(pre[i])
    {
      assert pre[i] == s[i];
    }
  }

  /** Trimming the end removes a suffix of `white` characters. */
  lemma TrimEndSplits(s: string, white: char -> bool) returns (post: string)
    ensures s == TrimEnd(s, white) + post && AllSatisfy(post, white)
  {
    var t := TrimEnd(s, white);
    post := s[|t|..];
    forall i | 0 <= i < |post|
      ensures white(post[i])
    {
      assert post[i] == s[|t| + i];
    }
  }

  /** Trimming removes a prefix and a suffix of `white` characters. */
  lemma TrimSplits(s: string, white: char -> bool) returns (pre: string, post: string)
    ensures s == pre + Trim(s, white) + post
    ensures AllSatisfy(pre, white) && AllSatisfy(post, white)
  {
    pre := TrimStartSplits(s, white);
    post := TrimEndSplits(TrimStart(s, white), white);
    Regroup(s, pre, TrimStart(s, white), Trim(s, white), post);
  }

  lemma Regroup(s: string, pre: string, a: string, t: string, post: string)
    requires s == pre + a && a == t + post
    ensures s == pre + t + post
  {
    assert pre + (t + post) == pre + t + post;
  }

  /** A text matching "true" or "false" ignoring case matches the word `bool.ToString()`
      gives, ignoring case. */
  lemma BoolWordOfMatch(t: string, b: bool)
    requires EqualsIgnoreCase(t, if b then "true" else "false")
    ensures EqualsIgnoreCase(t, BoolText(b))
  {
    if b {
      assert EqualsIgnoreCase("true", "True");
      EqualsIgnoreCaseTrans(t, "true", "True");
    } else {
      assert EqualsIgnoreCase("false", "False");
      EqualsIgnoreCaseTrans(t, "false", "False");
    }
  }

  /** The converse of `BooleanAcceptsPaddedAnyCase`: every text that parses is a casing
      of "True"/"False" padded with white space or NUL, and parses to that word's value. */
  lemma BooleanAcceptedIsPaddedWord(s: string) returns (pre: string, t: string, post: string)
    requires ParseBoolean(s).Success?
    ensures s == pre + t + post
    ensures AllSatisfy(pre, IsWhiteOrNull) && AllSatisfy(post, IsWhiteOrNull)
    ensures EqualsIgnoreCase(t, BoolText(ParseBoolean(s).value))
  {
    t := Trim(s, IsWhiteOrNull);
    pre, post := TrimSplits(s, IsWhiteOrNull);
    BoolWordOfMatch(t, ParseBoolean(s).value);
  }
}
