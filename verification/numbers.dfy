/**
 * Python's `int()`, `float()` and `str()` on decimal text, with exact
 * arithmetic: a parsed decimal is the rational number it denotes.
 */
module Numbers {
  import opened Wrappers
  import opened Text

  function DigitValue(c: char): nat
    requires IsDigit(c)
  {
    c as int - '0' as int
  }

  function DigitChar(d: nat): (c: char)
    requires d < 10
    ensures IsDigit(c) && DigitValue(c) == d
  {
    ('0' as int + d) as char
  }

  /** A non-empty string of ASCII digits (what `\d+` matches). */
  predicate IsDigitString(t: string)
  {
    |t| > 0 && AllIn(t, Digits)
  }

  /** The number the digits of `t` spell, skipping every other character (Python's `_` separators). */
  function DigitsValue(t: string): nat
  {
    if |t| == 0 then 0
    else if IsDigit(t[|t| - 1]) then DigitsValue(t[..|t| - 1]) * 10 + DigitValue(t[|t| - 1])
    else DigitsValue(t[..|t| - 1])
  }

  /** How many digits `t` holds. */
  function DigitCount(t: string): nat
  {
    if |t| == 0 then 0
    else DigitCount(t[..|t| - 1]) + (if IsDigit(t[|t| - 1]) then 1 else 0)
  }

  function Pow10(n: nat): (r: nat)
    ensures r > 0
  {
    if n == 0 then 1 else 10 * Pow10(n - 1)
  }

  /** Python's `digitpart`: digits, with single underscores allowed between two digits. */
  predicate IsDigitPart(t: string)
  {
    && |t| > 0 && IsDigit(t[0]) && IsDigit(t[|t| - 1])
    && (forall k :: 0 <= k < |t| ==> IsDigit(t[k]) || t[k] == '_')
    && (forall j, k :: 0 <= j < |t| && 0 <= k < |t| && k == j + 1 ==> IsDigit(t[j]) || IsDigit(t[k]))
  }

  /** An optional leading `+` or `-`: whether it is a minus, and the text after it. */
  function SplitSign(t: string): (bool, string)
  {
    if |t| > 0 && (t[0] == '+' || t[0] == '-') then (t[0] == '-', t[1..]) else (false, t)
  }

  function Signed(negative: bool, x: real): real
  {
    if negative then -x else x
  }

  /** `int(s)` for a str argument in base 10. */
  function PyInt(s: string): Option<int>
  {
    var t := Strip(s);
    var (negative, body) := SplitSign(t);
    if IsDigitPart(body) then
      Some(if negative then -(DigitsValue(body) as int) else DigitsValue(body) as int)
    else None
  }

  /** `str(n)` for a non-negative int: its decimal digits, with no leading zero. */
  function NatToString(n: nat): (r: string)
    ensures IsDigitString(r)
    ensures DigitsValue(r) == n
    ensures r[0] == '0' ==> r == "0"
  {
    if n < 10 then [DigitChar(n)]
    else
      var r := NatToString(n / 10) + [DigitChar(n % 10)];
      assert r[..|r| - 1] == NatToString(n / 10);
      r
  }

  /** `str(n)` for an int. */
  function IntToString(n: int): string
  {
    if n < 0 then "-" + NatToString(-n) else NatToString(n)
  }

  lemma DigitStringIsDigitPart(t: string)
    requires IsDigitString(t)
    ensures IsDigitPart(t)
  {
  }

  /** `int()` of what `\d+` matched never raises and gives the number its digits spell. */
  lemma PyIntOfDigitString(t: string)
    requires IsDigitString(t)
    ensures PyInt(t) == Some(DigitsValue(t) as int)
  {
    DigitStringIsDigitPart(t);
    DigitIsNotSpace(t[0]);
    DigitIsNotSpace(t[|t| - 1]);
    assert Strip(t) == t;
    assert SplitSign(t) == (false, t);
  }

  lemma DigitIsNotSpace(c: char)
    requires IsDigit(c) || c == '.' || c == '-' || c == '+'
    ensures !IsSpace(c)
  {
  }

  /** `int(str(n)) == n`: the printed tree count reads back as the number. */
  lemma PyIntReadsIntToString(n: int)
    ensures PyInt(IntToString(n)) == Some(n)
  {
    var digits := NatToString(if n < 0 then -n else n);
    DigitStringIsDigitPart(digits);
    var t := IntToString(n);
    DigitIsNotSpace(t[0]);
    DigitIsNotSpace(t[|t| - 1]);
    assert Strip(t) == t;
    if n < 0 {
      assert SplitSign(t) == (true, digits);
    } else {
      assert SplitSign(t) == (false, digits);
    }
  }

  /** Python's `number ::= [digitpart] "." digitpart | digitpart ["."]`, evaluated exactly. */
  function MantissaValue(m: string): Option<real>
  {
    match IndexOf(m, '.')
    case None => if IsDigitPart(m) then Some(DigitsValue(m) as real) else None
    case Some(k) =>
      var whole := m[..k];
      var fraction := m[k + 1..];
      if (whole == "" || IsDigitPart(whole)) && (fraction == "" || IsDigitPart(fraction))
         && (whole != "" || fraction != "")
      then Some(DigitsValue(whole) as real + DigitsValue(fraction) as real / Pow10(DigitCount(fraction)) as real)
      else None
  }

  /** Position of the first `e` or `E`. */
  function ExponentMark(s: string): (r: Option<nat>)
    ensures r.Some? ==> r.value < |s| && (s[r.value] == 'e' || s[r.value] == 'E')
    ensures r.None? <==> forall k :: 0 <= k < |s| ==> s[k] != 'e' && s[k] != 'E'
  {
    if |s| == 0 then None
    else if s[0] == 'e' || s[0] == 'E' then Some(0)
    else match ExponentMark(s[1..])
      case None => None
      case Some(i) => Some(i + 1)
  }

  function Scale(x: real, negative: bool, e: nat): real
  {
    if negative then x / Pow10(e) as real else x * Pow10(e) as real
  }

  /**
   * `float(s)`: surrounding whitespace, an optional sign, a `number` and an
   * optional exponent `("e" | "E") [sign] digitpart`, valued exactly. The
   * spellings of infinity and NaN are not numbers here and give None.
   */
  function PyFloat(s: string): Option<real>
  {
    var (negative, body) := SplitSign(Strip(s));
    var mark := ExponentMark(body);
    var mantissa := if mark.Some? then body[..mark.value] else body;
    match MantissaValue(mantissa)
    case None => None
    case Some(m) =>
      if mark.None? then Some(Signed(negative, m))
      else
        var (eNegative, eDigits) := SplitSign(body[mark.value + 1..]);
        if IsDigitPart(eDigits) then Some(Signed(negative, Scale(m, eNegative, DigitsValue(eDigits))))
        else None
  }

  /** What `[0-9]*\.?[0-9]+` matches in full: digits, or digits, a point and at least one digit. */
  predicate IsUnsignedDecimal(t: string)
  {
    match IndexOf(t, '.')
    case None => IsDigitString(t)
    case Some(k) => AllIn(t[..k], Digits) && IsDigitString(t[k + 1..])
  }

  /** The exact value of an unsigned decimal. */
  function DecimalValue(t: string): (r: real)
    requires IsUnsignedDecimal(t)
    ensures r >= 0.0
  {
    UnsignedDecimalIsMantissa(t);
    MantissaValue(t).value
  }

  lemma UnsignedDecimalIsMantissa(t: string)
    requires IsUnsignedDecimal(t)
    ensures MantissaValue(t).Some?
    ensures MantissaValue(t).value >= 0.0
  {
    match IndexOf(t, '.')
    case None => DigitStringIsDigitPart(t);
    case Some(k) =>
      if k > 0 { DigitStringIsDigitPart(t[..k]); }
      DigitStringIsDigitPart(t[k + 1..]);
  }

  lemma UnsignedDecimalChars(t: string)
    requires IsUnsignedDecimal(t)
    ensures |t| > 0 && IsDigit(t[|t| - 1])
    ensures forall i :: 0 <= i < |t| ==> IsDigit(t[i]) || t[i] == '.'
  {
    match IndexOf(t, '.')
    case None =>
    case Some(k) =>
      forall i | 0 <= i < |t| ensures IsDigit(t[i]) || t[i] == '.' {
        if i < k { assert t[i] == t[..k][i]; }
        else if i > k { assert t[i] == t[k + 1..][i - k - 1]; }
      }
      assert t[|t| - 1] == t[k + 1..][|t| - k - 2];
  }

  /** A percentage read as a proportion: `float(...) / 100.0`, or nothing when there was no percentage. */
  function Proportion(percent: Option<real>): (r: Option<real>)
    ensures r.Some? <==> percent.Some?
  {
    match percent
    case None => None
    case Some(x) => Some(x / 100.0)
  }

  lemma ProportionOf(percent: Option<real>, x: real)
    requires percent == Some(x)
    ensures Proportion(percent) == Some(x / 100.0)
  {
  }

  /** An unsigned decimal holds no character other than digits and a point. */
  lemma DecimalLacks(t: string, c: char)
    requires IsUnsignedDecimal(t) && !IsDigit(c) && c != '.'
    ensures c !in t && |t| > 0 && !IsSpace(t[0]) && !IsSpace(t[|t| - 1])
  {
    UnsignedDecimalChars(t);
    DigitIsNotSpace(t[|t| - 1]);
    DigitIsNotSpace(t[0]);
  }

  /** No character of an unsigned decimal folds to a letter. */
  lemma DecimalFoldFree(t: string, c: char)
    requires IsUnsignedDecimal(t) && 'a' <= c <= 'z'
    ensures FoldFree(t, c)
  {
    UnsignedDecimalChars(t);
  }

  /** `float()` of what `[0-9]*\.?[0-9]+` matched never raises and gives its exact value. */
  lemma PyFloatOfUnsignedDecimal(t: string)
    requires IsUnsignedDecimal(t)
    ensures PyFloat(t) == Some(DecimalValue(t))
  {
    UnsignedDecimalIsMantissa(t);
    UnsignedDecimalChars(t);
    DigitIsNotSpace(t[0]);
    DigitIsNotSpace(t[|t| - 1]);
    assert Strip(t) == t;
    assert SplitSign(t) == (false, t);
    assert ExponentMark(t).None?;
  }

  /** What `[-+]?\d+\.\d+` matches in full. */
  predicate IsSignedFixedPoint(t: string)
  {
    var body := SplitSign(t).1;
    match IndexOf(body, '.')
    case None => false
    case Some(k) => IsDigitString(body[..k]) && IsDigitString(body[k + 1..])
  }

  /** `float()` of what `[-+]?\d+\.\d+` matched never raises; its value is the signed decimal. */
  lemma PyFloatOfSignedFixedPoint(t: string)
    requires IsSignedFixedPoint(t)
    ensures PyFloat(t).Some?
    ensures PyFloat(t).value == Signed(SplitSign(t).0, DecimalValue(SplitSign(t).1))
  {
    var (negative, body) := SplitSign(t);
    SignedFixedPointBody(t);
    UnsignedDecimalIsMantissa(body);
    UnsignedDecimalChars(body);
    SignedFixedPointEnds(t);
    assert Strip(t) == t;
    assert ExponentMark(body).None?;
  }

  /** The text after the sign of a signed fixed-point number is an unsigned decimal. */
  lemma SignedFixedPointBody(t: string)
    requires IsSignedFixedPoint(t)
    ensures IsUnsignedDecimal(SplitSign(t).1)
  {
  }

  /** A signed fixed-point number has no whitespace at either end. */
  lemma SignedFixedPointEnds(t: string)
    requires IsSignedFixedPoint(t)
    ensures |t| > 0 && !IsSpace(t[0]) && !IsSpace(t[|t| - 1])
  {
    var body := SplitSign(t).1;
    SignedFixedPointBody(t);
    UnsignedDecimalChars(body);
    assert t[|t| - 1] == body[|body| - 1];
    DigitIsNotSpace(t[|t| - 1]);
    if body == t {
      DigitIsNotSpace(t[0]);
    } else {
      assert t[0] == '+' || t[0] == '-';
    }
  }

  /** `int(x)` for a float `x`: truncation toward zero. */
  function Truncate(x: real): (r: int)
    ensures x >= 0.0 ==> r as real <= x < r as real + 1.0
    ensures x < 0.0 ==> r as real - 1.0 < x <= r as real
    ensures x >= 0.0 ==> r >= 0
    ensures x <= 0.0 ==> r <= 0
    ensures -1.0 < x - r as real < 1.0
  {
    if x >= 0.0 then x.Floor else -((-x).Floor)
  }
}
