/** Python's conversions between integers and text: `str(i)`, `int(s)` for a
    string and `int(x)` for a float. Only the ASCII digits are modelled. */
module Numerals {
  import opened Py
  import opened Text

  predicate IsDigit(c: char)
  {
    '0' <= c <= '9'
  }

  predicate AllDigits(s: string)
  {
    forall i :: 0 <= i < |s| ==> IsDigit(s[i])
  }

  function DigitChar(d: nat): (c: char)
    requires d < 10
    ensures IsDigit(c) && DigitValue(c) == d
  {
    (('0' as int) + d) as char
  }

  function DigitValue(c: char): nat
    requires IsDigit(c)
  {
    (c as int) - ('0' as int)
  }

  /** The decimal value of a string of digits, most significant first. */
  function DigitsValue(s: string): nat
    requires AllDigits(s)
    decreases |s|
  {
    if |s| == 0 then 0 else 10 * DigitsValue(s[..|s| - 1]) + DigitValue(s[|s| - 1])
  }

  /** `str(n)` for a natural number: the shortest decimal numeral of `n`. */
  function NatToString(n: nat): (s: string)
    ensures |s| > 0 && AllDigits(s)
    ensures DigitsValue(s) == n
    ensures |s| > 1 ==> s[0] != '0'
    decreases n
  {
    if n < 10 then [DigitChar(n)]
    else
      var prefix := NatToString(n / 10);
      var s := prefix + [DigitChar(n % 10)];
      assert s[..|s| - 1] == prefix;
      s
  }

  /** `str(i)`: a minus sign for negative numbers, then the numeral of the
      magnitude. */
  function IntToString(i: int): (s: string)
    ensures |s| > 0
    ensures i >= 0 <==> IsDigit(s[0])
    ensures i < 0 <==> s[0] == '-'
  {
    if i < 0 then "-" + NatToString(-i) else NatToString(i)
  }

  /** Position `i` of `s` holds a digit, or an underscore between two
      digits. */
  predicate GroupChar(s: string, i: int)
    requires 0 <= i < |s|
  {
    IsDigit(s[i]) || (0 < i < |s| - 1 && s[i] == '_' && IsDigit(s[i - 1]) && IsDigit(s[i + 1]))
  }

  /** Digits with single underscores between them, as `int()` accepts. */
  predicate Grouped(s: string)
  {
    && |s| > 0
    && IsDigit(s[0])
    && IsDigit(s[|s| - 1])
    && forall i :: 0 <= i < |s| ==> GroupChar(s, i)
  }

  function WithoutUnderscores(s: string): (r: string)
    ensures (forall i :: 0 <= i < |s| ==> IsDigit(s[i]) || s[i] == '_') ==> AllDigits(r)
    ensures AllDigits(s) ==> r == s
  {
    if |s| == 0 then ""
    else (if s[0] == '_' then "" else [s[0]]) + WithoutUnderscores(s[1..])
  }

  function GroupedValue(s: string): nat
    requires Grouped(s)
  {
    GroupedChars(s);
    DigitsValue(WithoutUnderscores(s))
  }

  lemma GroupedChars(s: string)
    requires Grouped(s)
    ensures forall i :: 0 <= i < |s| ==> IsDigit(s[i]) || s[i] == '_'
  {
    forall i | 0 <= i < |s|
      ensures IsDigit(s[i]) || s[i] == '_'
    {
      assert GroupChar(s, i);
    }
  }

  /** Python's default limit on the digits `int()` converts from a string
      (`sys.int_info.default_max_str_digits`); a longer numeral raises
      `ValueError`, and so does `str()` of an integer that long. */
  const MaxStrDigits := 4300

  /** The whitespace `int()` skips around a numeral: Python's whitespace
      except the separators U+001C..U+001F, which `int()` keeps and then
      rejects as it would any other stray character. */
  predicate IntSpace(c: char)
  {
    IsSpace(c) && !(0x1C <= c as int <= 0x1F)
  }

  /** Every character `Strip` removes from `s` is one `int()` skips. */
  predicate IntPadded(s: string)
  {
    var left := StripLeft(s);
    && (forall k :: 0 <= k < |s| - |left| ==> IntSpace(s[k]))
    && (forall k :: |StripRight(left)| <= k < |left| ==> IntSpace(left[k]))
  }

  /** An unsigned grouped numeral within the digit limit; underscores do
      not count towards the limit. */
  function ParseMagnitude(body: string): (r: Option<nat>)
  {
    if Grouped(body) && |WithoutUnderscores(body)| <= MaxStrDigits then Some(GroupedValue(body))
    else None
  }

  /** `int(s)` for a string: surrounding whitespace is ignored, then an
      optional sign and a grouped run of at most `MaxStrDigits` digits;
      anything else is the `ValueError` case, `None` here. */
  function ParseInt(s: string): (r: Option<int>)
  {
    var t := Strip(s);
    if !IntPadded(s) then None
    else if |t| > 0 && (t[0] == '+' || t[0] == '-') then
      match ParseMagnitude(t[1..])
      case None => None
      case Some(magnitude) => Some(if t[0] == '-' then -(magnitude as int) else magnitude as int)
    else
      match ParseMagnitude(t)
      case None => None
      case Some(magnitude) => Some(magnitude as int)
  }

  /** `int(x)` for a float: rounds toward zero. */
  function Trunc(x: real): (t: int)
    ensures 0.0 <= x ==> t as real <= x < t as real + 1.0
    ensures x < 0.0 ==> t as real - 1.0 < x <= t as real
  {
    if x >= 0.0 then x.Floor else -((-x).Floor)
  }

  /** `str(i)` succeeds: the numeral of `i` has at most `MaxStrDigits`
      digits. */
  predicate Printable(i: int)
  {
    |NatToString(if i < 0 then -i else i)| <= MaxStrDigits
  }

  /** `int(str(i)) == i` for every integer `str()` can print. */
  lemma ParseIntToString(i: int)
    requires Printable(i)
    ensures ParseInt(IntToString(i)) == Some(i)
  {
    var s := IntToString(i);
    var digits := NatToString(if i < 0 then -i else i);
    TrimmedIsIntPadded(s);
    if i < 0 {
      assert s[1..] == digits;
    }
    assert Grouped(digits);
  }

  /** A string without surrounding whitespace passes `int()`'s padding
      test. */
  lemma TrimmedIsIntPadded(s: string)
    requires Trimmed(s)
    ensures IntPadded(s) && Strip(s) == s
  {
    assert StripLeft(s) == s;
    assert StripRight(s) == s;
  }

  /** A separator control before the numeral makes `int()` fail, although
      `str.strip()` would remove it. */
  lemma SeparatorBeforeNumeralRefused(s: string)
    requires |s| > 0 && 0x1C <= s[0] as int <= 0x1F
    ensures ParseInt(s) == None
  {
    var left := StripLeft(s);
    assert IsSpace(s[0]);
    assert |left| < |s|;
    assert !IntSpace(s[0]);
  }

  /** A numeral longer than `MaxStrDigits` digits is refused. */
  lemma LongNumeralRefused(s: string)
    requires |s| > MaxStrDigits && AllDigits(s)
    ensures ParseInt(s) == None
  {
    assert !IsSpace(s[0]) && !IsSpace(s[|s| - 1]);
    TrimmedIsIntPadded(s);
  }

  /** A numeral contains no character other than a sign and digits. */
  lemma IntToStringChars(i: int, c: char)
    requires c != '-' && !IsDigit(c)
    ensures c !in IntToString(i)
  {
    var s := IntToString(i);
    if i < 0 {
      assert s == "-" + NatToString(-i);
    }
  }
}
