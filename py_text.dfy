/**
  The Python text built-ins the query decoder relies on: `str.index` and `str.rindex`
  for one character, the white space `int(...)` and `float(...)` ignore, and which texts
  they accept.
  Only ASCII digits are modelled; Python also accepts other Unicode decimal digits.
*/
module PyText {
  import opened Wrappers

  /**
    The white space `int()` and `float()` ignore at both ends: the ASCII space and
    `\t \n \v \f \r`, and the non-ASCII characters `str.isspace()` accepts, which
    CPython turns into spaces before parsing. The ASCII separators U+001C..U+001F pass
    through unchanged and are refused, although `str.isspace()` accepts them.
  */
  predicate IsSpace(c: char)
  {
    var n := c as int;
    n == 0x20 || 0x09 <= n <= 0x0D || n == 0x85 || n == 0xA0 || n == 0x1680
    || 0x2000 <= n <= 0x200A || n == 0x2028 || n == 0x2029 || n == 0x202F || n == 0x205F || n == 0x3000
  }

  predicate IsDigit(c: char)
  {
    '0' <= c <= '9'
  }

  predicate IsSign(c: char)
  {
    c == '+' || c == '-'
  }

  function DigitValue(c: char): (d: nat)
    requires IsDigit(c)
    ensures d < 10
  {
    c as int - '0' as int
  }

  function DigitChar(d: nat): (c: char)
    requires d < 10
    ensures IsDigit(c) && DigitValue(c) == d
  {
    ('0' as int + d) as char
  }

  // ---------------------------------------------------------------------------
  // str.index / str.rindex for a single character

  /** `s.index(c)`: the first position of `c`, or None where Python raises ValueError. */
  function IndexOf(s: string, c: char): (r: Option<nat>)
    ensures r.None? <==> c !in s
    ensures r.Some? ==> r.value < |s| && s[r.value] == c && c !in s[..r.value]
  {
    if s == [] then None
    else if s[0] == c then Some(0)
    else
      assert s == [s[0]] + s[1..];
      match IndexOf(s[1..], c)
      case None => None
      case Some(i) =>
        assert s[..i + 1] == [s[0]] + s[1..][..i];
        Some(i + 1)
  }

  /** `s.rindex(c)`: the last position of `c`, or None where Python raises ValueError. */
  function RIndexOf(s: string, c: char): (r: Option<nat>)
    ensures r.None? <==> c !in s
    ensures r.Some? ==> r.value < |s| && s[r.value] == c && c !in s[r.value + 1..]
  {
    if s == [] then None
    else if s[|s| - 1] == c then Some(|s| - 1)
    else
      assert s == s[..|s| - 1] + [s[|s| - 1]];
      match RIndexOf(s[..|s| - 1], c)
      case None => None
      case Some(i) =>
        assert s[i + 1..] == s[..|s| - 1][i + 1..] + [s[|s| - 1]];
        Some(i)
  }

  // ---------------------------------------------------------------------------
  // The white space int() and float() strip

  function StripLeft(s: string): (t: string)
    ensures |t| <= |s| && t == s[|s| - |t|..]
    ensures t == [] || !IsSpace(t[0])
    ensures forall i :: 0 <= i < |s| - |t| ==> IsSpace(s[i])
  {
    if s != [] && IsSpace(s[0]) then StripLeft(s[1..]) else s
  }

  function StripRight(s: string): (t: string)
    ensures |t| <= |s| && t == s[..|t|]
    ensures t == [] || !IsSpace(t[|t| - 1])
    ensures forall i :: |t| <= i < |s| ==> IsSpace(s[i])
  {
    if s != [] && IsSpace(s[|s| - 1]) then StripRight(s[..|s| - 1]) else s
  }

  /** `s` without the white space at either end, as `int()` and `float()` see it. */
  function Strip(s: string): string
  {
    StripRight(StripLeft(s))
  }

  /** A text that neither starts nor ends with white space is left as it is. */
  lemma StripUnpadded(s: string)
    requires s != [] && !IsSpace(s[0]) && !IsSpace(s[|s| - 1])
    ensures Strip(s) == s
  {
    assert StripLeft(s) == s;
  }

  // ---------------------------------------------------------------------------
  // int(text)

  /**
    A run of decimal digits in which single underscores may separate digits
    (PEP 515): `digit ('_'? digit)*`.
  */
  predicate IsDigitRun(s: string)
  {
    && |s| > 0 && IsDigit(s[0])
    && (forall i :: 0 <= i < |s| ==> IsDigit(s[i]) || s[i] == '_')
    && (forall i :: 0 <= i < |s| && s[i] == '_' ==> i + 1 < |s| && IsDigit(s[i + 1]))
  }

  /** The number the digits of `s` denote, underscores ignored. */
  function DigitsValue(s: string): nat
  {
    if s == [] then 0
    else if IsDigit(s[|s| - 1]) then DigitsValue(s[..|s| - 1]) * 10 + DigitValue(s[|s| - 1])
    else DigitsValue(s[..|s| - 1])
  }

  /**
    `int(text)` in base 10: white space at both ends is ignored, then an optional
    sign, then a digit run. None where Python raises ValueError.
  */
  function ParseInt(text: string): Option<int>
  {
    var t := Strip(text);
    if t != [] && IsSign(t[0]) then
      if IsDigitRun(t[1..]) then
        var magnitude: int := DigitsValue(t[1..]);
        Some(if t[0] == '-' then -magnitude else magnitude)
      else None
    else if IsDigitRun(t) then Some(DigitsValue(t))
    else None
  }

  /** The decimal numeral of `n`, as `str(n)` writes it. */
  function Decimal(n: nat): (s: string)
    ensures s != [] && IsDigit(s[0]) && IsDigit(s[|s| - 1])
  {
    if n < 10 then [DigitChar(n)] else Decimal(n / 10) + [DigitChar(n % 10)]
  }

  function FormatInt(n: int): string
  {
    if n < 0 then "-" + Decimal(-n) else Decimal(n)
  }

  lemma {:induction false} DecimalAllDigits(n: nat, i: nat)
    requires i < |Decimal(n)|
    ensures IsDigit(Decimal(n)[i])
  {
    if n >= 10 && i < |Decimal(n / 10)| {
      DecimalAllDigits(n / 10, i);
    }
  }

  lemma {:induction false} DecimalIsDigitRun(n: nat)
    ensures IsDigitRun(Decimal(n))
    ensures DigitsValue(Decimal(n)) == n
  {
    forall i | 0 <= i < |Decimal(n)|
      ensures IsDigit(Decimal(n)[i])
    {
      DecimalAllDigits(n, i);
    }
    if n >= 10 {
      DecimalIsDigitRun(n / 10);
      var s := Decimal(n);
      assert s[..|s| - 1] == Decimal(n / 10);
    }
  }

  /** `int(str(n)) == n`: the integer parser reads back every numeral `str` writes. */
  lemma ParseIntFormatInt(n: int)
    ensures ParseInt(FormatInt(n)) == Some(n)
  {
    var s := FormatInt(n);
    var d := Decimal(if n < 0 then -n else n);
    DecimalIsDigitRun(if n < 0 then -n else n);
    StripUnpadded(s);
    if n < 0 {
      assert s[1..] == d;
    } else {
      assert s == d && !IsSign(s[0]);
    }
  }

  /** `str(n)` has no decimal point, so a number cell showing it takes the integer branch. */
  lemma FormatIntHasNoPoint(n: int)
    ensures '.' !in FormatInt(n)
  {
    var s := FormatInt(n);
    if '.' in s {
      var k :| 0 <= k < |s| && s[k] == '.';
      if n < 0 {
        assert k > 0 && s[k] == Decimal(-n)[k - 1];
        DecimalAllDigits(-n, k - 1);
      } else {
        DecimalAllDigits(n, k);
      }
    }
  }

  /**
    A text that keeps a character other than a digit, a sign or an underscore once
    white space is stripped, such as "1,000", is refused by `int()`.
  */
  lemma ParseIntRefusesForeignCharacter(text: string, k: nat)
    requires k < |Strip(text)|
    requires var c := Strip(text)[k]; !IsDigit(c) && !IsSign(c) && c != '_'
    ensures ParseInt(text) == None
  {
    var t := Strip(text);
    if t != [] && IsSign(t[0]) {
      assert k > 0;
      assert t[1..][k - 1] == t[k];
    }
  }

  /** `int("1,000")` raises: a thousands separator is not part of an integer literal. */
  lemma ParseIntRefusesThousands()
    ensures '.' !in "1,000" && ParseInt("1,000") == None
  {
    var f := "1,000";
    assert '.' !in f by {
      assert f == ['1', ',', '0', '0', '0'];
    }
    assert Strip(f) == f by {
      assert f[0] == '1' && f[4] == '0';
      StripUnpadded(f);
    }
    assert f[1] == ',';
    ParseIntRefusesForeignCharacter(f, 1);
  }

  /** `int("\x1c5")` raises: an ASCII information separator is not white space to `int()`. */
  lemma ParseIntRefusesSeparatorPadding()
    ensures ParseInt(['\U{1c}', '5']) == None
  {
    var f := ['\U{1c}', '5'];
    assert Strip(f) == f by {
      StripUnpadded(f);
    }
    ParseIntRefusesForeignCharacter(f, 0);
  }

  // ---------------------------------------------------------------------------
  // float(text), for the texts that contain a decimal point

  /** The end of the digit run that starts at `i`, or `i` when none starts there. */
  function DigitRunEnd(s: string, i: nat): (e: nat)
    requires i <= |s|
    ensures i <= e <= |s|
    ensures forall k :: i <= k < e ==> IsDigit(s[k]) || s[k] == '_'
    decreases |s| - i
  {
    if i < |s| && IsDigit(s[i]) then DigitRunRest(s, i + 1) else i
  }

  function DigitRunRest(s: string, i: nat): (e: nat)
    requires i <= |s|
    ensures i <= e <= |s|
    ensures forall k :: i <= k < e ==> IsDigit(s[k]) || s[k] == '_'
    decreases |s| - i
  {
    if i < |s| && IsDigit(s[i]) then DigitRunRest(s, i + 1)
    else if i + 1 < |s| && s[i] == '_' && IsDigit(s[i + 1]) then DigitRunRest(s, i + 2)
    else i
  }

  /** Position `j` of `t` ends the literal, or starts an exponent `e[sign]digits` that ends it. */
  predicate ExponentOrEnd(t: string, j: nat)
    requires j <= |t|
  {
    j == |t| ||
    ((t[j] == 'e' || t[j] == 'E') &&
     var k := if j + 1 < |t| && IsSign(t[j + 1]) then j + 2 else j + 1;
     var e := DigitRunEnd(t, k);
     e > k && e == |t|)
  }

  /**
    `float(text)` succeeds, for a text with a decimal point: after stripping white space,
    an optional sign, a mantissa `digits.[digits]` or `.digits`, an optional exponent.
    (The forms "inf" and "nan" have no decimal point and are not considered.)
  */
  predicate IsPointFloat(text: string)
  {
    var t := Strip(text);
    var m := if t != [] && IsSign(t[0]) then 1 else 0;
    var a := DigitRunEnd(t, m);
    if a < |t| && t[a] == '.' then
      var b := DigitRunEnd(t, a + 1);
      (a > m || b > a + 1) && ExponentOrEnd(t, b)
    else
      a > m && ExponentOrEnd(t, a)
  }

  /** The scanner runs over a block of digits and stops at the first character that cannot continue it. */
  lemma {:induction false} DigitRunRestOverDigits(s: string, i: nat, j: nat)
    requires i <= j <= |s|
    requires forall k :: i <= k < j ==> IsDigit(s[k])
    requires j == |s| || (!IsDigit(s[j]) && s[j] != '_')
    ensures DigitRunRest(s, i) == j
    decreases j - i
  {
    if i < j {
      DigitRunRestOverDigits(s, i + 1, j);
    }
  }

  /** `float()` accepts digits, a point, digits. */
  lemma PointFloatOfDigits(x: string, y: string)
    requires x != [] && forall k :: 0 <= k < |x| ==> IsDigit(x[k])
    requires y != [] && forall k :: 0 <= k < |y| ==> IsDigit(y[k])
    ensures IsPointFloat(x + "." + y)
  {
    var s := x + "." + y;
    var p := |x|;
    assert forall k :: 0 <= k < p ==> s[k] == x[k];
    assert forall k :: p < k < |s| ==> s[k] == y[k - p - 1];
    StripUnpadded(s);
    DigitRunRestOverDigits(s, 1, p);
    DigitRunRestOverDigits(s, p + 2, |s|);
  }

  /** `float()` accepts every text `str(a) + "." + str(b)`, such as "3.14". */
  lemma PointFloatOfNumerals(a: nat, b: nat)
    ensures IsPointFloat(Decimal(a) + "." + Decimal(b))
  {
    forall k | 0 <= k < |Decimal(a)| ensures IsDigit(Decimal(a)[k]) {
      DecimalAllDigits(a, k);
    }
    forall k | 0 <= k < |Decimal(b)| ensures IsDigit(Decimal(b)[k]) {
      DecimalAllDigits(b, k);
    }
    PointFloatOfDigits(Decimal(a), Decimal(b));
  }

  /** A character that no literal has, at or after position `j`, spoils the tail of a literal. */
  predicate IsForeign(c: char)
  {
    !IsDigit(c) && !IsSign(c) && c != '_' && c != '.' && c != 'e' && c != 'E'
  }

  lemma ForeignSpoilsExponent(t: string, j: nat, k: nat)
    requires j <= k < |t| && IsForeign(t[k])
    ensures !ExponentOrEnd(t, j)
  {
    if j < |t| && (t[j] == 'e' || t[j] == 'E') {
      var x := if j + 1 < |t| && IsSign(t[j + 1]) then j + 2 else j + 1;
      assert k >= x;
      assert DigitRunEnd(t, x) <= k;
    }
  }

  /**
    `float()` refuses a text that keeps, once white space is stripped, a character that no
    decimal literal has, such as the comma of "1,000.5".
  */
  lemma PointFloatRefusesForeignCharacter(text: string, k: nat)
    requires k < |Strip(text)| && IsForeign(Strip(text)[k])
    ensures !IsPointFloat(text)
  {
    var t := Strip(text);
    var m := if t != [] && IsSign(t[0]) then 1 else 0;
    var a := DigitRunEnd(t, m);
    assert m <= k;
    assert a <= k;
    if a < |t| && t[a] == '.' {
      var b := DigitRunEnd(t, a + 1);
      assert b <= k;
      ForeignSpoilsExponent(t, b, k);
    } else {
      ForeignSpoilsExponent(t, a, k);
    }
  }
}
