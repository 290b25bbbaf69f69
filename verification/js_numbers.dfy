/** The two integer conversions the item form relies on: the global
    `parseInt` of ECMAScript (section 19.2.5 of ECMA-262) called without a
    radix, and `Number.prototype.toString` on integers. `parseInt`'s `NaN`
    is `None`. */
module JsNumbers {
  import opened Wrappers

  /** StrWhiteSpaceChar: the WhiteSpace and LineTerminator code points of
      sections 12.2 and 12.3 of ECMA-262 (space separators as of Unicode 15). */
  predicate IsStrWhiteSpace(c: char) {
    || c == '\t' || c == '\U{0B}' || c == '\U{0C}' || c == ' ' || c == '\U{A0}' || c == '\U{FEFF}'
    || c == '\n' || c == '\r' || c == '\U{2028}' || c == '\U{2029}'
    || c == '\U{1680}' || ('\U{2000}' <= c <= '\U{200A}') || c == '\U{202F}' || c == '\U{205F}'
    || c == '\U{3000}'
  }

  /** The string with its leading white space removed. */
  function TrimStart(s: string): (r: string)
    ensures |r| <= |s| && r == s[|s| - |r|..]
    ensures |r| == 0 || !IsStrWhiteSpace(r[0])
    ensures forall i | 0 <= i < |s| - |r| :: IsStrWhiteSpace(s[i])
    decreases |s|
  {
    if |s| > 0 && IsStrWhiteSpace(s[0]) then TrimStart(s[1..]) else s
  }

  /** The value of `c` as a digit in a base up to 36, if it is one. */
  function DigitValue(c: char): Option<nat> {
    if '0' <= c <= '9' then Some(c as int - '0' as int)
    else if 'a' <= c <= 'z' then Some(c as int - 'a' as int + 10)
    else if 'A' <= c <= 'Z' then Some(c as int - 'A' as int + 10)
    else None
  }

  predicate IsDigit(c: char, radix: nat) {
    DigitValue(c).Some? && DigitValue(c).value < radix
  }

  /** The longest prefix of `s` made of digits of base `radix`. */
  function DigitPrefix(s: string, radix: nat): (r: string)
    ensures |r| <= |s| && r == s[..|r|]
    ensures forall i | 0 <= i < |r| :: IsDigit(r[i], radix)
    ensures |r| == |s| || !IsDigit(s[|r|], radix)
    decreases |s|
  {
    if |s| > 0 && IsDigit(s[0], radix) then [s[0]] + DigitPrefix(s[1..], radix) else []
  }

  /** The number the digits `ds` denote in base `radix`, most significant first. */
  function DigitsValue(ds: string, radix: nat): nat
    requires forall i | 0 <= i < |ds| :: IsDigit(ds[i], radix)
    decreases |ds|
  {
    if |ds| == 0 then 0
    else
      var n := |ds| - 1;
      assert IsDigit(ds[n], radix);
      var high: nat := DigitsValue(ds[..n], radix);
      var low: nat := DigitValue(ds[n]).value;
      MultiplyNat(high, radix);
      high * radix + low
  }

  /** Whether the trimmed text starts with a minus sign. */
  predicate IsNegative(t: string) {
    |t| > 0 && t[0] == '-'
  }

  /** The trimmed text without its sign, if it has one. */
  function Unsigned(t: string): string {
    if |t| > 0 && (t[0] == '+' || t[0] == '-') then t[1..] else t
  }

  /** Whether the unsigned text starts with the `0x` or `0X` prefix. */
  predicate HasHexPrefix(u: string) {
    |u| >= 2 && u[0] == '0' && (u[1] == 'x' || u[1] == 'X')
  }

  /** The magnitude `parseInt` reads from the unsigned text: hexadecimal
      after the prefix, decimal otherwise; `None` when no digit follows. */
  function ParseMagnitude(u: string): Option<nat> {
    var radix := if HasHexPrefix(u) then 16 else 10;
    var z := DigitPrefix(if HasHexPrefix(u) then u[2..] else u, radix);
    if |z| == 0 then None else Some(DigitsValue(z, radix))
  }

  lemma MultiplyNat(a: nat, b: nat)
    ensures a * b >= 0
  {
  }

  /** `parseInt(s)`: skip white space, read an optional sign, switch to base
      16 after a `0x` or `0X` prefix, and read the longest run of digits;
      `None` when that run is empty. */
  function ParseInt(s: string): (r: Option<int>)
    ensures (forall i | 0 <= i < |s| :: !IsDigit(s[i], 10)) ==> r.None?
    ensures r.Some? && r.value < 0 ==> IsNegative(TrimStart(s))
  {
    NoDigitsReadNaN(s);
    ParseTrimmed(TrimStart(s))
  }

  /** Text without a single decimal digit holds no numeral: neither a
      decimal one nor a `0x` prefix, which starts with the digit `0`. */
  lemma NoDigitsReadNaN(s: string)
    ensures (forall i | 0 <= i < |s| :: !IsDigit(s[i], 10)) ==> ParseTrimmed(TrimStart(s)).None?
  {
    if forall i | 0 <= i < |s| :: !IsDigit(s[i], 10) {
      var t := TrimStart(s);
      NoDigitsInSuffix(s, |s| - |t|);
      var u := Unsigned(t);
      NoDigitsInSuffix(t, |t| - |u|);
      MagnitudeOfNoDigits(u);
    }
  }

  /** A suffix of text without digits has none either. */
  lemma NoDigitsInSuffix(s: string, k: nat)
    requires k <= |s|
    requires forall i | 0 <= i < |s| :: !IsDigit(s[i], 10)
    ensures forall i | 0 <= i < |s[k..]| :: !IsDigit(s[k..][i], 10)
  {
    forall i | 0 <= i < |s[k..]| ensures !IsDigit(s[k..][i], 10) {
      assert s[k..][i] == s[k + i];
    }
  }

  /** Unsigned text without digits has no magnitude. */
  lemma MagnitudeOfNoDigits(u: string)
    requires forall i | 0 <= i < |u| :: !IsDigit(u[i], 10)
    ensures ParseMagnitude(u).None?
  {
    if |u| > 0 {
      assert !IsDigit(u[0], 10);
      assert DigitValue('0') == Some(0);
    }
    assert !HasHexPrefix(u);
    assert DigitPrefix(u, 10) == [];
  }

  /** `parseInt` once the white space is gone. */
  function ParseTrimmed(t: string): Option<int> {
    match ParseMagnitude(Unsigned(t))
    case None => None
    case Some(m) =>
      if IsNegative(t) then Some(-(m as int)) else Some(m)
  }

  /** The decimal digit for `d`. */
  function DecimalChar(d: nat): (c: char)
    requires d < 10
    ensures IsDigit(c, 10) && DigitValue(c) == Some(d)
  {
    ('0' as int + d) as char
  }

  /** The decimal numeral of `n`, without leading zeros. */
  function NatToDecimal(n: nat): (r: string)
    ensures |r| >= 1
    ensures forall i | 0 <= i < |r| :: IsDigit(r[i], 10)
    ensures |r| > 1 ==> r[0] != '0'
    ensures n > 0 ==> r[0] != '0'
    decreases n
  {
    if n < 10 then [DecimalChar(n)]
    else NatToDecimal(n / 10) + [DecimalChar(n % 10)]
  }

  /** `n.toString()` for an integer `n`. */
  function IntToString(n: int): (r: string)
    ensures |r| >= 1 && (n < 0 <==> r[0] == '-')
    ensures n < 0 ==> |r| >= 2
    ensures forall i | (if n < 0 then 1 else 0) <= i < |r| :: IsDigit(r[i], 10)
  {
    if n < 0 then "-" + NatToDecimal(-n) else NatToDecimal(n)
  }

  /** The numeral of `n` denotes `n`. */
  lemma {:induction false} DecimalValue(n: nat)
    ensures DigitsValue(NatToDecimal(n), 10) == n
    decreases n
  {
    if n >= 10 {
      DecimalValue(n / 10);
      var r := NatToDecimal(n);
      assert r[..|r| - 1] == NatToDecimal(n / 10);
    }
  }

  /** The digit run stops at the first character that is not a digit. */
  lemma {:induction false} DigitPrefixOfDigits(d: string, rest: string, radix: nat)
    requires forall i | 0 <= i < |d| :: IsDigit(d[i], radix)
    requires |rest| == 0 || !IsDigit(rest[0], radix)
    ensures DigitPrefix(d + rest, radix) == d
    decreases |d|
  {
    if |d| > 0 {
      assert (d + rest)[1..] == d[1..] + rest;
      DigitPrefixOfDigits(d[1..], rest, radix);
    } else {
      assert d + rest == rest;
    }
  }

  /** A decimal numeral followed by a non-digit reads as its value. */
  lemma MagnitudeOfDecimal(m: nat, rest: string)
    requires |rest| == 0 || !IsDigit(rest[0], 10)
    requires |rest| > 0 && m == 0 ==> rest[0] != 'x' && rest[0] != 'X'
    ensures ParseMagnitude(NatToDecimal(m) + rest) == Some(m)
  {
    var d := NatToDecimal(m);
    var u := d + rest;
    assert !HasHexPrefix(u) by {
      if |d| > 1 {
        assert u[1] == d[1] && IsDigit(d[1], 10);
      } else if m > 0 {
        assert u[0] == d[0];
      } else if |rest| > 0 {
        assert u[1] == rest[0];
      }
    }
    DigitPrefixOfDigits(d, rest, 10);
    DecimalValue(m);
  }

  /** Text that does not start with white space is already trimmed. */
  lemma TrimStartOfUnspaced(s: string)
    requires |s| > 0 && !IsStrWhiteSpace(s[0])
    ensures TrimStart(s) == s
  {
  }

  /** `parseInt` reads back what `toString` writes, and ignores whatever
      follows the numeral from the first character that cannot continue it
      (a decimal point, an exponent, a unit). */
  lemma ParseIntOfDecimal(n: int, rest: string)
    requires |rest| == 0 || !IsDigit(rest[0], 10)
    requires |rest| > 0 && n == 0 ==> rest[0] != 'x' && rest[0] != 'X'
    ensures ParseInt(IntToString(n) + rest) == Some(n)
  {
    if n < 0 {
      ParseNegativeDecimal(-n, rest);
    } else {
      ParseNonNegativeDecimal(n, rest);
    }
  }

  /** A decimal digit is neither white space nor a sign. */
  lemma DecimalDigitIsPlain(c: char)
    requires IsDigit(c, 10)
    ensures !IsStrWhiteSpace(c) && c != '+' && c != '-'
  {
  }

  /** `parseInt` on text that starts with neither white space nor a sign
      reads the magnitude of the whole text. */
  lemma ParseIntOfUnsigned(s: string, m: nat)
    requires |s| > 0 && !IsStrWhiteSpace(s[0]) && s[0] != '+' && s[0] != '-'
    requires ParseMagnitude(s) == Some(m)
    ensures ParseInt(s) == Some(m)
  {
    TrimStartOfUnspaced(s);
    assert Unsigned(s) == s && !IsNegative(s);
  }

  /** `parseInt` on text that starts with a minus sign negates the magnitude
      of the rest. */
  lemma ParseIntOfMinus(s: string, m: nat)
    requires |s| > 0 && s[0] == '-'
    requires ParseMagnitude(s[1..]) == Some(m)
    ensures ParseInt(s) == Some(-(m as int))
  {
    TrimStartOfUnspaced(s);
    ParseTrimmedOfMinus(s, m);
  }

  /** A leading minus sign negates the magnitude. */
  lemma ParseTrimmedOfMinus(t: string, m: nat)
    requires |t| > 0 && t[0] == '-'
    requires ParseMagnitude(t[1..]) == Some(m)
    ensures ParseTrimmed(t) == Some(-(m as int))
  {
    assert Unsigned(t) == t[1..] && IsNegative(t);
  }

  /** A non-negative numeral reads as its value. */
  lemma ParseNonNegativeDecimal(m: nat, rest: string)
    requires |rest| == 0 || !IsDigit(rest[0], 10)
    requires |rest| > 0 && m == 0 ==> rest[0] != 'x' && rest[0] != 'X'
    ensures ParseInt(IntToString(m) + rest) == Some(m)
  {
    var d := NatToDecimal(m);
    var s := d + rest;
    assert IntToString(m) + rest == s;
    assert s[0] == d[0];
    DecimalDigitIsPlain(d[0]);
    MagnitudeOfDecimal(m, rest);
    ParseIntOfUnsigned(s, m);
  }

  /** A negative numeral reads as its value. */
  lemma ParseNegativeDecimal(m: nat, rest: string)
    requires m > 0
    requires |rest| == 0 || !IsDigit(rest[0], 10)
    ensures ParseInt(IntToString(-(m as int)) + rest) == Some(-(m as int))
  {
    var d := NatToDecimal(m);
    var s := "-" + d + rest;
    assert IntToString(-(m as int)) + rest == s;
    assert s[0] == '-' && s[1..] == d + rest;
    MagnitudeOfDecimal(m, rest);
    ParseIntOfMinus(s, m);
  }

  lemma {:induction false} TrimStartSkipsWhiteSpace(ws: string, s: string)
    requires forall i | 0 <= i < |ws| :: IsStrWhiteSpace(ws[i])
    ensures TrimStart(ws + s) == TrimStart(s)
    decreases |ws|
  {
    if |ws| > 0 {
      assert (ws + s)[1..] == ws[1..] + s;
      TrimStartSkipsWhiteSpace(ws[1..], s);
    } else {
      assert ws + s == s;
    }
  }

  /** Leading white space does not change what `parseInt` reads. */
  lemma ParseIntSkipsWhiteSpace(ws: string, s: string)
    requires forall i | 0 <= i < |ws| :: IsStrWhiteSpace(ws[i])
    ensures ParseInt(ws + s) == ParseInt(s)
  {
    TrimStartSkipsWhiteSpace(ws, s);
  }

  /** Text with no digit where the numeral should start reads as `NaN`. */
  lemma ParseIntWithoutDigits(s: string)
    requires |s| > 0 && !IsStrWhiteSpace(s[0]) && s[0] != '+' && s[0] != '-'
    requires !IsDigit(s[0], 10)
    ensures ParseInt(s) == None
  {
    TrimStartOfUnspaced(s);
    assert Unsigned(s) == s;
    assert !HasHexPrefix(s);
    assert DigitPrefix(s, 10) == [];
  }

  /** `"abc"` reads as `NaN`. */
  lemma ParseIntOfLetters()
    ensures ParseInt("abc") == None
  {
    ParseIntWithoutDigits("abc");
  }

  /** A negative numeral reads as a negative number, after leading white
      space is skipped, and a fraction is cut off. */
  lemma ParseIntOfNegativeFraction()
    ensures ParseInt(" -5.5") == Some(-5)
  {
    TrimStartOfSpacedMinus();
    TrimmedMinusFiveAndAHalf();
  }

  lemma TrimStartOfSpacedMinus()
    ensures TrimStart(" -5.5") == "-5.5"
  {
    assert " -5.5" == [' '] + "-5.5";
    TrimStartOfOneSpace(' ', "-5.5");
  }

  /** One white-space character in front of trimmed text is dropped. */
  lemma TrimStartOfOneSpace(c: char, t: string)
    requires IsStrWhiteSpace(c) && |t| > 0 && !IsStrWhiteSpace(t[0])
    ensures TrimStart([c] + t) == t
  {
    assert ([c] + t)[1..] == t;
    TrimStartOfUnspaced(t);
  }

  lemma TrimmedMinusFiveAndAHalf()
    ensures ParseTrimmed("-5.5") == Some(-5)
  {
    var t := "-5.5";
    assert t[0] == '-' && t[1..] == [DecimalChar(5)] + ".5";
    MagnitudeOfDecimal(5, ".5");
    ParseTrimmedOfMinus(t, 5);
  }

  /** An exponent is cut off. */
  lemma ParseIntOfExponent()
    ensures ParseInt("1e3") == Some(1)
  {
    var s := "1e3";
    assert s[0] == '1' && DigitValue('1') == Some(1);
    assert s == [DecimalChar(1)] + "e3";
    MagnitudeOfDecimal(1, "e3");
    ParseIntOfUnsigned(s, 1);
  }
}
