/** Python's `int(s)` for a string in base 10, and its inverse `str(n)`. */
module PyInt {
  import opened Exceptions
  import opened PyStr

  predicate IsDigit(c: char) {
    '0' <= c <= '9'
  }

  function DigitValue(c: char): nat
    requires IsDigit(c)
  {
    c as int - '0' as int
  }

  function DigitChar(d: nat): (c: char)
    requires d < 10
    ensures IsDigit(c) && DigitValue(c) == d
  {
    ('0' as int + d) as char
  }

  /** The body `int()` accepts after the optional sign: ASCII digits, with a
      single underscore allowed between two digits. */
  predicate DigitGroups(s: string) {
    && |s| > 0
    && IsDigit(s[0]) && IsDigit(s[|s| - 1])
    && (forall k :: 0 <= k < |s| ==> IsDigit(s[k]) || s[k] == '_')
    && (forall k :: 0 < k < |s| && s[k] == '_' ==> s[k - 1] != '_')
  }

  /** The number a digit string denotes, underscores skipped. */
  function DigitsValue(s: string): nat
    decreases |s|
  {
    if |s| == 0 then 0
    else if IsDigit(s[|s| - 1]) then DigitsValue(s[..|s| - 1]) * 10 + DigitValue(s[|s| - 1])
    else DigitsValue(s[..|s| - 1])
  }

  /** `int(s)`, with None where Python raises ValueError: surrounding
      whitespace is skipped, then comes an optional `+` or `-` and digit groups. */
  function ParseInt(s: string): Option<int> {
    ParseSigned(StripBy(s, IntWhitespace))
  }

  /** `int()` raises on a string without a digit. */
  lemma ParseIntNeedsDigit(s: string)
    requires ParseInt(s).Some?
    ensures exists k :: 0 <= k < |s| && IsDigit(s[k])
  {
    var t := StripBy(s, IntWhitespace);
    StripByFactor(s, IntWhitespace);
    assert t[|t| - 1] in s;
  }

  /** The literal between the whitespace: an optional sign, then digit groups. */
  function ParseSigned(t: string): (r: Option<int>)
    ensures r.Some? ==> |t| > 0 && IsDigit(t[|t| - 1])
  {
    var signed := |t| > 0 && (t[0] == '+' || t[0] == '-');
    var body := if signed then t[1..] else t;
    if DigitGroups(body) then
      var v: int := DigitsValue(body);
      Some(if signed && t[0] == '-' then -v else v)
    else
      None
  }

  /** `str(n)` for a natural number: its shortest decimal digit string. */
  function NatDecimal(n: nat): (r: string)
    ensures |r| > 0
    ensures forall k :: 0 <= k < |r| ==> IsDigit(r[k])
  {
    if n < 10 then [DigitChar(n)] else NatDecimal(n / 10) + [DigitChar(n % 10)]
  }

  /** `str(n)` */
  function Decimal(n: int): (r: string)
  {
    if n < 0 then "-" + NatDecimal(-n) else NatDecimal(n)
  }

  /** Reading the digits `str` writes gives back the number. */
  lemma {:induction false} NatDecimalValue(n: nat)
    ensures DigitsValue(NatDecimal(n)) == n
  {
    if n >= 10 {
      var r := NatDecimal(n);
      NatDecimalValue(n / 10);
      assert r[..|r| - 1] == NatDecimal(n / 10);
    }
  }

  /** `int()` inverts `str()` on the bare literal. */
  lemma ParseSignedDecimal(n: int)
    ensures ParseSigned(Decimal(n)) == Some(n)
  {
    var m: nat := if n < 0 then -n else n;
    var digits := NatDecimal(m);
    NatDecimalValue(m);
    DecimalGroups(m);
    if n < 0 {
      assert Decimal(n) == "-" + digits;
      assert Decimal(n)[1..] == digits;
      assert Decimal(n)[0] == '-';
    } else {
      assert Decimal(n) == digits;
      assert digits[0] != '+' && digits[0] != '-';
    }
  }

  /** The digits `str` writes are one digit group. */
  lemma DecimalGroups(n: nat)
    ensures DigitGroups(NatDecimal(n))
  {
  }

  /** `int()` inverts `str()`, whatever whitespace surrounds the literal. */
  lemma ParseDecimal(w1: string, n: int, w2: string)
    requires forall k :: 0 <= k < |w1| ==> InClass(w1[k], IntWhitespace)
    requires forall k :: 0 <= k < |w2| ==> InClass(w2[k], IntWhitespace)
    ensures ParseInt(w1 + Decimal(n) + w2) == Some(n)
  {
    var d := Decimal(n);
    var digits := NatDecimal(if n < 0 then -n else n);
    assert d[|d| - 1] == digits[|digits| - 1];
    StripExact(w1, d, w2, IntWhitespace);
    ParseSignedDecimal(n);
  }
}
