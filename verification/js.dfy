/** The JavaScript and MySQL value coercions the handlers depend on:
    truthiness (`!x`), `Number(x)` / `isNaN(x)`, `Number.isInteger(x)`,
    `x >= 0`, template-literal rendering of integers, and how MySQL reads a
    bound parameter compared against an INT column. */
module Js {
  import opened Wrappers

  /** A loosely typed request field, reduced to the shapes the handlers
      tell apart.  Non-integral JSON numbers are not represented. */
  datatype Value = Undefined | Null | Bool(b: bool) | Int(n: int) | Str(s: string)

  /** JavaScript truthiness: `!v` is false exactly for these values. */
  predicate Truthy(v: Value) {
    match v
    case Undefined => false
    case Null => false
    case Bool(b) => b
    case Int(n) => n != 0
    case Str(s) => s != ""
  }

  predicate IsDigit(c: char) {
    '0' <= c <= '9'
  }

  predicate AllDigits(s: string) {
    forall i :: 0 <= i < |s| ==> IsDigit(s[i])
  }

  function DigitValue(c: char): (d: nat)
    requires IsDigit(c)
    ensures d < 10
  {
    (c as int - '0' as int) as nat
  }

  function DigitChar(d: nat): (c: char)
    requires d < 10
    ensures IsDigit(c) && DigitValue(c) == d
  {
    ('0' as int + d) as char
  }

  /** Value of a string of decimal digits ("" reads as 0). */
  function ParseDigits(s: string): nat
    requires AllDigits(s)
  {
    if |s| == 0 then 0 else ParseDigits(s[..|s| - 1]) * 10 + DigitValue(s[|s| - 1])
  }

  /** Decimal rendering of a natural number, without leading zeros. */
  function Digits(n: nat): (s: string)
    ensures AllDigits(s) && 0 < |s|
    ensures |s| > 1 ==> s[0] != '0'
  {
    if n < 10 then [DigitChar(n)] else Digits(n / 10) + [DigitChar(n % 10)]
  }

  /** How `${i}` renders an integer. */
  function IntText(i: int): string {
    if i < 0 then "-" + Digits(-i) else Digits(i)
  }

  lemma {:induction false} ParseDigitsOfDigits(n: nat)
    ensures ParseDigits(Digits(n)) == n
  {
    var s := Digits(n);
    if n >= 10 {
      assert s[..|s| - 1] == Digits(n / 10);
      ParseDigitsOfDigits(n / 10);
    }
  }

  /** `Number(s)` for a string: "" reads as 0, decimal digits after an
      optional '+' or '-' read as that integer, anything else is NaN (None).
      Whitespace trimming, decimals, exponents and hex are not modelled. */
  function NumericText(s: string): Option<int> {
    if s == "" then Some(0)
    else if (s[0] == '-' || s[0] == '+') && 1 < |s| && AllDigits(s[1..]) then
      Some(if s[0] == '-' then 0 - ParseDigits(s[1..]) else ParseDigits(s[1..]))
    else if AllDigits(s) then Some(ParseDigits(s))
    else None
  }

  /** `Number("+n")` is n, like `Number("n")`. */
  lemma NumberReadsPlus(n: nat)
    ensures NumericText("+" + Digits(n)) == Some(n)
    ensures NumericText(Digits(n)) == Some(n)
  {
    ParseDigitsOfDigits(n);
    assert ("+" + Digits(n))[1..] == Digits(n);
  }

  lemma IntTextReadsBack(i: int)
    ensures NumericText(IntText(i)) == Some(i)
  {
    if i < 0 {
      ParseDigitsOfDigits(-i);
      assert IntText(i)[1..] == Digits(-i);
    } else {
      ParseDigitsOfDigits(i);
    }
  }

  /** `Number(v)`; None stands for NaN. */
  function ToNumber(v: Value): Option<int> {
    match v
    case Undefined => None
    case Null => Some(0)
    case Bool(b) => Some(if b then 1 else 0)
    case Int(n) => Some(n)
    case Str(s) => NumericText(s)
  }

  /** `isNaN(v)`. */
  predicate IsNaN(v: Value) {
    ToNumber(v).None?
  }

  /** `Number.isInteger(v)`: true only for numbers, never for strings. */
  predicate IsInteger(v: Value) {
    v.Int?
  }

  /** `v >= 0`: both sides go through `Number`, and NaN compares false. */
  predicate AtLeastZero(v: Value) {
    ToNumber(v).Some? && ToNumber(v).value >= 0
  }

  /** The longest run of decimal digits at the front of `s`. */
  function LeadingDigits(s: string): (d: string)
    ensures AllDigits(d) && d <= s
    ensures |d| < |s| ==> !IsDigit(s[|d|])
  {
    if |s| == 0 || !IsDigit(s[0]) then "" else [s[0]] + LeadingDigits(s[1..])
  }

  lemma LeadingDigitsOfDigits(s: string)
    requires AllDigits(s)
    ensures LeadingDigits(s) == s
  {
  }

  /** The characters MySQL skips in front of a number. */
  predicate SqlSpace(c: char) {
    c == ' ' || c == '\t' || c == '\n' || c == '\r' || c == '\U{B}' || c == '\U{C}'
  }

  /** The exponent an `e` or `E` with an optional sign and at least one digit
      gives at the front of `s`; 0 when `s` does not start with one. */
  function Exponent(s: string): int {
    if 0 < |s| && (s[0] == 'e' || s[0] == 'E') then
      var t := s[1..];
      if 0 < |t| && (t[0] == '+' || t[0] == '-') && 0 < |LeadingDigits(t[1..])| then
        (if t[0] == '-' then 0 - ParseDigits(LeadingDigits(t[1..])) else ParseDigits(LeadingDigits(t[1..])))
      else ParseDigits(LeadingDigits(t))
    else 0
  }

  /** A decimal number as MySQL reads it: the value of the digit string
      `digits` times ten to the power `shift`, negated when `negative`. */
  datatype Numeral = Numeral(negative: bool, digits: string, shift: int)

  predicate AllZeros(s: string) {
    forall i :: 0 <= i < |s| ==> s[i] == '0'
  }

  function Zeros(k: nat): (z: string)
    ensures |z| == k && AllDigits(z) && AllZeros(z)
  {
    if k == 0 then "" else Zeros(k - 1) + "0"
  }

  /** How MySQL reads a string in a numeric context: leading whitespace is
      skipped, then `ReadNumeral` reads what is left. */
  function SqlNumeral(s: string): (n: Numeral)
    ensures AllDigits(n.digits)
  {
    if 0 < |s| && SqlSpace(s[0]) then SqlNumeral(s[1..]) else ReadNumeral(s, false)
  }

  /** An optional sign (unless `afterSign`), the integer digits, optionally a
      '.' with fraction digits, optionally an exponent; whatever follows is
      ignored, and a string with no digits there reads as 0. */
  function ReadNumeral(t: string, afterSign: bool): (n: Numeral)
    ensures AllDigits(n.digits)
    decreases |t|, if afterSign then 0 else 1
  {
    if !afterSign then
      if 0 < |t| && (t[0] == '-' || t[0] == '+') then ReadNumeral(t[1..], true).(negative := t[0] == '-')
      else ReadNumeral(t, true)
    else
      var whole := LeadingDigits(t);
      var rest := t[|whole|..];
      var point := 0 < |rest| && rest[0] == '.';
      var frac := if point then LeadingDigits(rest[1..]) else "";
      var tail := if point then rest[1 + |frac|..] else rest;
      Numeral(false, whole + frac, Exponent(tail) - |frac|)
  }

  function Signed(negative: bool, m: nat): int {
    if negative then 0 - m else m
  }

  /** The digits of a numeral in front of its decimal point. */
  function IntegerPart(n: Numeral): (d: string)
    requires AllDigits(n.digits)
    ensures AllDigits(d)
  {
    if n.shift >= 0 then n.digits + Zeros(n.shift)
    else if 0 - n.shift <= |n.digits| then n.digits[..|n.digits| + n.shift]
    else ""
  }

  /** The digits of a numeral behind its decimal point. */
  function FractionPart(n: Numeral): (d: string)
    requires AllDigits(n.digits)
    ensures AllDigits(d)
  {
    if n.shift >= 0 then ""
    else if 0 - n.shift <= |n.digits| then n.digits[|n.digits| + n.shift..]
    else Zeros(0 - n.shift - |n.digits|) + n.digits
  }

  /** The integer a numeral equals, if it is whole. */
  function WholeValue(n: Numeral): (k: Option<int>)
    requires AllDigits(n.digits)
    ensures k.Some? <==> AllZeros(FractionPart(n))
  {
    if AllZeros(FractionPart(n)) then Some(Signed(n.negative, ParseDigits(IntegerPart(n)))) else None
  }

  /** The integer nearest a numeral: its integer part, one further from zero
      when the first fraction digit is 5 or more. */
  function RoundedValue(n: Numeral): (k: int)
    requires AllDigits(n.digits)
    ensures WholeValue(n).Some? ==> k == WholeValue(n).value
  {
    var f := FractionPart(n);
    var up := f != [] && f[0] >= '5';
    Signed(n.negative, ParseDigits(IntegerPart(n)) + (if up then 1 else 0))
  }

  /** The INT value a string compared against an INT column matches.  The
      comparison is made on the numbers, so a string whose reading is not
      whole matches no INT at all (None). */
  function SqlText(s: string): Option<int> {
    WholeValue(SqlNumeral(s))
  }

  /** A bound parameter compared against an INT column: `undefined` and `null`
      become SQL NULL (None), which equals nothing. */
  function SqlInt(v: Value): Option<int> {
    match v
    case Undefined => None
    case Null => None
    case Bool(b) => Some(if b then 1 else 0)
    case Int(n) => Some(n)
    case Str(s) => SqlText(s)
  }

  /** A bound parameter stored into an INT column: a string is read as a
      number and rounded; `undefined` and `null` store NULL. */
  function SqlStored(v: Value): Option<int> {
    match v
    case Str(s) => Some(RoundedValue(SqlNumeral(s)))
    case _ => SqlInt(v)
  }

  /** A value that matches an INT is stored as that INT. */
  lemma StoredMatches(v: Value)
    requires SqlInt(v).Some?
    ensures SqlStored(v) == SqlInt(v)
  {
  }

  /** Blanks in front of a number do not change what it matches. */
  lemma {:induction false} SqlSkipsPadding(pad: string, s: string)
    requires forall i :: 0 <= i < |pad| ==> SqlSpace(pad[i])
    ensures SqlNumeral(pad + s) == SqlNumeral(s)
    ensures SqlText(pad + s) == SqlText(s)
  {
    if pad == [] {
      assert pad + s == s;
    } else {
      assert (pad + s)[0] == pad[0] && SqlSpace(pad[0]);
      assert (pad + s)[1..] == pad[1..] + s;
      SqlSkipsPadding(pad[1..], s);
    }
  }

  lemma LeadingDigitsAppend(d: string, s: string)
    requires AllDigits(d) && (s == [] || !IsDigit(s[0]))
    ensures LeadingDigits(d + s) == d
  {
    if d != [] {
      assert (d + s)[1..] == d[1..] + s;
      LeadingDigitsAppend(d[1..], s);
    }
  }

  /** A string that starts with neither a blank nor a sign is read as an
      unsigned numeral. */
  lemma ReadsUnsigned(s: string)
    requires s == [] || (!SqlSpace(s[0]) && s[0] != '-' && s[0] != '+')
    ensures SqlNumeral(s) == ReadNumeral(s, true)
  {
  }

  /** The numeral of a plain run of digits after an optional sign. */
  lemma {:induction false} ReadSignedDigits(sign: string, d: string)
    requires sign in ["", "-", "+"] && AllDigits(d)
    ensures SqlNumeral(sign + d) == Numeral(sign == "-", d, 0)
  {
    ReadDigits(d);
    if sign == "" {
      assert sign + d == d;
      ReadsUnsigned(d);
    } else {
      var s := sign + d;
      assert s[0] == sign[0] && !SqlSpace(s[0]);
      assert s[1..] == d;
      assert SqlNumeral(s) == ReadNumeral(s, false);
      assert ReadNumeral(s, false) == ReadNumeral(d, true).(negative := sign == "-");
    }
  }

  lemma ReadDigits(d: string)
    requires AllDigits(d)
    ensures ReadNumeral(d, true) == Numeral(false, d, 0)
  {
    LeadingDigitsOfDigits(d);
    assert d[|d|..] == [];
  }

  lemma WholeOfDigits(negative: bool, d: string)
    requires AllDigits(d)
    ensures WholeValue(Numeral(negative, d, 0)) == Some(Signed(negative, ParseDigits(d)))
  {
    assert d + Zeros(0) == d;
  }

  /** A string of digits reads as its value, with or without a '+' sign. */
  lemma SqlReadsDigits(n: nat)
    ensures SqlText(Digits(n)) == Some(n)
    ensures SqlText("+" + Digits(n)) == Some(n)
  {
    var d := Digits(n);
    ParseDigitsOfDigits(n);
    ReadSignedDigits("", d);
    assert "" + d == d;
    ReadSignedDigits("+", d);
    WholeOfDigits(false, d);
  }

  /** A fraction matches an INT only when its fraction digits are all zero:
      "7.0" and "7.00" match 7, "7.5" matches nothing. */
  lemma {:induction false} SqlReadsFraction(n: nat, f: string)
    requires AllDigits(f)
    ensures SqlText(Digits(n) + "." + f) == if AllZeros(f) then Some(n) else None
  {
    var d := Digits(n);
    var s := d + "." + f;
    assert s == d + ("." + f);
    LeadingDigitsAppend(d, "." + f);
    LeadingDigitsOfDigits(f);
    ParseDigitsOfDigits(n);
    assert s[|d|..] == "." + f;
    assert ("." + f)[1..] == f;
    assert ("." + f)[1 + |f|..] == [];
    assert ReadNumeral(s, true) == Numeral(false, d + f, 0 - |f|);
    ReadsUnsigned(s);
    var m := SqlNumeral(s);
    assert IntegerPart(m) == d;
    assert FractionPart(m) == f;
  }

  /** MySQL's readings of a few finger ids the lock or a browser might send. */
  lemma SqlReadsExponent()
    ensures SqlText("1e1") == Some(10)
  {
    assert LeadingDigits("1e1") == "1";
    assert "1e1"[1..] == "e1";
    assert Exponent("e1") == 1;
    assert ReadNumeral("1e1", true) == Numeral(false, "1", 1);
    ReadsUnsigned("1e1");
    assert IntegerPart(Numeral(false, "1", 1)) == "10";
  }

  lemma SqlReadsSpace()
    ensures SqlText(" 7") == Some(7)
  {
    SqlSkipsPadding(" ", "7");
    assert " " + "7" == " 7";
    ReadSignedDigits("", "7");
    assert "" + "7" == "7";
    WholeOfDigits(false, "7");
  }

  lemma SqlReadsTrailing()
    ensures SqlText("7abc") == Some(7)
  {
    assert LeadingDigits("7abc") == "7";
    assert "7abc"[1..] == "abc";
    assert Exponent("abc") == 0;
    assert "7" + "" == "7";
    assert ReadNumeral("7abc", true) == Numeral(false, "7", 0);
    ReadsUnsigned("7abc");
    WholeOfDigits(false, "7");
  }

  lemma SqlStoresRounded()
    ensures SqlStored(Str("1.5")) == Some(2)
  {
    assert LeadingDigits("1.5") == "1";
    assert "1.5"[1..] == ".5";
    assert ".5"[1..] == "5";
    assert LeadingDigits("5") == "5";
    assert ".5"[2..] == "";
    assert Exponent("") == 0;
    assert "1" + "5" == "15";
    assert ReadNumeral("1.5", true) == Numeral(false, "15", -1);
    ReadsUnsigned("1.5");
    assert IntegerPart(Numeral(false, "15", -1)) == "1";
    assert FractionPart(Numeral(false, "15", -1)) == "5";
  }

  /** A string `Number` reads as an integer is matched by MySQL as that
      same integer. */
  lemma SqlAgreesOnText(s: string)
    requires NumericText(s).Some?
    ensures SqlText(s) == NumericText(s)
  {
    if s == "" {
      assert "" + s == s;
      ReadSignedDigits("", s);
      WholeOfDigits(false, "");
    } else if s[0] == '-' && 1 < |s| && AllDigits(s[1..]) {
      assert s == "-" + s[1..];
      ReadSignedDigits("-", s[1..]);
      WholeOfDigits(true, s[1..]);
    } else if s[0] == '+' && 1 < |s| && AllDigits(s[1..]) {
      assert s == "+" + s[1..];
      ReadSignedDigits("+", s[1..]);
      WholeOfDigits(false, s[1..]);
    } else {
      assert "" + s == s;
      ReadSignedDigits("", s);
      WholeOfDigits(false, s);
    }
  }

  /** A rendered integer `${i}` reads back in SQL as i. */
  lemma SqlReadsIntText(i: int)
    ensures SqlText(IntText(i)) == Some(i)
  {
    IntTextReadsBack(i);
    SqlAgreesOnText(IntText(i));
  }

  /** Whenever `Number(v)` is a number and `v` is not null, the SQL
      comparison and JavaScript's `==` agree on which integer `v` denotes. */
  lemma SqlAgreesWithNumber(v: Value)
    requires !IsNaN(v) && !v.Null?
    ensures SqlInt(v) == ToNumber(v)
  {
    if v.Str? {
      SqlAgreesOnText(v.s);
    }
  }
}
