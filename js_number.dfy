/**
 * The number parsing the upload handler calls: parseInt with radix 10
 * (section 19.2.5 of ECMA-262, 2022 edition) and parseFloat (section 19.2.4).
 * Both skip leading white space, read the longest prefix that is a number
 * literal, and ignore whatever follows it.
 */
module JsNumber {
  import opened Wrappers
  import opened JsString

  /** A JavaScript number as far as the handler can observe it: a finite
      value (taken as an exact real; rounding to double precision is not
      modelled), an infinity, or NaN. */
  datatype Number = Finite(value: real) | Infinity(negative: bool) | NaN

  predicate IsDigit(c: char) {
    '0' <= c <= '9'
  }

  predicate AllDigits(s: string) {
    forall i :: 0 <= i < |s| ==> IsDigit(s[i])
  }

  function DigitValue(c: char): (d: nat)
    requires IsDigit(c)
    ensures d < 10
  {
    c as int - '0' as int
  }

  function DigitChar(d: nat): (c: char)
    requires d < 10
    ensures IsDigit(c) && DigitValue(c) == d
  {
    ('0' as int + d) as char
  }

  /** Length of the longest run of decimal digits at the head of s. */
  function DigitRun(s: string): (n: nat)
    ensures n <= |s| && AllDigits(s[..n])
    ensures n < |s| ==> !IsDigit(s[n])
  {
    if |s| > 0 && IsDigit(s[0]) then
      var n := 1 + DigitRun(s[1..]);
      assert s[..n] == [s[0]] + s[1..][..n - 1];
      n
    else 0
  }

  /** The value of a string of decimal digits, most significant first. */
  function DigitsValue(d: string): nat
    requires AllDigits(d)
  {
    if d == [] then 0 else 10 * DigitsValue(d[..|d| - 1]) + DigitValue(d[|d| - 1])
  }

  /** Decimal notation of a natural number, without leading zeros: the text
      a spreadsheet cell holds for a whole-number count. */
  function ShowNat(n: nat): (s: string)
    ensures |s| > 0 && AllDigits(s) && DigitsValue(s) == n
  {
    if n < 10 then [DigitChar(n)]
    else
      var p := ShowNat(n / 10);
      var s := p + [DigitChar(n % 10)];
      assert s[..|s| - 1] == p;
      s
  }

  /** Decimal notation of an integer, with a leading '-' when negative. */
  function ShowInt(n: int): string {
    if n < 0 then "-" + ShowNat(-n) else ShowNat(n)
  }

  /** An optional sign, as a StrDecimalLiteral or a parseInt argument may
      begin with: whether it was '-', and the text after it. */
  function SplitSign(t: string): (r: (bool, string))
    ensures r.0 <==> |t| > 0 && t[0] == '-'
    ensures r.1 == if |t| > 0 && (t[0] == '-' || t[0] == '+') then t[1..] else t
  {
    if |t| > 0 && (t[0] == '-' || t[0] == '+') then (t[0] == '-', t[1..]) else (false, t)
  }

  /** An optional sign followed by the longest run of decimal digits;
      None when no digit follows the sign. */
  function LeadingInteger(t: string): (r: Option<int>)
    ensures r == None <==> NoDigitAfterSign(t)
  {
    var (negative, u) := SplitSign(t);
    var n := DigitRun(u);
    if n == 0 then None
    else
      var magnitude: int := DigitsValue(u[..n]);
      Some(if negative then -magnitude else magnitude)
  }

  /** The text after t's optional sign does not start with a digit. */
  predicate NoDigitAfterSign(t: string) {
    var u := SplitSign(t).1;
    u == [] || !IsDigit(u[0])
  }

  /** parseInt(s, 10); None stands for NaN, which it gives exactly when no
      digit follows the leading white space and the optional sign. */
  function ParseInt(s: string): (r: Option<int>)
    ensures r == None <==> NoDigitAfterSign(TrimStart(s))
  {
    LeadingInteger(TrimStart(s))
  }

  function Pow10(e: nat): (p: real)
    ensures p >= 1.0
  {
    if e == 0 then 1.0 else 10.0 * Pow10(e - 1)
  }

  /** 10 raised to an integer exponent. */
  function Scale(e: int): (p: real)
    ensures p > 0.0
  {
    if e >= 0 then Pow10(e) else 1.0 / Pow10(-e)
  }

  /** The ExponentPart at the head of rest, or 0 when there is none: an 'e'
      or 'E' not followed by digits belongs to the ignored tail. */
  function ExponentOf(rest: string): int {
    if |rest| == 0 || (rest[0] != 'e' && rest[0] != 'E') then 0
    else match LeadingInteger(rest[1..])
      case None => 0
      case Some(e) => e
  }

  /** m times 10 raised to e. */
  function Scaled(m: real, e: int): real {
    m * Scale(e)
  }

  /** A negative exponent divides by a power of 10. */
  lemma ScaledDown(m: real, k: nat)
    ensures Scaled(m, -(k as int)) == m / Pow10(k)
  {
    var p := Pow10(k);
    if k == 0 {
      assert Scale(0) == 1.0;
    } else {
      assert Scale(-(k as int)) == 1.0 / p;
      assert m * (1.0 / p) == m / p;
    }
  }

  /** The value of integer digits d1, a decimal point and fraction digits d2. */
  function DecimalValue(d1: string, d2: string): real
    requires AllDigits(d1) && AllDigits(d2)
  {
    DigitsValue(d1) as real + DigitsValue(d2) as real / Pow10(|d2|)
  }

  /** The unsigned decimal literal at the head of u: digits, an optional
      '.' and fraction digits (at least one digit in all), an optional
      exponent. None when u starts with no such literal. */
  function ParseDecimal(u: string): (r: Option<real>)
    ensures r == None <==> !StartsDecimal(u)
  {
    var i := DigitRun(u);
    if i < |u| && u[i] == '.' then
      var t := u[i + 1..];
      var f := DigitRun(t);
      if i == 0 && f == 0 then None
      else Some(Scaled(DecimalValue(u[..i], t[..f]), ExponentOf(t[f..])))
    else if i == 0 then None
    else Some(Scaled(DigitsValue(u[..i]) as real, ExponentOf(u[i..])))
  }

  /** u starts a StrUnsignedDecimalLiteral: a digit, or a '.' followed by
      a digit. */
  predicate StartsDecimal(u: string) {
    (u != [] && IsDigit(u[0])) || (|u| >= 2 && u[0] == '.' && IsDigit(u[1]))
  }

  /** u starts with "Infinity". */
  predicate StartsInfinity(u: string) {
    |u| >= 8 && u[..8] == "Infinity"
  }

  /** u starts neither with "Infinity" nor with a decimal literal. */
  predicate NoNumberAt(u: string) {
    !StartsInfinity(u) && !StartsDecimal(u)
  }

  /** parseFloat(s): after the leading white space and the optional sign,
      "Infinity" gives an infinity, and NaN comes exactly when no decimal
      literal starts there either. */
  function ParseFloat(s: string): (x: Number)
    ensures x.Infinity? <==> StartsInfinity(SplitSign(TrimStart(s)).1)
    ensures x == NaN <==> NoNumberAt(SplitSign(TrimStart(s)).1)
  {
    var (negative, u) := SplitSign(TrimStart(s));
    if StartsInfinity(u) then Infinity(negative)
    else match ParseDecimal(u)
      case None => NaN
      case Some(x) => Finite(if negative then -x else x)
  }

  /** A run of digits followed by a non-digit is read up to its end, and
      splits the text into those digits and what follows them. */
  lemma {:induction false} DigitRunOfDigits(d: string, rest: string)
    requires AllDigits(d) && (rest == [] || !IsDigit(rest[0]))
    ensures DigitRun(d + rest) == |d|
    ensures (d + rest)[..|d|] == d && (d + rest)[|d|..] == rest
  {
    if d != [] {
      assert (d + rest)[1..] == d[1..] + rest;
      DigitRunOfDigits(d[1..], rest);
    }
  }

  /** d digits are worth less than 10^|d|. */
  lemma {:induction false} DigitsBelowPow10(d: string)
    requires AllDigits(d)
    ensures DigitsValue(d) as real + 1.0 <= Pow10(|d|)
  {
    if d != [] {
      DigitsBelowPow10(d[..|d| - 1]);
    }
  }

  /** Leading white space is skipped by both parsers alike. */
  lemma TrimStartSkipsBlank(p: string, s: string)
    requires AllWhiteSpace(p)
    ensures TrimStart(p + s) == TrimStart(s)
  {
    var a := |s| - |TrimStart(s)|;
    assert BlankBetween(p + s, 0, |p| + a) by {
      forall i | 0 <= i < |p| + a ensures IsWhiteSpace((p + s)[i]) {
        if i < |p| { assert (p + s)[i] == p[i]; } else { assert (p + s)[i] == s[i - |p|]; }
      }
    }
    assert |p| + a < |p + s| ==> (p + s)[|p| + a] == TrimStart(s)[0];
    TrimStartAt(p + s, |p| + a);
    assert (p + s)[|p| + a..] == s[a..];
  }

  /** Text that does not start with white space is left as it is by the
      parsers' leading-blank skip. */
  lemma TrimStartKeeps(s: string)
    requires s != [] && !IsWhiteSpace(s[0])
    ensures TrimStart(s) == s
  {
  }

  /** An optional '-' and a run of digits read as an integer. */
  lemma LeadingIntegerOfDigits(negative: bool, d: string, rest: string)
    requires d != [] && AllDigits(d) && (rest == [] || !IsDigit(rest[0]))
    ensures var x := if negative then "-" + (d + rest) else d + rest;
      LeadingInteger(x) == Some(if negative then -(DigitsValue(d) as int) else DigitsValue(d))
  {
    var u := d + rest;
    var x := if negative then "-" + u else u;
    assert SplitSign(x) == (negative, u) by {
      if negative { assert x[1..] == u; } else { assert x[0] == d[0]; }
    }
    DigitRunOfDigits(d, rest);
  }

  /** A digit, a sign or a point is not white space. */
  lemma NotBlank(c: char)
    requires IsDigit(c) || c == '-' || c == '+' || c == '.'
    ensures !IsWhiteSpace(c)
  {
  }

  /** parseInt of digits followed by non-digit text is the digits' value. */
  lemma ParseIntDigits(d: string, rest: string)
    requires d != [] && AllDigits(d) && (rest == [] || !IsDigit(rest[0]))
    ensures ParseInt(d + rest) == Some(DigitsValue(d))
  {
    NotBlank(d[0]);
    assert (d + rest)[0] == d[0];
    TrimStartKeeps(d + rest);
    LeadingIntegerOfDigits(false, d, rest);
  }

  /** parseInt reads back any integer written in decimal notation, whatever
      non-digit text follows it. */
  lemma ParseIntShow(n: int, rest: string)
    requires rest == [] || !IsDigit(rest[0])
    ensures ParseInt(ShowInt(n) + rest) == Some(n)
  {
    if n < 0 {
      ParseIntNegative(ShowNat(-n), rest);
    } else {
      ParseIntDigits(ShowNat(n), rest);
    }
  }

  /** parseInt of '-', digits and non-digit text is minus the digits' value. */
  lemma ParseIntNegative(d: string, rest: string)
    requires d != [] && AllDigits(d) && (rest == [] || !IsDigit(rest[0]))
    ensures ParseInt("-" + d + rest) == Some(-(DigitsValue(d) as int))
  {
    var x := "-" + (d + rest);
    assert "-" + d + rest == x;
    NotBlank('-');
    TrimStartKeeps(x);
    LeadingIntegerOfDigits(true, d, rest);
  }

  /** parseInt stops at the decimal point: k.d reads as k. */
  lemma ParseIntStopsAtPoint(k: nat, d: string)
    ensures ParseInt(ShowNat(k) + "." + d) == Some(k)
  {
    var s := ShowNat(k);
    ParseIntBeforePoint(s + "." + d, s, d);
  }

  /** Digits, a point and any text read as the digits' value. */
  lemma ParseIntBeforePoint(u: string, s: string, d: string)
    requires s != [] && AllDigits(s) && u == s + "." + d
    ensures ParseInt(u) == Some(DigitsValue(s))
  {
    assert u == s + ("." + d);
    ParseIntDigits(s, "." + d);
  }

  /** White space before the number changes nothing. */
  lemma ParseIntSkipsBlank(p: string, s: string)
    requires AllWhiteSpace(p)
    ensures ParseInt(p + s) == ParseInt(s)
  {
    TrimStartSkipsBlank(p, s);
  }

  /** Text that starts with neither white space nor digits after its
      optional sign gives NaN. */
  lemma ParseIntNoDigit(s: string)
    requires s != [] && !IsWhiteSpace(s[0])
    requires var u := if s[0] == '-' || s[0] == '+' then s[1..] else s;
      u == [] || !IsDigit(u[0])
    ensures ParseInt(s) == None
  {
    TrimStartKeeps(s);
  }

  /** "42" followed by non-digit text reads as 42. */
  lemma FortyTwo(rest: string)
    requires rest == [] || !IsDigit(rest[0])
    ensures ParseInt("42" + rest) == Some(42)
  {
    var d := "42";
    assert DigitsValue(d) == 42 by { assert d[..1] == "4"; }
    ParseIntDigits(d, rest);
  }

  /** Joining the literals of the count examples. */
  lemma IntegerSpelling()
    ensures "42" + "" == "42" && "42" + "abc" == "42abc"
  {
  }

  /** k.d lies in [k, k + 1). */
  lemma DecimalValueBounds(k: nat, d: string)
    requires AllDigits(d)
    ensures k as real <= DecimalValue(ShowNat(k), d) < k as real + 1.0
  {
    DigitsBelowPow10(d);
    FractionBelowOne(DigitsValue(d) as real, Pow10(|d|));
  }

  /** A quotient of a smaller by a larger non-negative number is a fraction. */
  lemma FractionBelowOne(n: real, p: real)
    requires 0.0 <= n < p
    ensures 0.0 <= n / p < 1.0
  {
  }

  /** Digits, a point, digits, and then text that starts with no digit:
      the literal's value, scaled by whatever exponent follows it. */
  lemma ParseDecimalPoint(u: string, d1: string, d2: string, x: string)
    requires AllDigits(d1) && AllDigits(d2) && |d1| + |d2| > 0
    requires x == [] || !IsDigit(x[0])
    requires u == d1 + "." + d2 + x
    ensures ParseDecimal(u) == Some(Scaled(DecimalValue(d1, d2), ExponentOf(x)))
  {
    var tail := d2 + x;
    Regroup(d1, ".", d2, x);
    assert u == d1 + ("." + tail);
    DigitRunOfDigits(d1, "." + tail);
    DigitRunOfDigits(d2, x);
    assert u[|d1|] == '.' && u[|d1| + 1..] == tail;
  }

  /** The unsigned decimal literal digits '.' digits is read as its value. */
  lemma ParseDecimalLiteral(d1: string, d2: string, rest: string)
    requires AllDigits(d1) && AllDigits(d2) && |d1| + |d2| > 0
    requires rest == [] || (!IsDigit(rest[0]) && rest[0] != 'e' && rest[0] != 'E')
    ensures ParseDecimal(d1 + "." + d2 + rest) == Some(DecimalValue(d1, d2))
  {
    ParseDecimalPoint(d1 + "." + d2 + rest, d1, d2, rest);
    assert ExponentOf(rest) == 0;
    ScaledDown(DecimalValue(d1, d2), 0);
  }

  /** An unsigned literal needs no sign or blank handling: parseFloat is
      the value ParseDecimal reads. */
  lemma ParseFloatUnsigned(u: string)
    requires u != [] && (IsDigit(u[0]) || u[0] == '.')
    ensures ParseFloat(u) == match ParseDecimal(u) case None => NaN case Some(x) => Finite(x)
  {
    TrimStartKeeps(u);
    assert SplitSign(u).1 == u;
    if |u| >= 8 { assert u[..8][0] == u[0]; }
  }

  /** An unsigned literal read by ParseDecimal is what parseFloat gives. */
  lemma ParseFloatOfDecimal(u: string, v: real)
    requires u != [] && (IsDigit(u[0]) || u[0] == '.') && ParseDecimal(u) == Some(v)
    ensures ParseFloat(u) == Finite(v)
  {
    ParseFloatUnsigned(u);
  }

  /** parseFloat of a plain decimal literal (digits, '.', digits) is its
      exact value, whatever follows that is neither a digit nor an exponent. */
  lemma ParseFloatDecimal(d1: string, d2: string, rest: string)
    requires AllDigits(d1) && AllDigits(d2) && |d1| + |d2| > 0
    requires rest == [] || (!IsDigit(rest[0]) && rest[0] != 'e' && rest[0] != 'E')
    ensures ParseFloat(d1 + "." + d2 + rest) == Finite(DecimalValue(d1, d2))
  {
    var u := d1 + "." + d2 + rest;
    assert u[0] == (if d1 == [] then '.' else d1[0]);
    ParseDecimalLiteral(d1, d2, rest);
    ParseFloatUnsigned(u);
  }

  /** Digits followed by neither a digit nor a point: the literal's value
      is the digits' value, scaled by whatever exponent follows them. */
  lemma ParseDecimalNoPoint(u: string, d: string, x: string)
    requires d != [] && AllDigits(d)
    requires x == [] || (!IsDigit(x[0]) && x[0] != '.')
    requires u == d + x
    ensures ParseDecimal(u) == Some(Scaled(DigitsValue(d) as real, ExponentOf(x)))
  {
    DigitRunOfDigits(d, x);
    assert |d| < |u| ==> u[|d|] == x[0];
  }

  /** An 'e' or 'E', '-' and the digits of k make the exponent -k. */
  lemma NegativeExponent(x: string, e: char, k: nat, rest: string)
    requires e == 'e' || e == 'E'
    requires rest == [] || !IsDigit(rest[0])
    requires x == [e, '-'] + ShowNat(k) + rest
    ensures ExponentOf(x) == -(k as int)
  {
    assert x[0] == e;
    assert x[1..] == "-" + (ShowNat(k) + rest);
    LeadingIntegerOfDigits(true, ShowNat(k), rest);
  }

  /** Concatenation regrouped. */
  lemma Regroup<T>(a: seq<T>, b: seq<T>, c: seq<T>, r: seq<T>)
    ensures a + b + c + r == a + (b + c + r)
  {
  }

  /** Digits, an 'e' or 'E', '-' and an exponent k read as the digits'
      value divided by 10^k, whatever non-digit text follows. */
  lemma ParseFloatExponent(d: string, e: char, k: nat, rest: string)
    requires d != [] && AllDigits(d) && (e == 'e' || e == 'E')
    requires rest == [] || !IsDigit(rest[0])
    ensures ParseFloat(d + [e, '-'] + ShowNat(k) + rest) == Finite(DigitsValue(d) as real / Pow10(k))
  {
    var x := [e, '-'] + ShowNat(k) + rest;
    var u := d + x;
    var v := DigitsValue(d) as real;
    NegativeExponent(x, e, k, rest);
    ParseDecimalNoPoint(u, d, x);
    ScaledDown(v, k);
    assert u[0] == d[0];
    ParseFloatOfDecimal(u, v / Pow10(k));
    Regroup(d, [e, '-'], ShowNat(k), rest);
  }

  /** parseFloat reads back a natural number written in decimal notation. */
  lemma ParseFloatShow(n: nat, rest: string)
    requires rest == [] || (!IsDigit(rest[0]) && rest[0] != '.' && rest[0] != 'e' && rest[0] != 'E')
    ensures ParseFloat(ShowNat(n) + rest) == Finite(n as real)
  {
    var d := ShowNat(n);
    var u := d + rest;
    assert u[0] == d[0];
    ParseDecimalNoPoint(u, d, rest);
    assert ExponentOf(rest) == 0;
    ScaledDown(n as real, 0);
    ParseFloatOfDecimal(u, n as real);
  }

  /** The values of the pass-rate examples' digits. */
  lemma DecimalValueExamples()
    ensures DecimalValue("0", "8532") == 0.8532
    ensures DecimalValue("85", "32") == 85.32
  {
    assert "8532"[..3] == "853" && "853"[..2] == "85" && "85"[..1] == "8" && "32"[..1] == "3";
    assert Pow10(4) == 10000.0;
  }

  /** Joining the literals of the pass-rate examples. */
  lemma LiteralSpelling()
    ensures "0" + "." + "8532" + "" == "0.8532"
    ensures "85" + "." + "32" + "" == "85.32"
  {
  }

  /** A fraction written as text. */
  lemma ParseFloatFraction()
    ensures ParseFloat("0.8532") == Finite(0.8532)
  {
    ParseFloatDecimal("0", "8532", "");
    LiteralSpelling();
    DecimalValueExamples();
  }

  /** A percentage written as text. */
  lemma ParseFloatPercentage()
    ensures ParseFloat("85.32") == Finite(85.32)
  {
    ParseFloatDecimal("85", "32", "");
    LiteralSpelling();
    DecimalValueExamples();
  }

  /** Text whose first character can start neither a number nor
      "Infinity", nor is white space or a sign, gives NaN. */
  lemma ParseFloatNoNumber(s: string)
    requires s != [] && !IsWhiteSpace(s[0]) && !IsDigit(s[0])
    requires s[0] != '+' && s[0] != '-' && s[0] != '.' && s[0] != 'I'
    ensures ParseFloat(s) == NaN
  {
    TrimStartKeeps(s);
    if |s| >= 8 { assert s[..8][0] == s[0]; }
  }
}
