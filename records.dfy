/**
 * The record the /upload handler builds from one trimmed row
 * (server.js:43-65): JavaScript "value or default" choices for the text
 * columns, parseInt for the four counts, and the fraction-or-percentage
 * branch for the pass rate.
 */
module Records {
  import opened Wrappers
  import opened JsString
  import opened JsNumber
  import opened Rows

  /** One normalised record. A text column holds the cell's own value (a
      number stays a number); a count is None where JavaScript has NaN; the
      pass rate is None where JavaScript has null. */
  datatype Record = Record(
    release: Value,
    wcBuild: Value,
    passRate: Option<Number>,
    totalCount: Option<int>,
    passed: Option<int>,
    failed: Option<int>,
    skipped: Option<int>,
    runStatus: Value,
    runtime: Value,
    serverUrl: Value,
    resultLink: Value)

  /** The column names the builder reads. */
  const Columns: set<string> := {
    "Release", "WC - Build Number", "Pass Rate", "Test Case Count",
    "Test Case Pass Count", "Test Case Fail Count", "Test Case Skipped Count",
    "Run Status", "Runtime", "Server URL", "Result Link"
  }

  /** The record of a row that has none of the columns. */
  const DefaultRecord := Record(
    Str(""), Str("N/A"), None, Some(0), Some(0), Some(0), Some(0),
    Str(""), Str(""), Str("#"), Str("#"))

  /** tRow[key]. An absent property reads as undefined, which every use
      below treats exactly as null. */
  function Get(t: map<string, Value>, key: string): Value {
    if key in t then t[key] else Null
  }

  /** `value || default`: never null, the value itself when it is truthy,
      and unpadded when both the value and the default are. */
  function OrDefault(v: Value, default: string): (r: Value)
    ensures r != Null && (Truthy(v) ==> r == v)
    ensures default != "" ==> Truthy(r)
    ensures TrimmedValue(v) && Trimmed(default) ==> TrimmedValue(r)
  {
    if Truthy(v) then v else Str(default)
  }

  /** The integer part of a number, as parseInt reads it back from the
      number's decimal string form. */
  function Truncate(x: real): (n: int)
    ensures 0.0 <= x ==> 0 <= n && n as real <= x < n as real + 1.0
    ensures x < 0.0 ==> n <= 0 && n as real - 1.0 < x <= n as real
  {
    if x >= 0.0 then x.Floor else -((-x).Floor)
  }

  /** String(value) for a boolean or null. */
  function ToText(v: Value): string
    requires v.Bool? || v.Null?
  {
    match v
    case Bool(b) => if b then "true" else "false"
    case Null => "null"
  }

  /** A non-negative number in [k, k + 1) truncates to k. */
  lemma TruncateBetween(x: real, k: nat)
    requires k as real <= x < k as real + 1.0
    ensures Truncate(x) == k
  {
    var n := Truncate(x);
    assert n as real <= x < n as real + 1.0;
    assert n < k + 1 && k < n + 1;
  }

  /** parseInt(value, 10): the value is converted to a string first, so a
      boolean or null is parseInt of its text, which has no digits. */
  function IntOf(v: Value): (n: Option<int>)
    ensures n.Some? ==> v.Num? || v.Str?
    ensures v.Num? ==> n == Some(Truncate(v.n))
    ensures v.Str? ==> n == ParseInt(v.s)
    ensures v.Bool? || v.Null? ==> n == ParseInt(ToText(v))
  {
    match v
    case Str(s) => ParseInt(s)
    case Num(n) => Some(Truncate(n))
    case _ => ParseIntNoDigit(ToText(v)); None
  }

  /** `value ? parseInt(value, 10) : 0`: every falsy cell gives 0, and NaN
      comes only from `true` or from non-empty text parseInt cannot read. */
  function Count(v: Value): (c: Option<int>)
    ensures !Truthy(v) ==> c == Some(0)
    ensures c == None <==> v == Bool(true) || (v.Str? && v.s != [] && ParseInt(v.s) == None)
  {
    if Truthy(v) then IntOf(v) else Some(0)
  }

  /** parseFloat(value): the value is converted to a string first; a
      number's string form reads back as the number itself, and a boolean
      or null is parseFloat of its text, which is no number. */
  function FloatOf(v: Value): (x: Number)
    ensures v.Num? ==> x == Finite(v.n)
    ensures v.Str? ==> x == ParseFloat(v.s)
    ensures v.Bool? || v.Null? ==> x == ParseFloat(ToText(v))
    ensures !x.NaN? ==> v.Num? || v.Str?
  {
    match v
    case Str(s) => ParseFloat(s)
    case Num(n) => Finite(n)
    case _ => ParseFloatNoNumber(ToText(v)); NaN
  }

  /** `x < 1` on a JavaScript number: false for NaN. */
  predicate BelowOne(x: Number) {
    match x
    case Finite(r) => r < 1.0
    case Infinity(negative) => negative
    case NaN => false
  }

  /** `x * 100` on a JavaScript number. */
  function Times100(x: Number): Number {
    match x
    case Finite(r) => Finite(100.0 * r)
    case _ => x
  }

  /** The pass-rate branch (server.js:46-52), without the rounding to two
      decimals: null stays null, a value below 1 is a fraction and is
      scaled to a percentage, any other value is kept. */
  function PassRate(raw: Value): (p: Option<Number>)
    ensures p == None <==> raw == Null
    ensures raw != Null ==> (p == Some(NaN) <==> FloatOf(raw) == NaN)
    ensures raw != Null && FloatOf(raw).Finite? && FloatOf(raw).value >= 1.0 ==> p == Some(FloatOf(raw))
  {
    if raw == Null then None
    else
      var v := FloatOf(raw);
      if BelowOne(v) then Some(Times100(v)) else Some(v)
  }

  /** The object literal of server.js:53-65, for a trimmed row t: no text
      column is null, three of them are never falsy, and text cells that
      carry no padding give text columns that carry none. */
  function BuildRecord(t: map<string, Value>): (r: Record)
    ensures r.release != Null && r.runStatus != Null && r.runtime != Null
    ensures Truthy(r.wcBuild) && Truthy(r.serverUrl) && Truthy(r.resultLink)
    ensures (forall k :: k in t ==> TrimmedValue(t[k])) ==> CleanText(r)
  {

    Record(
      release := OrDefault(Get(t, "Release"), ""),
      wcBuild := OrDefault(Get(t, "WC - Build Number"), "N/A"),
      passRate := PassRate(Get(t, "Pass Rate")),
      totalCount := Count(Get(t, "Test Case Count")),
      passed := Count(Get(t, "Test Case Pass Count")),
      failed := Count(Get(t, "Test Case Fail Count")),
      skipped := Count(Get(t, "Test Case Skipped Count")),
      runStatus := OrDefault(Get(t, "Run Status"), ""),
      runtime := OrDefault(Get(t, "Runtime"), ""),
      serverUrl := OrDefault(Get(t, "Server URL"), "#"),
      resultLink := OrDefault(Get(t, "Result Link"), "#"))
  }

  /** The record for one raw row: trimRowValues, then the builder. Its
      text columns are never null and carry no padding. */
  function NormalizeRow(row: Row): (r: Record)
    ensures CleanText(r)
  {
    TrimmedRowIsTrimmed(row);
    BuildRecord(TrimmedRow(row))
  }

  /** No text column of r is null, and none carries padding. */
  predicate CleanText(r: Record) {
    && r.release != Null && TrimmedValue(r.release)
    && r.wcBuild != Null && TrimmedValue(r.wcBuild)
    && r.runStatus != Null && TrimmedValue(r.runStatus)
    && r.runtime != Null && TrimmedValue(r.runtime)
    && r.serverUrl != Null && TrimmedValue(r.serverUrl)
    && r.resultLink != Null && TrimmedValue(r.resultLink)
  }

  /** The text columns of a record, in declaration order. */
  function TextColumns(r: Record): seq<Value> {
    [r.release, r.wcBuild, r.runStatus, r.runtime, r.serverUrl, r.resultLink]
  }

  /** The counts of a record, in declaration order. */
  function Counts(r: Record): seq<Option<int>> {
    [r.totalCount, r.passed, r.failed, r.skipped]
  }

  /** A row none of whose property names trims to a column name gives the
      all-default record. */
  lemma NoColumnsGivesDefaults(row: Row)
    requires forall i :: 0 <= i < |row| ==> Trim(row[i].0) !in Columns
    ensures NormalizeRow(row) == DefaultRecord
  {
    TrimmedRowKeys(row);
    assert forall k :: k in Columns ==> k !in TrimmedRow(row);
  }

  /** The column a text field reads and the default it falls back to. */
  const TextKeys: seq<string> :=
    ["Release", "WC - Build Number", "Run Status", "Runtime", "Server URL", "Result Link"]
  const TextDefaults: seq<string> := ["", "N/A", "", "", "#", "#"]

  /** The column a count reads. */
  const CountKeys: seq<string> :=
    ["Test Case Count", "Test Case Pass Count", "Test Case Fail Count", "Test Case Skipped Count"]

  /** Text column i of the record built from a trimmed row. */
  lemma TextColumnRule(t: map<string, Value>, i: int)
    requires 0 <= i < 6
    ensures var v := Get(t, TextKeys[i]);
      TextColumns(BuildRecord(t))[i] == if Truthy(v) then v else Str(TextDefaults[i])
  {
  }

  /** Count i of the record built from a trimmed row. */
  lemma CountColumnRule(t: map<string, Value>, i: int)
    requires 0 <= i < 4
    ensures var v := Get(t, CountKeys[i]);
      Counts(BuildRecord(t))[i] == if Truthy(v) then IntOf(v) else Some(0)
  {
  }

  /** A text column whose name no property's name trims to gets its default. */
  lemma TextColumnAbsent(row: Row, c: int)
    requires 0 <= c < 6
    requires forall j :: 0 <= j < |row| ==> Trim(row[j].0) != TextKeys[c]
    ensures TextColumns(NormalizeRow(row))[c] == Str(TextDefaults[c])
  {
    TrimmedRowKeys(row);
    TextColumnRule(TrimmedRow(row), c);
  }

  /** Otherwise the last property whose name trims to the column's name
      supplies it: that property's value, a string trimmed, when it is
      truthy, and the column's default when it is falsy. A number is not
      turned into a string. */
  lemma TextColumnFromCell(row: Row, c: int, i: int)
    requires 0 <= c < 6 && 0 <= i < |row| && Trim(row[i].0) == TextKeys[c]
    requires forall j :: i < j < |row| ==> Trim(row[j].0) != TextKeys[c]
    ensures var v := TrimValue(row[i].1);
      TextColumns(NormalizeRow(row))[c] == if Truthy(v) then v else Str(TextDefaults[c])
  {
    LastWriteWins(row, i);
    TextColumnRule(TrimmedRow(row), c);
  }

  /** A count whose name no property's name trims to is 0. */
  lemma CountAbsent(row: Row, c: int)
    requires 0 <= c < 4
    requires forall j :: 0 <= j < |row| ==> Trim(row[j].0) != CountKeys[c]
    ensures Counts(NormalizeRow(row))[c] == Some(0)
  {
    TrimmedRowKeys(row);
    CountColumnRule(TrimmedRow(row), c);
  }

  /** Otherwise the last property whose name trims to the count's name
      supplies it: parseInt of that property's value, a string trimmed,
      when it is truthy, and 0 when it is falsy. */
  lemma CountFromCell(row: Row, c: int, i: int)
    requires 0 <= c < 4 && 0 <= i < |row| && Trim(row[i].0) == CountKeys[c]
    requires forall j :: i < j < |row| ==> Trim(row[j].0) != CountKeys[c]
    ensures var v := TrimValue(row[i].1);
      Counts(NormalizeRow(row))[c] == if Truthy(v) then IntOf(v) else Some(0)
  {
    LastWriteWins(row, i);
    CountColumnRule(TrimmedRow(row), c);
  }

  /** A count cell holding an integer's decimal text, with or without
      trailing text, yields that integer. */
  lemma CountOfText(n: int, rest: string)
    requires rest == [] || !IsDigit(rest[0])
    ensures Count(Str(ShowInt(n) + rest)) == Some(n)
  {
    ParseIntShow(n, rest);
  }

  /** A numeric count cell yields its integer part; 0 stays 0. */
  lemma CountOfNumber(x: real)
    ensures Count(Num(x)) == Some(Truncate(x))
    ensures x == x.Floor as real ==> Count(Num(x)) == Some(x.Floor)
  {
  }

  /** A non-negative number k.d truncates to k, which is what parseInt
      reads from its decimal text: a numeric count cell and the same number
      written as text give the same count. */
  lemma NumberCountIsTextCount(k: nat, d: string)
    requires AllDigits(d)
    ensures IntOf(Num(DecimalValue(ShowNat(k), d))) == Some(k)
    ensures IntOf(Str(ShowNat(k) + "." + d)) == Some(k)
  {
    var x := DecimalValue(ShowNat(k), d);
    DecimalValueBounds(k, d);
    TruncateBetween(x, k);
    ParseIntStopsAtPoint(k, d);
  }

  /** Truthy text with no digit after its optional sign gives NaN: "abc",
      "-abc", "-" and "+" alike. */
  lemma CountOfNoDigits(s: string)
    requires s != [] && !IsWhiteSpace(s[0])
    requires var u := if s[0] == '-' || s[0] == '+' then s[1..] else s;
      u == [] || !IsDigit(u[0])
    ensures Count(Str(s)) == None
  {
    ParseIntNoDigit(s);
  }

  /** Count cells holding "42" and "42abc" give 42. */
  lemma CountOfFortyTwo()
    ensures Count(Str("42")) == Some(42)
    ensures Count(Str("42abc")) == Some(42)
  {
    FortyTwo("");
    FortyTwo("abc");
    IntegerSpelling();
  }

  /** A count cell holding "abc" gives NaN. */
  lemma CountOfAbc()
    ensures Count(Str("abc")) == None
  {
    ParseIntNoDigit("abc");
  }

  /** An empty or missing count cell gives 0. */
  lemma CountOfEmpty()
    ensures Count(Str("")) == Some(0) && Count(Null) == Some(0)
  {
  }

  /** The pass rate is null exactly when the "Pass Rate" cell is absent or
      null; a falsy but present cell ("" or 0) still gives a number. */
  lemma PassRateNullIff(t: map<string, Value>)
    ensures BuildRecord(t).passRate == None <==> ("Pass Rate" !in t || t["Pass Rate"] == Null)
  {
  }

  /** A finite pass rate x is scaled by 100 exactly when x < 1: a fraction
      in [0, 1) becomes a percentage in [0, 100), and 1 stays 1. */
  lemma PassRateScaling(raw: Value, x: real)
    requires raw != Null && FloatOf(raw) == Finite(x)
    ensures PassRate(raw) == Some(Finite(if x < 1.0 then 100.0 * x else x))
  {
    assert BelowOne(Finite(x)) <==> x < 1.0;
  }

  /** A fraction in [0, 1) becomes a pass rate in [0, 100). */
  lemma FractionIsPercentage(raw: Value, x: real)
    requires raw != Null && FloatOf(raw) == Finite(x) && 0.0 <= x < 1.0
    ensures var p := PassRate(raw); p.Some? && p.value.Finite? && 0.0 <= p.value.value < 100.0
  {
    PassRateScaling(raw, x);
  }

  /** A fraction, a percentage and a raw 1, as numeric cells: the fraction
      is scaled, the percentage and the 1 are kept. */
  lemma PassRateOfNumbers()
    ensures PassRate(Num(0.8532)) == Some(Finite(85.32))
    ensures PassRate(Num(85.32)) == Some(Finite(85.32))
    ensures PassRate(Num(1.0)) == Some(Finite(1.0))
  {
  }

  /** The text cell "0.8532" is a fraction and is scaled to 85.32. */
  lemma FractionTextScaled()
    ensures PassRate(Str("0.8532")) == Some(Finite(85.32))
  {
    ParseFloatFraction();
  }

  /** The text cell "85.32" is a percentage and is kept. */
  lemma PercentageTextKept()
    ensures PassRate(Str("85.32")) == Some(Finite(85.32))
  {
    ParseFloatPercentage();
  }

  /** Digits d, an exponent marker, '-' and k, worth less than 1 (such as
      "5e-1" or "85E-2"), are a fraction and are scaled by 100. */
  lemma ExponentTextScaled(d: string, e: char, k: nat, rest: string, x: real)
    requires d != [] && AllDigits(d) && (e == 'e' || e == 'E')
    requires rest == [] || !IsDigit(rest[0])
    requires DigitsValue(d) as real < Pow10(k) && x == DigitsValue(d) as real / Pow10(k)
    ensures PassRate(Str(d + [e, '-'] + ShowNat(k) + rest)) == Some(Finite(100.0 * x))
  {
    ParseFloatExponent(d, e, k, rest);
    FractionBelowOne(DigitsValue(d) as real, Pow10(k));
    TextFractionScaled(d + [e, '-'] + ShowNat(k) + rest, x);
  }

  /** A text cell parseFloat reads as a fraction in [0, 1) is scaled by 100. */
  lemma TextFractionScaled(s: string, x: real)
    requires ParseFloat(s) == Finite(x) && 0.0 <= x < 1.0
    ensures PassRate(Str(s)) == Some(Finite(100.0 * x))
  {
    PassRateScaling(Str(s), x);
  }

  /** The text cell "n/a" is no number: the pass rate is NaN, not null. */
  lemma NoNumberTextIsNaN()
    ensures PassRate(Str("n/a")) == Some(NaN)
  {
    ParseFloatNoNumber("n/a");
  }

  /** The record depends on the eleven columns only. */
  lemma BuildRecordReadsColumns(t1: map<string, Value>, t2: map<string, Value>)
    requires forall k :: k in Columns ==> Get(t1, k) == Get(t2, k)
    ensures BuildRecord(t1) == BuildRecord(t2)
  {
  }

  /** Padding around a column header is ignored: " Release " is matched as
      "Release". */
  lemma HeaderPaddingIgnored(row: Row, i: int, k: string)
    requires 0 <= i < |row| && Trim(k) == Trim(row[i].0)
    ensures NormalizeRow(row[i := (k, row[i].1)]) == NormalizeRow(row)
  {
    KeyPaddingIgnored(row, i, k);
  }

  /** A text cell under the last header that trims to "Release" reaches the
      record trimmed, unless it trims to nothing. */
  lemma ReleaseFromCell(row: Row, i: int, s: string)
    requires 0 <= i < |row| && Trim(row[i].0) == "Release" && row[i].1 == Str(s)
    requires forall j :: i < j < |row| ==> Trim(row[j].0) != "Release"
    ensures NormalizeRow(row).release == if Trim(s) == [] then Str("") else Str(Trim(s))
  {
    LastWriteWins(row, i);
  }
}
