/**
 * Rows as the spreadsheet decoder delivers them, and trimRowValues
 * (server.js:17-28), which rebuilds a row with trimmed property names and
 * trimmed string values.
 */
module Rows {
  import opened JsString

  /** A cell value: a string, a number, a boolean, or null. */
  datatype Value = Str(s: string) | Num(n: real) | Bool(b: bool) | Null

  /** JavaScript truthiness: "", 0, false and null are falsy. */
  predicate Truthy(v: Value) {
    match v
    case Str(s) => s != []
    case Num(n) => n != 0.0
    case Bool(b) => b
    case Null => false
  }

  /** A raw row: its properties, name and value, in for...in enumeration
      order. */
  type Row = seq<(string, Value)>

  /** The value once the `typeof value === "string"` branch has run: a
      string comes out unpadded and still a string, and any other value is
      unchanged. */
  function TrimValue(v: Value): (r: Value)
    ensures TrimmedValue(r) && r.Str? == v.Str?
    ensures !v.Str? ==> r == v
  {
    if v.Str? then Str(Trim(v.s)) else v
  }

  /** What that branch removes from a string is white space on either side,
      and nothing else: the result stands in the input string, padded only
      by white space. */
  lemma TrimValueRemovesPadding(v: Value)
    requires v.Str?
    ensures PaddedBy(v.s, TrimValue(v).s)
  {
    TrimPadding(v.s);
  }

  /** A value that branch leaves as it is. */
  predicate TrimmedValue(v: Value) {
    v.Str? ==> Trimmed(v.s)
  }

  /** The object trimRowValues builds: starting from {}, each enumerated
      property in turn is stored under its trimmed name, replacing whatever
      an earlier property with the same trimmed name stored there. */
  function TrimmedRow(row: Row): (m: map<string, Value>)
    ensures |m| <= |row|
    ensures m == map[] <==> row == []
  {
    if row == [] then map[]
    else
      var (key, value) := row[|row| - 1];
      TrimmedRow(row[..|row| - 1])[Trim(key) := TrimValue(value)]
  }

  /** One step of the construction: the last property enumerated is stored last. */
  lemma TrimmedRowStep(row: Row)
    requires row != []
    ensures TrimmedRow(row)
         == TrimmedRow(row[..|row| - 1])[Trim(row[|row| - 1].0) := TrimValue(row[|row| - 1].1)]
  {
  }

  /** The names after one more step: those before it, and the trimmed
      name of the property stored last. */
  lemma TrimmedRowKeyStep(row: Row)
    requires row != []
    ensures forall k :: k in TrimmedRow(row) <==> k in TrimmedRow(row[..|row| - 1]) || k == Trim(row[|row| - 1].0)
  {
    TrimmedRowStep(row);
  }

  /** One more property of the row enumerated: the object so far, with its
      trimmed name stored. */
  lemma TrimmedRowExtend(row: Row, i: int)
    requires 0 <= i < |row|
    ensures TrimmedRow(row[..i + 1]) == TrimmedRow(row[..i])[Trim(row[i].0) := TrimValue(row[i].1)]
  {
    assert row[..i + 1][..i] == row[..i];
    TrimmedRowStep(row[..i + 1]);
  }

  /** trimRowValues: the for...in loop over the row's properties. */
  method TrimRowValues(row: Row) returns (newObj: map<string, Value>)
    ensures newObj == TrimmedRow(row)
  {
    newObj := map[];
    var i := 0;
    while i < |row|
      invariant 0 <= i <= |row|
      invariant newObj == TrimmedRow(row[..i])
    {
      var key, value := row[i].0, row[i].1;
      var newKey := Trim(key);
      if value.Str? {
        value := Str(Trim(value.s));
      }
      TrimmedRowExtend(row, i);
      newObj := newObj[newKey := value];
      i := i + 1;
    }
    assert row[..|row|] == row;
  }

  /** Every name in the trimmed row is the trimmed name of some property of
      the row, and every property's trimmed name is in the trimmed row. */
  lemma TrimmedRowKeys(row: Row)
    ensures forall k :: k in TrimmedRow(row) <==> exists i :: 0 <= i < |row| && Trim(row[i].0) == k
  {
    forall k | k in TrimmedRow(row) ensures exists i :: 0 <= i < |row| && Trim(row[i].0) == k {
      KeyFromProperty(row, k);
    }
    forall i | 0 <= i < |row| ensures Trim(row[i].0) in TrimmedRow(row) {
      PropertyKeyStored(row, i);
    }
  }

  /** A name in the trimmed row comes from some property of the row. */
  lemma {:induction false} KeyFromProperty(row: Row, k: string)
    requires k in TrimmedRow(row)
    ensures exists i :: 0 <= i < |row| && Trim(row[i].0) == k
  {
    var n := |row| - 1;
    TrimmedRowKeyStep(row);
    if k != Trim(row[n].0) {
      KeyFromProperty(row[..n], k);
      var i :| 0 <= i < n && Trim(row[..n][i].0) == k;
      assert row[i] == row[..n][i];
    }
  }

  /** Every property's trimmed name is stored in the trimmed row. */
  lemma {:induction false} PropertyKeyStored(row: Row, i: int)
    requires 0 <= i < |row|
    ensures Trim(row[i].0) in TrimmedRow(row)
  {
    var n := |row| - 1;
    TrimmedRowKeyStep(row);
    if i < n {
      assert row[..n][i] == row[i];
      PropertyKeyStored(row[..n], i);
    }
  }

  /** When several properties trim to the same name, the value kept is that
      of the last one enumerated: its string value trimmed, any other value
      as it was. */
  lemma {:induction false} LastWriteWins(row: Row, i: int)
    requires 0 <= i < |row|
    requires forall j :: i < j < |row| ==> Trim(row[j].0) != Trim(row[i].0)
    ensures Trim(row[i].0) in TrimmedRow(row)
    ensures var v := TrimmedRow(row)[Trim(row[i].0)];
      && (row[i].1.Str? ==> v == Str(Trim(row[i].1.s)))
      && (!row[i].1.Str? ==> v == row[i].1)
  {
    if i < |row| - 1 {
      var front := row[..|row| - 1];
      assert front[i] == row[i];
      forall j | i < j < |front| ensures Trim(front[j].0) != Trim(front[i].0) {
        assert front[j] == row[j];
      }
      LastWriteWins(front, i);
    }
  }

  /** Names and string values in the trimmed row carry no padding. */
  lemma {:induction false} TrimmedRowIsTrimmed(row: Row)
    ensures forall k :: k in TrimmedRow(row) ==> Trimmed(k) && TrimmedValue(TrimmedRow(row)[k])
  {
    if row != [] {
      TrimmedRowIsTrimmed(row[..|row| - 1]);
    }
  }

  /** e lists the entries of m, each name once. */
  ghost predicate Enumerates(e: Row, m: map<string, Value>) {
    && (forall i, j :: 0 <= i < j < |e| ==> e[i].0 != e[j].0)
    && (forall i :: 0 <= i < |e| ==> e[i].0 in m && m[e[i].0] == e[i].1)
    && (forall k :: k in m ==> exists i :: 0 <= i < |e| && e[i].0 == k)
  }

  /** A row whose names are distinct and trimmed and whose string values
      are trimmed is stored entry for entry by trimRowValues. */
  lemma TrimmedRowOfTrimmed(e: Row)
    requires forall i, j :: 0 <= i < j < |e| ==> e[i].0 != e[j].0
    requires forall i :: 0 <= i < |e| ==> Trimmed(e[i].0) && TrimmedValue(e[i].1)
    ensures forall i :: 0 <= i < |e| ==> e[i].0 in TrimmedRow(e) && TrimmedRow(e)[e[i].0] == e[i].1
  {
    forall i | 0 <= i < |e|
      ensures e[i].0 in TrimmedRow(e) && TrimmedRow(e)[e[i].0] == e[i].1
    {
      TrimFixpoint(e[i].0);
      forall j | i < j < |e| ensures Trim(e[j].0) != Trim(e[i].0) {
        TrimFixpoint(e[j].0);
      }
      LastWriteWins(e, i);
      if e[i].1.Str? { TrimFixpoint(e[i].1.s); }
    }
  }

  /** The names of TrimmedRow(e), for a row whose names are already trimmed,
      are the names of e. */
  lemma KeysOfTrimmed(e: Row)
    requires forall i :: 0 <= i < |e| ==> Trimmed(e[i].0)
    ensures forall k :: k in TrimmedRow(e) <==> exists i :: 0 <= i < |e| && e[i].0 == k
  {
    TrimmedRowKeys(e);
    forall i | 0 <= i < |e| ensures Trim(e[i].0) == e[i].0 {
      TrimFixpoint(e[i].0);
    }
  }

  /** trimRowValues is idempotent: run again over the object it returned,
      in whatever order that object's properties are enumerated, it
      rebuilds the same object. */
  lemma TrimRowValuesIdempotent(row: Row, e: Row)
    requires Enumerates(e, TrimmedRow(row))
    ensures TrimmedRow(e) == TrimmedRow(row)
  {
    var m := TrimmedRow(row);
    TrimmedRowIsTrimmed(row);
    assert forall i :: 0 <= i < |e| ==> Trimmed(e[i].0) && TrimmedValue(e[i].1);
    KeysOfTrimmed(e);
    TrimmedRowOfTrimmed(e);
    EnumeratedMapsEqual(e, m, TrimmedRow(e));
  }

  /** Two maps holding every entry of the same enumeration, and nothing
      else, are equal. */
  lemma EnumeratedMapsEqual(e: Row, m: map<string, Value>, n: map<string, Value>)
    requires Enumerates(e, m)
    requires forall i :: 0 <= i < |e| ==> e[i].0 in n && n[e[i].0] == e[i].1
    requires forall k :: k in n ==> exists i :: 0 <= i < |e| && e[i].0 == k
    ensures n == m
  {
    assert n.Keys == m.Keys;
  }

  /** Padding around a property's name makes no difference: renaming one
      property to anything with the same trimmed name leaves the trimmed row
      as it was. */
  lemma {:induction false} KeyPaddingIgnored(row: Row, i: int, k: string)
    requires 0 <= i < |row| && Trim(k) == Trim(row[i].0)
    ensures TrimmedRow(row[i := (k, row[i].1)]) == TrimmedRow(row)
  {
    var row' := row[i := (k, row[i].1)];
    var n := |row| - 1;
    TrimmedRowStep(row);
    TrimmedRowStep(row');
    if i < n {
      assert row'[..n] == row[..n][i := (k, row[i].1)];
      assert row'[n] == row[n];
      KeyPaddingIgnored(row[..n], i, k);
    } else {
      assert row'[..n] == row[..n];
    }
  }
}
