/**
 * Whole-workbook shaping in the /upload handler (server.js:41-43, 67): one
 * result per sheet name, in the workbook's sheet order, each holding one
 * record per row, in row order.
 */
module Upload {
  import opened Rows
  import opened Records

  /** A decoded workbook: its sheet names in order, and the rows of each
      sheet as the spreadsheet decoder yields them. */
  datatype Workbook = Workbook(sheetNames: seq<string>, sheets: map<string, seq<Row>>)

  /** The decoder lists a sheet name only for a sheet it decoded. */
  predicate WellFormed(wb: Workbook) {
    forall i :: 0 <= i < |wb.sheetNames| ==> wb.sheetNames[i] in wb.sheets
  }

  /** `{ sheet: sheetName, rows: processedRows }`. */
  datatype SheetResult = SheetResult(sheet: string, rows: seq<Record>)

  /** Array.prototype.map: f applied to each element, in order. */
  function Map<X, Y>(f: X -> Y, xs: seq<X>): (ys: seq<Y>)
    ensures |ys| == |xs|
    ensures forall j :: 0 <= j < |xs| ==> ys[j] == f(xs[j])
  {
    if xs == [] then [] else [f(xs[0])] + Map(f, xs[1..])
  }

  /** Mapping distributes over concatenation. */
  lemma {:induction false} MapAppend<X, Y>(f: X -> Y, a: seq<X>, b: seq<X>)
    ensures Map(f, a + b) == Map(f, a) + Map(f, b)
  {
    if a != [] {
      assert (a + b)[1..] == a[1..] + b;
      MapAppend(f, a[1..], b);
    }
  }

  /** jsonData.map(...): one record per row, in the same order, each made
      from its own row alone. */
  function NormalizeRows(rows: seq<Row>): (records: seq<Record>)
    ensures |records| == |rows|
    ensures forall j :: 0 <= j < |rows| ==> records[j] == NormalizeRow(rows[j])
  {
    Map(NormalizeRow, rows)
  }

  /** sheetNames.map(...): one result per name, in the same order, carrying
      the name and the records of that sheet's rows. */
  function ProcessSheets(names: seq<string>, sheets: map<string, seq<Row>>): (results: seq<SheetResult>)
    requires forall i :: 0 <= i < |names| ==> names[i] in sheets
    ensures |results| == |names|
    ensures forall i :: 0 <= i < |names| ==>
      results[i].sheet == names[i] && results[i].rows == NormalizeRows(sheets[names[i]])
  {
    seq(|names|, i requires 0 <= i < |names| => SheetResult(names[i], NormalizeRows(sheets[names[i]])))
  }

  /** The response body of a successful upload. */
  function ProcessWorkbook(wb: Workbook): (results: seq<SheetResult>)
    requires WellFormed(wb)
    ensures |results| == |wb.sheetNames|
    ensures forall i :: 0 <= i < |results| ==>
      results[i].sheet == wb.sheetNames[i] && |results[i].rows| == |wb.sheets[wb.sheetNames[i]]|
    ensures forall i, j :: 0 <= i < |results| && 0 <= j < |wb.sheets[wb.sheetNames[i]]| ==>
      results[i].rows[j] == NormalizeRow(wb.sheets[wb.sheetNames[i]][j])
  {
    ProcessSheets(wb.sheetNames, wb.sheets)
  }

  /** Rows are processed independently: the records of consecutive runs of
      rows are the records of each run, one after the other. */
  lemma NormalizeRowsAppend(a: seq<Row>, b: seq<Row>)
    ensures NormalizeRows(a + b) == NormalizeRows(a) + NormalizeRows(b)
  {
    MapAppend(NormalizeRow, a, b);
  }

  /** A workbook with sheets "Sheet1" and "Sheet2" gives two results, named
      "Sheet1" and "Sheet2" in that order. */
  lemma TwoSheets(rows1: seq<Row>, rows2: seq<Row>)
    ensures var wb := Workbook(["Sheet1", "Sheet2"], map["Sheet1" := rows1, "Sheet2" := rows2]);
      WellFormed(wb) && |ProcessWorkbook(wb)| == 2
      && ProcessWorkbook(wb)[0].sheet == "Sheet1" && ProcessWorkbook(wb)[1].sheet == "Sheet2"
      && |ProcessWorkbook(wb)[0].rows| == |rows1| && |ProcessWorkbook(wb)[1].rows| == |rows2|
  {
    var wb := Workbook(["Sheet1", "Sheet2"], map["Sheet1" := rows1, "Sheet2" := rows2]);
    assert "Sheet1" != "Sheet2";
    assert wb.sheets["Sheet1"] == rows1 && wb.sheets["Sheet2"] == rows2;
  }
}
