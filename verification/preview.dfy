/** The row count the upload preview shows for a statement (the PDF branch
    of `analyze_file`): every row after the first of every table with more
    than one row, unless it is a running-total or footer row. */
module Preview {
  import opened Statement

  /** The rows of a run that are not running-total or footer rows. */
  function CountNonSummary(rows: seq<Row>): (n: nat)
    ensures n <= |rows|
    ensures n == 0 <==> forall j :: 0 <= j < |rows| ==> IsSummaryRow(rows[j])
    decreases |rows|
  {
    if rows == [] then 0
    else
      var n := (if IsSummaryRow(rows[0]) then 0 else 1) + CountNonSummary(rows[1..]);
      assert forall j :: 1 <= j < |rows| ==> rows[j] == rows[1..][j - 1];
      n
  }

  /** `transaction_count` of the preview. It is 0 exactly when every row
      below the first row of every table is a running-total or footer
      row. */
  function PreviewCount(tables: seq<Table>): (n: nat)
    ensures n == 0 <==>
      forall i, j :: 0 <= i < |tables| && 1 <= j < |tables[i]| ==> IsSummaryRow(tables[i][j])
    decreases |tables|
  {
    if tables == [] then 0
    else
      var t := tables[0];
      var n := (if |t| > 1 then CountNonSummary(t[1..]) else 0) + PreviewCount(tables[1..]);
      assert forall j :: 1 <= j < |t| ==> t[j] == t[1..][j - 1];
      assert forall i :: 1 <= i < |tables| ==> tables[i] == tables[1..][i - 1];
      n
  }

  /** `tables_found` of the preview: 1 exactly when some row was counted. */
  function TablesFound(tables: seq<Table>): (f: nat)
    ensures f <= 1
    ensures f == 1 <==> PreviewCount(tables) > 0
  {
    if PreviewCount(tables) > 0 then 1 else 0
  }

  /** Every row the extractor reads is a row the preview counts. */
  lemma {:induction false} ReadRowsAreCounted(rows: seq<Row>)
    ensures |ParseRows(rows)| <= CountNonSummary(rows)
    decreases |rows|
  {
    if rows != [] {
      ReadRowsAreCounted(rows[1..]);
    }
  }

  /** Dropping leading rows never raises the count. */
  lemma {:induction false} CountOfSuffix(rows: seq<Row>, k: nat)
    requires k <= |rows|
    ensures CountNonSummary(rows[k..]) <= CountNonSummary(rows)
    decreases k
  {
    if k > 0 {
      CountOfSuffix(rows[1..], k - 1);
      assert rows[1..][k - 1..] == rows[k..];
    }
  }

  /** The preview never shows fewer rows than the extractor reads: the
      extractor looks only at tables the preview also counts, starts after a
      header row that is at least row 0, and additionally drops short rows,
      bad journal numbers and non-positive amounts. So a statement with any
      transaction shows `tables_found` = 1. */
  lemma {:induction false} PreviewBoundsExtraction(tables: seq<Table>)
    ensures |ExtractTables(tables)| <= PreviewCount(tables)
    ensures ExtractTables(tables) != [] ==> TablesFound(tables) == 1
    decreases |tables|
  {
    if tables != [] {
      PreviewBoundsExtraction(tables[1..]);
      var t := tables[0];
      if |t| >= 2 {
        match HeaderIndex(t)
        case None =>
        case Some(h) =>
          ReadRowsAreCounted(t[h + 1..]);
          CountOfSuffix(t[1..], h);
          assert t[1..][h..] == t[h + 1..];
      }
    }
  }
}
