/** The shape of the workbook `generate_report` writes: seven sheets, each
    either its category's rows or a one-row `Message` placeholder, and the
    TOTAL row added afterwards under the `Amount` column of the transaction
    sheets. A sheet is reduced to its header row and its number of rows. */
module Report {
  import opened Wrappers
  import opened Statement
  import opened Reconcile

  /** The seven sheets, in the order they are written. */
  datatype SheetKind =
    | AllEntriesSheet | MatchedSheet | AdjustedSheet | UnmatchedSheet
    | UnregisteredSheet | SummarySheet | BankSheet

  /** A written sheet: a header row over `rows` rows of data, or the
      placeholder frame with the single column `Message` and one row. */
  datatype Sheet =
    | Data(kind: SheetKind, headers: seq<string>, rows: nat)
    | Placeholder(kind: SheetKind, message: string)

  /** The column label the TOTAL row looks for. */
  const AmountHeader: string := "Amount"

  function Headers(s: Sheet): seq<string> {
    match s
    case Data(_, h, _) => h
    case Placeholder(_, _) => ["Message"]
  }

  /** The worksheet's `max_row`: the header row plus the data rows. */
  function MaxRow(s: Sheet): nat {
    match s
    case Data(_, _, n) => n + 1
    case Placeholder(_, _) => 2
  }

  /** The sheets that may receive a TOTAL row. */
  const TotalsSheets: set<SheetKind> :=
    {AllEntriesSheet, MatchedSheet, AdjustedSheet, UnmatchedSheet, UnregisteredSheet, BankSheet}

  /** The 1-based column of the first header equal to `name`. */
  function ColumnOf(headers: seq<string>, name: string): (c: Option<nat>)
    ensures c.Some? ==> 1 <= c.value <= |headers| && headers[c.value - 1] == name
    ensures c.Some? ==> forall j :: 0 <= j < c.value - 1 ==> headers[j] != name
    ensures c.None? <==> name !in headers
    decreases |headers|
  {
    if headers == [] then None
    else if headers[0] == name then Some(1)
    else
      match ColumnOf(headers[1..], name)
      case None => None
      case Some(k) => Some(k + 1)
  }

  /** The TOTAL row: the label in `labelColumn` of row `row`, and in
      `amountColumn` a SUM over rows `sumFirst` to `sumLast`. */
  datatype TotalRow = TotalRow(row: nat, labelColumn: nat, amountColumn: nat, sumFirst: nat, sumLast: nat)

  /** A sheet as saved, with the TOTAL row if it received one. */
  datatype Written = Written(sheet: Sheet, total: Option<TotalRow>)

  /** The TOTAL pass over one sheet, in the order the source performs it:
      the summary is skipped; a sheet of the totals list with more than one
      row and an `Amount` header gets the label one row below the last, and
      only then is the SUM's last row read off the grown sheet as
      `max_row - 1`. */
  function AddTotal(s: Sheet): (w: Written)
    ensures w.sheet == s
  {
    if s.kind == SummarySheet then Written(s, None)
    else if s.kind in TotalsSheets && MaxRow(s) > 1 then
      match ColumnOf(Headers(s), AmountHeader)
      case None => Written(s, None)
      case Some(col) =>
        var totalRow := MaxRow(s) + 1;
        var maxRowAfterLabel := totalRow;
        Written(s, Some(TotalRow(totalRow, 1, col, 2, maxRowAfterLabel - 1)))
    else Written(s, None)
  }

  /** Where the TOTAL row goes: exactly the non-summary sheets with data
      below the header and an `Amount` header get one, one row below the
      last data row, with the label written to column 1 and a SUM of the
      first `Amount` column over every data row and nothing else. */
  lemma TotalPlacement(s: Sheet)
    ensures AddTotal(s).total.Some? <==>
      s.kind != SummarySheet && MaxRow(s) > 1 && AmountHeader in Headers(s)
    ensures AddTotal(s).total.Some? ==>
      var t := AddTotal(s).total.value;
      && t.row == MaxRow(s) + 1 && t.labelColumn == 1
      && t.amountColumn >= 1 && Headers(s)[t.amountColumn - 1] == AmountHeader
      && AmountHeader !in Headers(s)[..t.amountColumn - 1]
      && t.sumFirst == 2 && t.sumLast == MaxRow(s)
      && t.sumLast - t.sumFirst + 1 == MaxRow(s) - 1
  {
    var w := AddTotal(s);
    if w.total.Some? {
      var c := w.total.value.amountColumn;
      assert forall j :: 0 <= j < c - 1 ==> Headers(s)[..c - 1][j] == Headers(s)[j];
    }
  }

  /** What a cell of the TOTAL row holds once the pass is done. */
  datatype TotalCell = TotalLabel | SumFormula(first: nat, last: nat)

  /** The cells of the TOTAL row, by column, after its two writes: the label
      first, then the SUM, which replaces the label when both fall in the
      same column. */
  function TotalCells(t: TotalRow): (m: map<nat, TotalCell>)
    ensures m.Keys == {t.labelColumn, t.amountColumn}
    ensures m[t.amountColumn] == SumFormula(t.sumFirst, t.sumLast)
    ensures m[t.labelColumn] == TotalLabel <==> t.labelColumn != t.amountColumn
  {
    map[t.labelColumn := TotalLabel][t.amountColumn := SumFormula(t.sumFirst, t.sumLast)]
  }

  /** The TOTAL label survives only when the first `Amount` header is not in
      column 1: when it is, the SUM is written over the label. */
  lemma TotalLabelKept(s: Sheet)
    requires AddTotal(s).total.Some?
    ensures var t := AddTotal(s).total.value;
      && TotalCells(t)[t.amountColumn] == SumFormula(2, MaxRow(s))
      && (TotalLabel in TotalCells(t).Values <==> Headers(s)[0] != AmountHeader)
  {
    var t := AddTotal(s).total.value;
    TotalPlacement(s);
    var m := TotalCells(t);
    if Headers(s)[0] == AmountHeader {
      assert t.amountColumn == 1 && m.Keys == {1};
      assert m.Values == {m[1]};
    } else {
      assert m[1] == TotalLabel;
    }
  }

  /** A placeholder sheet never gets a TOTAL row: its one header is
      `Message`. */
  lemma PlaceholderUntotalled(s: Sheet)
    requires s.Placeholder?
    ensures AddTotal(s).total.None?
  {
    TotalPlacement(s);
    assert "Message" != AmountHeader;
  }

  /** `names` added to `cols` in order, each only if not already there, as
      assigning new keys to a dictionary does. */
  function AppendNew(cols: seq<string>, names: seq<string>): (r: seq<string>)
    ensures cols <= r
    ensures forall x :: x in r <==> x in cols || x in names
    ensures forall i :: |cols| <= i < |r| ==> r[i] !in cols
    ensures forall i, j :: |cols| <= i < j < |r| ==> r[i] != r[j]
    decreases |names|
  {
    if names == [] then cols
    else
      var next := if names[0] in cols then cols else cols + [names[0]];
      var r := AppendNew(next, names[1..]);
      assert forall i :: |cols| <= i < |next| ==> r[i] == names[0] && names[0] !in cols;
      r
  }

  /** The columns `reconcile` adds to every entry row. */
  const AddedColumns: seq<string> := ["_ChequeDDNo_str", "Status", "Bank_Amount", "Difference"]

  /** Some row is an adjustment row, the only kind that sets `Remarks`. */
  predicate HasAdjustment(rows: seq<EntryRow>) {
    exists i :: 0 <= i < |rows| && rows[i].status == AdjustmentEntry
  }

  /** The columns of an entry sheet: the ledger's columns, then those
      `reconcile` adds, then `Remarks` if an adjustment row is among the
      rows, each new name appended once. */
  function EntryHeaders(columns: seq<string>, rows: seq<EntryRow>): (h: seq<string>)
    ensures columns <= h
    ensures forall x :: x in h <==>
      x in columns || x in AddedColumns || (x == "Remarks" && HasAdjustment(rows))
  {
    var base := AppendNew(columns, AddedColumns);
    if HasAdjustment(rows) then AppendNew(base, ["Remarks"]) else base
  }

  const UnregisteredHeaders: seq<string> :=
    ["PaymentDate", "CustomerName", "ChequeDDNo", "Amount", "PaymentMode", "Bank", "Remarks", "Status", "Bank_Amount"]

  const SummaryHeaders: seq<string> := ["Description", "Value"]

  /** The summary sheet lists nineteen lines of counts and amounts. */
  const SummaryLines: nat := 19

  const BankHeaders: seq<string> := ["Date", "Journal #", "Description", "Amount"]

  /** The sheet of one category: its rows when there are any, else the
      placeholder with the category's message. */
  function CategorySheet(kind: SheetKind, headers: seq<string>, rows: nat, message: string): (s: Sheet)
    ensures s.kind == kind
    ensures s.Placeholder? <==> rows == 0
    ensures s.Data? ==> s.headers == headers && s.rows == rows
    ensures MaxRow(s) >= 2
  {
    if rows > 0 then Data(kind, headers, rows) else Placeholder(kind, message)
  }

  /** The order in which the sheets are written. */
  const SheetOrder: seq<SheetKind> :=
    [AllEntriesSheet, MatchedSheet, AdjustedSheet, UnmatchedSheet, UnregisteredSheet, SummarySheet, BankSheet]

  /** The number of rows behind each sheet: its category's length, the
      statement's length for the bank sheet, nothing for the summary. */
  function CategorySize(kind: SheetKind, c: Categories, bankRows: nat): nat {
    match kind
    case AllEntriesSheet => |c.allEntries|
    case MatchedSheet => |c.matched|
    case AdjustedSheet => |c.adjusted|
    case UnmatchedSheet => |c.unmatched|
    case UnregisteredSheet => |c.unregistered|
    case SummarySheet => 0
    case BankSheet => bankRows
  }

  /** One sheet written for the categories `c` of a ledger with the columns
      `columns` and a statement of `bankRows` transactions. No sheet is ever
      empty: a category sheet shows its category's rows, or the one-row
      placeholder exactly when the category is empty; the summary always
      has its nineteen lines. */
  function SheetOf(kind: SheetKind, columns: seq<string>, c: Categories, bankRows: nat): (s: Sheet)
    ensures s.kind == kind && MaxRow(s) >= 2
    ensures kind != SummarySheet ==>
      (s.Placeholder? <==> CategorySize(kind, c, bankRows) == 0)
      && (s.Data? ==> s.rows == CategorySize(kind, c, bankRows))
    ensures kind == SummarySheet ==> s == Data(SummarySheet, SummaryHeaders, SummaryLines)
  {
    var n := CategorySize(kind, c, bankRows);
    match kind
    case AllEntriesSheet => CategorySheet(kind, EntryHeaders(columns, c.allEntries), n, "No entries found")
    case MatchedSheet => CategorySheet(kind, EntryHeaders(columns, c.matched), n, "No matched transactions")
    case AdjustedSheet => CategorySheet(kind, EntryHeaders(columns, c.adjusted), n, "No adjustments needed")
    case UnmatchedSheet => CategorySheet(kind, EntryHeaders(columns, c.unmatched), n, "All entries found in bank")
    case UnregisteredSheet => CategorySheet(kind, UnregisteredHeaders, n, "All bank transactions registered")
    case SummarySheet => Data(kind, SummaryHeaders, SummaryLines)
    case BankSheet => CategorySheet(kind, BankHeaders, n, "No bank data to display")
  }

  /** The seven sheets, in order. */
  function Workbook(columns: seq<string>, c: Categories, bankRows: nat): (wb: seq<Sheet>)
    ensures |wb| == |SheetOrder|
    ensures forall i :: 0 <= i < |wb| ==> wb[i] == SheetOf(SheetOrder[i], columns, c, bankRows)
  {
    seq(|SheetOrder|, i requires 0 <= i < |SheetOrder| => SheetOf(SheetOrder[i], columns, c, bankRows))
  }

  /** The workbook after the TOTAL pass. */
  function WithTotals(sheets: seq<Sheet>): (r: seq<Written>)
    ensures |r| == |sheets|
    ensures forall i :: 0 <= i < |sheets| ==> r[i] == AddTotal(sheets[i])
  {
    seq(|sheets|, i requires 0 <= i < |sheets| => AddTotal(sheets[i]))
  }

  /** With an `Amount` column in the ledger, a sheet gets a TOTAL row exactly
      when it holds data and is not the summary, and that row sums all of
      its data rows. */
  lemma SheetTotal(kind: SheetKind, columns: seq<string>, c: Categories, bankRows: nat)
    requires AmountHeader in columns
    ensures var s := SheetOf(kind, columns, c, bankRows);
      var w := AddTotal(s);
      && (w.total.Some? <==> s.Data? && kind != SummarySheet)
      && (w.total.Some? ==> w.total.value.sumLast - w.total.value.sumFirst + 1 == s.rows)
  {
    var s := SheetOf(kind, columns, c, bankRows);
    TotalPlacement(s);
    if s.Data? {
      match kind
      case UnregisteredSheet => assert UnregisteredHeaders[3] == AmountHeader;
      case BankSheet => assert BankHeaders[3] == AmountHeader;
      case SummarySheet => assert AmountHeader !in SummaryHeaders;
      case _ =>
    }
  }

  /** `w` is a sheet as the TOTAL pass should leave it: not empty, with a
      TOTAL row exactly when it holds data and is not the summary, summing
      all of its data rows. */
  predicate TotalledRight(w: Written) {
    && MaxRow(w.sheet) >= 2
    && (w.total.Some? <==> w.sheet.Data? && w.sheet.kind != SummarySheet)
    && (w.total.Some? ==> w.total.value.sumLast - w.total.value.sumFirst + 1 == w.sheet.rows)
  }

  /** The same over the whole workbook: no sheet is empty, and the totals
      land on exactly the data sheets other than the summary. */
  lemma ReportTotals(columns: seq<string>, c: Categories, bankRows: nat)
    requires AmountHeader in columns
    ensures var w := WithTotals(Workbook(columns, c, bankRows));
      |w| == 7 && forall i :: 0 <= i < |w| ==> TotalledRight(w[i])
  {
    var wb := Workbook(columns, c, bankRows);
    var w := WithTotals(wb);
    forall i | 0 <= i < |w| ensures TotalledRight(w[i]) {
      SheetTotal(SheetOrder[i], columns, c, bankRows);
    }
  }

  /** The adjusted sheet, whenever it has rows, has a `Remarks` column: its
      rows come in mismatch/adjustment pairs, so an adjustment is among
      them. */
  lemma AdjustedSheetHasRemarks(columns: seq<string>, entries: seq<Entry>, bank: seq<Transaction>)
    requires Categorize(entries, bank).adjusted != []
    ensures "Remarks" in EntryHeaders(columns, Categorize(entries, bank).adjusted)
  {
    var rows := Categorize(entries, bank).adjusted;
    AdjustmentsFollowMismatches(entries, bank);
    assert rows[0].status == AmountMismatch;
    assert rows[1].status == AdjustmentEntry;
    assert HasAdjustment(rows);
  }
}
