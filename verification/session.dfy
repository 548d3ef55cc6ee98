/** One reconciliation run as the `/reconcile` endpoint drives it: the
    `BankReconciliation` constructor prepares the ledger and reads the
    statement, then `generate_report` reconciles, computes the statistics
    and shapes the workbook. Missing columns surface as the `KeyError` the
    dataframe lookups raise. */
module Session {
  import opened Wrappers
  import opened Text
  import opened Statement
  import opened Reconcile
  import opened Statistics
  import opened Report

  /** The uploaded ledger: its column names and its rows. */
  datatype Ledger = Ledger(columns: seq<string>, rows: seq<LedgerEntry>)

  /** Why a run stops: a column lookup that fails, or a statement the PDF
      library cannot open. */
  datatype Failure = MissingColumn(name: string) | UnreadableStatement

  /** A constructed `BankReconciliation`: the ledger's columns, the
      prepared entries and the statement's transactions. */
  datatype Reconciler = Reconciler(columns: seq<string>, entries: seq<Entry>, bank: seq<Transaction>)

  /** The constructor's second `str.strip()`, applied to every journal
      number of the extracted statement. */
  function StripJournals(bank: seq<Transaction>): (r: seq<Transaction>)
    ensures |r| == |bank|
    ensures forall i :: 0 <= i < |bank| ==> r[i] == bank[i].(journal := Strip(bank[i].journal))
  {
    seq(|bank|, i requires 0 <= i < |bank| => bank[i].(journal := Strip(bank[i].journal)))
  }

  /** The extractor already stores trimmed journal numbers, so the second
      strip changes nothing. */
  lemma StripJournalsOfExtracted(tables: seq<Table>)
    ensures StripJournals(ExtractTables(tables)) == ExtractTables(tables)
  {
    var bank := ExtractTables(tables);
    forall i | 0 <= i < |bank| ensures Strip(bank[i].journal) == bank[i].journal {
      assert bank[i] in bank;
      var ti, j :| ExtractedFrom(tables, ti, j, bank[i]);
      StripTrimmed(bank[i].journal);
    }
  }

  /** The constructor as written. The statement is `None` when the PDF
      cannot be opened. A statement with no transactions yields a frame
      without a `journal_number` column, whose lookup fails. */
  function OpenAsWritten(ledger: Ledger, statement: Option<seq<Table>>): (r: Result<Reconciler, Failure>)
    ensures r.Success? ==> statement.Some? && ExtractTables(statement.value) != []
  {
    if "ChequeDDNo" !in ledger.columns then Failure(MissingColumn("ChequeDDNo"))
    else match statement
      case None => Failure(UnreadableStatement)
      case Some(tables) =>
        var bank := ExtractTables(tables);
        if bank == [] then Failure(MissingColumn("journal_number"))
        else Success(Reconciler(ledger.columns, Prepare(ledger.rows), StripJournals(bank)))
  }

  /** The constructor as the report code expects it to behave: a statement
      with no transactions is an empty statement, and the run goes on. */
  function Open(ledger: Ledger, statement: Option<seq<Table>>): (r: Result<Reconciler, Failure>)
    ensures r.Success? <==> "ChequeDDNo" in ledger.columns && statement.Some?
    ensures r.Success? ==>
      && r.value.columns == ledger.columns
      && r.value.entries == Prepare(ledger.rows)
      && r.value.bank == ExtractTables(statement.value)
  {
    if "ChequeDDNo" !in ledger.columns then Failure(MissingColumn("ChequeDDNo"))
    else match statement
      case None => Failure(UnreadableStatement)
      case Some(tables) =>
        StripJournalsOfExtracted(tables);
        Success(Reconciler(ledger.columns, Prepare(ledger.rows), StripJournals(ExtractTables(tables))))
  }

  /** Where the two constructors part: on a readable statement without any
      transaction row, the written one fails on the `journal_number` lookup
      and the intended one proceeds; on every other input they agree. */
  lemma EmptyStatementRejected(ledger: Ledger, statement: Option<seq<Table>>)
    ensures "ChequeDDNo" in ledger.columns && statement.Some? && ExtractTables(statement.value) == [] ==>
      OpenAsWritten(ledger, statement) == Failure(MissingColumn("journal_number"))
      && Open(ledger, statement).Success?
    ensures !("ChequeDDNo" in ledger.columns && statement.Some? && ExtractTables(statement.value) == []) ==>
      OpenAsWritten(ledger, statement) == Open(ledger, statement)
  {
  }

  /** A concrete input that shows the discrepancy: a statement PDF on
      which the library finds no table at all, against a one-row ledger. */
  lemma NoTablesExample()
    ensures var ledger := Ledger(["ChequeDDNo", "Amount"], [LedgerEntry(Some("12345"), 500.0)]);
      && OpenAsWritten(ledger, Some([])) == Failure(MissingColumn("journal_number"))
      && Open(ledger, Some([])).Success?
  {
  }

  /** What `generate_report` hands back: the statistics and the saved
      workbook. */
  datatype Output = Output(stats: Stats, sheets: seq<Written>)

  /** `generate_report`: reconcile, total, write, add the TOTAL rows. Every
      step reads the ledger's `Amount` column, so a ledger without one
      fails. */
  function GenerateReport(r: Reconciler): (o: Result<Output, Failure>)
    ensures o.Failure? <==> AmountHeader !in r.columns
    ensures o.Failure? ==> o.error == MissingColumn(AmountHeader)
  {
    if AmountHeader !in r.columns then Failure(MissingColumn(AmountHeader))
    else
      var c := Categorize(r.entries, r.bank);
      Success(Output(StatsOf(r.entries, r.bank), WithTotals(Workbook(r.columns, c, |r.bank|))))
  }

  /** A whole run: a ledger with both key columns and a readable statement
      always yields a report; its statistics count the ledger rows that
      carry a cheque number and every extracted transaction, its
      unregistered count is the number of extracted transactions no entry
      picked, and its seven sheets are all non-empty and totalled right. */
  lemma RunSucceeds(ledger: Ledger, tables: seq<Table>)
    requires "ChequeDDNo" in ledger.columns && AmountHeader in ledger.columns
    ensures Open(ledger, Some(tables)).Success?
    ensures var o := GenerateReport(Open(ledger, Some(tables)).value);
      var entries := Prepare(ledger.rows);
      var bank := ExtractTables(tables);
      && o.Success?
      && o.value.stats.totalEntries == |entries|
      && o.value.stats.totalBankTransactions == |bank|
      && o.value.stats.unregistered == |bank| - |Chosen(entries, bank)|
      && |o.value.sheets| == 7
      && (forall i :: 0 <= i < 7 ==> TotalledRight(o.value.sheets[i]))
  {
    var entries := Prepare(ledger.rows);
    var bank := ExtractTables(tables);
    StatsOfReconciliation(entries, bank);
    ReportTotals(ledger.columns, Categorize(entries, bank), |bank|);
  }

  /** The same run through the constructor as written: it yields the same
      report whenever the statement has at least one transaction, the only
      case in which that constructor gets past `journal_number`. */
  lemma RunAsWrittenSucceeds(ledger: Ledger, tables: seq<Table>)
    requires "ChequeDDNo" in ledger.columns && AmountHeader in ledger.columns
    requires ExtractTables(tables) != []
    ensures OpenAsWritten(ledger, Some(tables)) == Open(ledger, Some(tables))
    ensures var o := GenerateReport(OpenAsWritten(ledger, Some(tables)).value);
      var entries := Prepare(ledger.rows);
      var bank := ExtractTables(tables);
      && o.Success?
      && o.value.stats.totalEntries == |entries|
      && o.value.stats.totalBankTransactions == |bank|
      && o.value.stats.unregistered == |bank| - |Chosen(entries, bank)|
      && |o.value.sheets| == 7
      && (forall i :: 0 <= i < 7 ==> TotalledRight(o.value.sheets[i]))
  {
    EmptyStatementRejected(ledger, Some(tables));
    RunSucceeds(ledger, tables);
  }
}
