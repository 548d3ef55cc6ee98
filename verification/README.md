# Bank reconciliation core, modelled in Dafny

This project models the reconciliation engine of the Bank of Bhutan
reconciliation service (`app.py`, class `BankReconciliation`), together with
the list logic of `save_report_metadata` and of `get_reports`, and the PDF
row count of the upload preview. The model covers:

- **Amount normaliser.** `parse_amount` turns currency text such as
  "Nu. 1,234.50" into a number and reads anything else as 0.
- **Statement row extractor.** This is `parse_bank_pdf` with the PDF library
  removed. The extracted tables are its input, and posted transactions are its
  output.
- **Matcher and categoriser.** `reconcile` makes one pass over the ledger
  entries that carry a cheque/journal number. It looks each one up against the
  first bank transaction with the same journal number and classifies it as
  not found, matched or mismatched, using a strict tolerance of 1.0. A
  mismatch brings an adjustment row along. The bank transactions nobody
  picked become the unregistered records.
- **Statistics of `generate_report`.** The counts, the amount reconciliation
  and the guarded accuracy figure.
- **Workbook shape of `generate_report`.** There are seven sheets. Six of them
  hold a category's rows (or, for the bank sheet, the statement's
  transactions), or a one-row `Message` placeholder when there are none. The
  Summary sheet always holds its fixed nineteen lines. The TOTAL row is placed
  under the `Amount` column of the transaction sheets.
- **Metadata log.** `save_report_metadata` keeps the newest fifty records, and
  `get_reports` lists them newest first.
- **Upload preview.** The PDF row count of `analyze_file`.

Modules, one per file:

| file | module | what it holds |
|---|---|---|
| wrappers.dfy | Wrappers | `Option` and `Result` |
| text.dfy | Text | `str.strip()`, ASCII upper-casing, `in` on strings, `str.replace(p, '')` |
| amount.dfy | Amount | `parse_amount`, a decimal reading of `float()`, the currency rendering and its round trip |
| statement.dfy | Statement | header detection, Python's `repr` of a row, the keyword filter, row and table extraction |
| preview.dfy | Preview | the preview row count and its relation to the extractor |
| reconcile.dfy | Reconcile | ledger preparation, first-match lookup, the categorisation (declarative and as the source's loops), the unregistered records |
| stats.dfy | Statistics | the `stats` dictionary and its identities, accuracy |
| report.dfy | Report | sheets, placeholders, column order of the entry sheets, the TOTAL pass |
| session.dfy | Session | the constructor (with its failure cases), `generate_report`, a whole run |
| metadata.dfy | MetadataLog | the bounded log and its reversed listing |

Amounts are `real`, so the sum identities hold exactly; where this departs
from Python's floating point is listed under "Left out". I/O and library calls
become inputs:
- The statement is given as the sequence of tables the PDF library
  extracted, page after page. `None` stands for a PDF that cannot be opened.
- The ledger is given as its rows: the `ChequeDDNo` cell as `str()` renders
  it, and the `Amount`.
- The metadata file is given as what reading it yields.
- The timestamp of a record is a parameter.

Two behaviours of the code are easy to misread, and the model follows the
code in both:
- **Which entries take part.** The code keeps every ledger row whose
  `ChequeDDNo` is not null (app.py:44). A key that is empty or blank once
  stripped is not excluded: such an entry takes part and matches a bank row
  only if that row has the same key, which extraction never produces, since
  it requires 3 or more characters. The model keeps these entries, and they
  end up "Not Found in Bank".
- **The keyword filter.** The code tests the keywords against
  `str(row).upper()`, the upper-cased Python `repr` of the row's list of
  cells (app.py:81), rather than against the cells' text joined together.
  The model writes that `repr` out (quotes, escapes, `None` for empty cells).
  It proves that a keyword in any cell excludes the row. The converse does
  not hold, because escapes add letters: a cell holding a tab followed by
  "OTAL" has the `repr` `'\tOTAL'`, which upper-cases to text containing
  TOTAL.

## Model

| member | source | states |
|---|---|---|
| Amount.ParseAmount | app.py:112-122 | Total: 0 for a missing or empty cell and for text that is not a number once normalised; otherwise the value of the normalised text read as a decimal literal |
| Amount.NormaliseAmountText | app.py:117 | The text handed to `float()` has no surrounding whitespace, no comma left, and only characters of the input |
| Amount.ParseDecimal | app.py:119-122 | `float()` succeeds exactly on decimal literals (optional sign, digits with at most one point, at least one digit) |
| Amount.NormaliseCurrencyText | app.py:117 | Normalising "Nu. 1,234.50"-style text removes exactly the grouping commas, the marker and the blank after it, giving the plain decimal text |
| Amount.CurrencyTextRoundTrip | app.py:112-122 | A currency rendering reads back as the amount it prints, the same number its plain decimal rendering gives |
| Amount.DecimalTextReadsBack | app.py:112-122 | A plain decimal rendering reads back as the amount it prints |
| Amount.CurrencyExample | app.py:112-122 | "Nu. 1,234.50" reads as 1234.5 |
| Amount.GarbageIsZero | app.py:119-122 | Text that is no number, such as "garbage", reads as 0 instead of raising |
| Amount.DigitReads | app.py:88 | A lone digit reads as its value; in particular the "0" used for a missing amount cell reads as 0 |
| Statement.HeaderIndex | app.py:67-74 | The header is the first row with a non-empty cell whose upper-cased text contains JOURNAL; there is none when no row has such a cell |
| Statement.IsSummaryRow | app.py:81 | The keyword test as a definition: the upper-cased `repr` of the row contains TOTAL, OPENING, CLOSING, STATEMENT or BALANCE AS. It carries no contract of its own; KeywordCellMakesSummaryRow and EscapeFormsKeyword relate it to the cells |
| Statement.KeywordCellMakesSummaryRow | app.py:81 | A cell whose upper-cased text contains TOTAL, OPENING, CLOSING, STATEMENT or BALANCE AS makes the upper-cased `repr` of its row contain that keyword, so the row is skipped |
| Statement.EscapeFormsKeyword | app.py:81 | The keyword test is stricter than "some cell mentions a keyword": a row whose one cell is a tab followed by "OTAL" is skipped, though the cell does not contain TOTAL |
| Statement.ReadRowHasNoKeyword | app.py:77-82 | No cell of a row the extractor reads mentions one of the five keywords |
| Statement.ParseRow | app.py:77-101 | A row is read exactly when it has 5 or more cells, is no summary row, its stripped column 3 is an acceptable journal number (not empty, not "None", 3 or more characters) and `parse_amount` of its column 6 (or "0") is positive; a read row has at least 7 cells (shorter rows get amount 0), date, description and journal number are the stripped columns 0, 2 and 3, and the amount is that `parse_amount` value |
| Statement.ParseRows | app.py:77-101 | The transactions of a run of rows are exactly the results of the rows that read, no more than there are rows |
| Statement.ParseRowsAppend | app.py:77-101 | Rows are read in order: two runs of rows give the first run's transactions followed by the second's |
| Statement.ExtractTable | app.py:64-101 | A table with fewer than 2 rows or no header yields nothing; otherwise it yields the transactions of the rows after its first header, in row order and with repeats; so every transaction comes from a row strictly after that header, and every such row that reads is present |
| Statement.ExtractTables | app.py:60-104 | Every transaction of the statement comes from a readable row after the header of a table with 2 or more rows, and every such row contributes its transaction |
| Statement.ExtractTablesAppend | app.py:60-104 | Tables are read in order, page after page: two runs of tables give the first run's transactions followed by the second's |
| Preview.TablesFound | app.py:1280 | `tables_found` is 1 exactly when the preview counted a row |
| Preview.CountNonSummary | app.py:1270 | The filtered count of a run of rows is at most its length, and 0 exactly when every row is a summary row |
| Preview.PreviewCount | app.py:1263-1271 | `transaction_count` is 0 exactly when every row below the first row of every table is a summary row |
| Preview.PreviewBoundsExtraction | app.py:1264-1280 | The preview count is never below the number of transactions the extractor reads, so a statement with a transaction shows `tables_found` = 1 |
| Reconcile.Prepare | app.py:44-47 | Every prepared entry has a `ChequeDDNo` and its key is that text stripped |
| Reconcile.PrepareAppend | app.py:44-47 | Preparation keeps ledger order and repeats: two runs of ledger rows give the first run's entries followed by the second's |
| Reconcile.PreparedMembers | app.py:44 | A ledger row is among the prepared entries exactly when it has a `ChequeDDNo` |
| Reconcile.PrepareKeyed | app.py:44 | When every row has a `ChequeDDNo`, preparation keeps them all, in order |
| Reconcile.FirstMatch | app.py:141-153 | The lookup finds the first bank transaction whose journal number equals the key exactly, and none exactly when no transaction has that journal number |
| Reconcile.RowsFor | app.py:143-183 | One entry contributes one or two rows to `all_entries`, the first for that entry with its own amount; RowsForOutcome states which |
| Reconcile.RowsForOutcome | app.py:143-183 | One entry: not found with empty bank amount and difference; matched when the gap is strictly below 1.0, with the bank amount and difference 0; otherwise a mismatch carrying bank amount and difference, followed by its adjustment. The outcome depends on the key alone, so entries with equal keys see the same bank row |
| Reconcile.Reconcile | app.py:124-207 | The source's two loops (entry lists and `bank_matched` filled side by side, then the statement scan) compute exactly the declarative categorisation |
| Reconcile.WalkCategorizes | app.py:136-183 | After the entry loop, the four lists are the rows of all entries filtered by status, and `bank_matched` is the set of first matches |
| Reconcile.CollectUnregistered | app.py:185-199 | The statement scan collects the records of the unpicked transactions, in bank order |
| Reconcile.ToUnregistered | app.py:189-199 | The record of an unpicked transaction: its date, journal number, description and amount in the fixed-layout columns, customer "UNREGISTERED", status "Not in Data Entry" (it restates the record the source builds) |
| Reconcile.Categorize | app.py:136-207 | The declarative categorisation, as a definition: `all_entries` is the rows of each entry in entry order, the other entry lists are its status filters, and `unregistered` the records of the unpicked transactions in bank order. Reconcile shows that the source's loops compute it |
| Reconcile.ChosenExactly | app.py:151-153 | `bank_matched` holds exactly the indices some entry found as its first match |
| Reconcile.PartitionCounts | app.py:136-183 | Matched, mismatched and unmatched entries add up to the prepared count; `all_entries` has one extra row per mismatch; `adjusted` has two rows per mismatch |
| Reconcile.EachEntryOnceInOrder | app.py:136-183 | Dropping the adjustment rows from `all_entries` gives back the prepared entries, in order: each is classified once |
| Reconcile.AdjustmentsFollowMismatches | app.py:165-183 | In `all_entries` and in `adjusted`, each mismatch row is immediately followed by its adjustment (same entry and bank amount, amount equal to the difference, so entry plus adjustment equals the bank amount), and each adjustment immediately follows its mismatch |
| Reconcile.UnregisteredIndicesExactly | app.py:186 | The unregistered indices are exactly the unchosen indices of the statement |
| Reconcile.UnregisteredIndicesAscending | app.py:186-188 | The unregistered transactions are listed in bank order |
| Reconcile.UnregisteredExactly | app.py:185-199 | `unregistered` lists exactly the transactions no entry picked, in bank order, each as its record (customer "UNREGISTERED", status "Not in Data Entry", amount and bank amount the transaction's); with the distinct picked rows they make up the whole statement |
| Statistics.AdjustmentOfRows | app.py:156-183 | One entry's adjustment rows move its amount to the settled amount: the bank amount for a mismatch, its own amount otherwise |
| Statistics.AdjustedTotal | app.py:216-220 | Entered total plus the sum over all adjustment rows is the sum of the settled amounts |
| Statistics.StatsCounts | app.py:222-228 | `matched + mismatches + unmatched` is the number of prepared entries, and `mismatches` is the number of mismatch rows |
| Statistics.StatsAmounts | app.py:216-234 | `total_adjustment_amount` sums the adjustment rows alone, and `total_after_adjustment` settles every mismatch at its bank amount |
| Statistics.StatsOfReconciliation | app.py:215-236 | All identities of the `stats` dictionary: counts, totals, the difference as bank total less adjusted total, and unregistered plus distinct picked rows equal to the statement's length |
| Statistics.ComputeStats | app.py:215-236 | The `stats` dictionary as a definition, with the adjustment total and mismatch count read off `adjusted` and 0 when it is empty; its identities are stated by StatsOfReconciliation |
| Statistics.AccuracyOf | app.py:312 | No division with no entries; otherwise the percentage times the entry count is 100 times the matched count |
| Statistics.PercentBounds | app.py:312 | A share of at most the whole is a percentage from 0 to 100, and 100 exactly when it is the whole |
| Statistics.AccuracyBounded | app.py:312 | The accuracy of a reconciliation lies between 0 and 100, and is 100 exactly when every entry matched |
| Report.ColumnOf | app.py:344-349 | The 1-based column of the first header equal to the name, and none exactly when no header is |
| Report.AppendNew | app.py:145-183 | Columns first seen later are appended once each: the old columns stay in front, the appended names are new and pairwise distinct, and the result holds exactly the old and the new names |
| Report.EntryHeaders | app.py:145-183 | An entry sheet's columns start with the ledger's columns and hold exactly those, the four added columns, and `Remarks` when an adjustment row is present |
| Report.AdjustedSheetHasRemarks | app.py:178-183 | A non-empty adjusted sheet always has a `Remarks` column |
| Report.CategorySheet | app.py:241-268 | A category sheet is the placeholder exactly when the category is empty, and has at least two worksheet rows either way |
| Report.SheetOf | app.py:241-325 | Each of the seven sheets is never empty; a category sheet is the placeholder exactly when its category is empty and otherwise holds the category's rows; the summary has nineteen lines |
| Report.Workbook | app.py:239-325 | The workbook is the seven sheets in the order they are written, each as SheetOf gives it (it restates the sheet order) |
| Report.AddTotal | app.py:331-357 | The TOTAL pass leaves every sheet's rows as they are and only adds the TOTAL row; TotalPlacement states where |
| Report.TotalPlacement | app.py:331-357 | A sheet gets a TOTAL row exactly when it is not the summary, has more than one row and has an `Amount` header; the label is written to column 1 of the row below the last, and the SUM over the first `Amount` column runs from row 2 to the last data row, covering every data row |
| Report.TotalCells | app.py:353-357 | The TOTAL row's cells after its two writes: the SUM in the `Amount` column, and the label in column 1 only when that is not the `Amount` column |
| Report.TotalLabelKept | app.py:344-357 | The TOTAL label survives exactly when the sheet's first header is not `Amount`; when it is, the SUM is written over the label |
| Report.PlaceholderUntotalled | app.py:341-351 | A placeholder sheet never gets a TOTAL row |
| Report.SheetTotal | app.py:241-357 | With an `Amount` ledger column, a sheet gets a TOTAL row exactly when it holds data and is not the summary, and the SUM covers all its data rows |
| Report.ReportTotals | app.py:330-357 | The same for the whole seven-sheet workbook |
| Session.StripJournalsOfExtracted | app.py:50 | The constructor's second strip of the journal numbers changes nothing |
| Session.OpenAsWritten | app.py:41-50 | The constructor as written succeeds only with a readable statement from which at least one transaction is extracted |
| Session.Open | app.py:41-50 | The corrected constructor succeeds exactly when the ledger has `ChequeDDNo` and the statement can be read, and holds the ledger's columns, the prepared entries and the extracted transactions |
| Session.EmptyStatementRejected | app.py:49-50 | The two constructors differ exactly on a readable statement without transactions |
| Session.NoTablesExample | app.py:49-50 | A statement without tables is rejected as written and accepted by the correction |
| Session.GenerateReport | app.py:209-236 | Generating the report fails exactly when the ledger has no `Amount` column |
| Session.RunSucceeds | app.py:41-357 | With the corrected constructor, a ledger with both key columns and a readable statement always yields a report; it counts every prepared entry and extracted transaction, its unregistered count completes the picked rows to the statement, and its seven sheets are totalled right |
| Session.RunAsWrittenSucceeds | app.py:41-357 | With the constructor as written, the same holds whenever the statement yields at least one transaction, and there the two constructors agree |
| MetadataLog.Loaded | app.py:367-376 | Once reading gets through, a missing file, one that cannot be opened, or one whose text `json.load` rejects with `JSONDecodeError` counts as an empty log, and a list of records is that log |
| MetadataLog.LastN | app.py:386 | `xs[-n:]` for a positive `n`: the last `n` elements, or all when there are fewer |
| MetadataLog.Kept | app.py:378-386 | The log a save writes holds between 1 and 50 records, the new one last |
| MetadataLog.Save | app.py:365-389 | A save fails exactly when the file's bytes do not decode, since the `UnicodeDecodeError` is neither of the two caught exceptions; otherwise it writes the kept log |
| MetadataLog.SaveKeepsNewest | app.py:378-386 | With room, the log is the prior log plus the new record; otherwise the newest 49 prior records in order, then the new one |
| MetadataLog.Listing | app.py:1356 | The listing is the log newest first, as long as the log; a missing file, or one whose text `json.load` rejects with `JSONDecodeError`, lists nothing |
| MetadataLog.GetReports | app.py:1348-1360 | A listing exists exactly when the file can be opened and decoded, since only `JSONDecodeError` is caught; when it exists it is the log newest first |
| MetadataLog.ListingAfterSave | app.py:1356 | After a save the listing starts with the new record and continues with the listing from before, cut to at most 50; a file that could not be opened counted as empty, so then the new record stands alone |

## Left out

- The PDF library. Opening the document, `extract_tables` and the page loop are inputs: the tables arrive as one sequence, page after page. A document that cannot be opened is the `UnreadableStatement` failure (app.py:108-110).
- The ledger's spreadsheet parsing and pandas dtypes. The ledger's `ChequeDDNo` cell is given as its `str()` rendering, so a numeric cell shown as "123.0" is outside the model.
- `float(row['Amount'])` failing on a non-numeric ledger cell. Ledger amounts are given as numbers.
- Reconcile.RowsForOutcome: decides the tolerance test of app.py:156 over exact decimals, not IEEE doubles. A decimal gap of exactly 1.00 is always a mismatch in the model. Python's double subtraction can land just below 1.0 and call it matched: 2.3 - 1.3 is 0.9999999999999998, while 1000.3 - 999.3 and 10.1 - 9.1 stay at or above 1.0. Likewise pandas' float sums in the statistics can differ from the exact sums in the last bits.
- NaN amounts. `.sum()` skips NaN; ledger amounts here are always numbers.
- Amount.ParseDecimal: reads decimal literals only. Python's `float()` also accepts exponents, "inf", "nan", underscores between digits and non-ASCII digits, which the model reads as failures (0). Surrounding whitespace is stripped before `float()` sees the text (app.py:117), and inner whitespace is rejected by both.
- Text.Upper: upper-cases ASCII letters only. Python's `upper()` also maps a few other characters onto ASCII capitals (U+0131 to I, U+017F to S, ligatures such as U+FB06 to ST), so a keyword spelt with them is not detected here.
- `repr` of characters at U+0100 and above, which the model prints as they are. Python writes the non-printable ones among them (format characters, separators, unassigned code points) as `\uXXXX` or `\UXXXXXXXX`, and their hex digits upper-case into letters that can complete a keyword: a cell "\u200bALANCE AS" has the `repr` `'\u200bALANCE AS'`, which upper-cases to text containing BALANCE AS. The source skips such a row; the model reads it. Python's printability table for all of Unicode is not modelled.
- The `except: continue` around a row read (app.py:102-103). Nothing inside it raises in the model: cells are strings, and `parse_amount` is total.
- Session.RunSucceeds: describes the corrected constructor `Open`. With the constructor as written, a readable statement with no transactions yields no report (see Findings); Session.RunAsWrittenSucceeds covers the statements that do yield transactions.
- openpyxl and pandas writing. A sheet is its header row and number of rows. Cell values, sheet names with their emoji, `get_column_letter` and the formula text are not modelled: the SUM range is kept as the two row numbers and the column index.
- Float and text formatting: the `:,.2f` and `.1f%` summary strings, the `Remarks` text of an adjustment and the summary sheet's value column. The accuracy is kept as a real.
- A ledger column that `reconcile` also writes (a ledger with its own `Status` column, say). Only its effect on the header list is modelled.
- The metadata file's JSON encoding, the timestamp clock, a failing write of the file and the read-modify-write race between two saves. A file that holds valid JSON but no list (where `.append` would raise) is not modelled: the stored state is missing, unreadable, undecodable, corrupt or a list of records.
- FastAPI routing, uploads, temporary files, logging and the HTML page.

## Findings

| source | as written | input that shows it | evidently intended | confidence | as-written member | corrected member |
|---|---|---|---|---|---|---|
| app.py:49-50 | A statement from which no transaction is extracted gives `pd.DataFrame([])`, which has no `journal_number` column, so the lookup at line 50 raises `KeyError` and no report is produced | a readable statement PDF whose pages hold no table, with any ledger that has `ChequeDDNo` | An empty statement is a valid input: every entry is then "Not Found in Bank", and the report code has a placeholder for it ("No bank data to display", app.py:319-325) | not executed | Session.OpenAsWritten | Session.Open |
