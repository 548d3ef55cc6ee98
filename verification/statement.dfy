/** The statement row extractor (`BankReconciliation.parse_bank_pdf` without
    the PDF library): the tables found on the statement's pages, in page
    order, become the list of posted transactions.

    A table is a list of rows and a row a list of cells; a cell is `None`
    when the PDF library found nothing there. */
module Statement {
  import opened Wrappers
  import opened Text
  import opened Amount

  type Cell = Option<string>
  type Row = seq<Cell>
  type Table = seq<Row>

  /** One posted transaction of the statement. */
  datatype Transaction = Transaction(date: string, journal: string, description: string, amount: real)

  /** Python truthiness of a cell: present and not the empty string. */
  predicate Truthy(c: Cell) {
    c.Some? && c.value != ""
  }

  /** `str(cell).strip() if cell else ''`. */
  function CellText(c: Cell): string {
    if Truthy(c) then Strip(c.value) else ""
  }

  // ---------------------------------------------------------------------
  // The header row.

  /** A cell whose upper-cased text mentions JOURNAL. */
  predicate MentionsJournal(c: Cell) {
    Truthy(c) && Contains(Upper(c.value), "JOURNAL")
  }

  predicate IsHeaderRow(row: Row) {
    exists k :: 0 <= k < |row| && MentionsJournal(row[k])
  }

  /** The index of the table's first header row, if it has one. */
  function HeaderIndex(table: Table): (r: Option<nat>)
    ensures r.Some? ==> r.value < |table| && IsHeaderRow(table[r.value])
                        && forall j :: 0 <= j < r.value ==> !IsHeaderRow(table[j])
    ensures r.None? ==> forall j :: 0 <= j < |table| ==> !IsHeaderRow(table[j])
  {
    if table == [] then None
    else if IsHeaderRow(table[0]) then Some(0)
    else match HeaderIndex(table[1..])
      case None => None
      case Some(h) => Some(h + 1)
  }

  // ---------------------------------------------------------------------
  // Running-total and footer rows. The source tests the keywords against
  // `str(row).upper()`, the upper-cased Python `repr` of the row's list of
  // cells, so the repr is modelled.

  function HexDigit(n: nat): char
    requires n < 16
  {
    "0123456789abcdef"[n]
  }

  /** The characters below U+0100 that Python's `repr` prints as they are. */
  predicate IsPrintable(c: char) {
    var n := c as int;
    !(n < 0x20 || n == 0x7f || 0x80 <= n <= 0xa0 || n == 0xad)
  }

  /** The quote `repr` puts around a string: double quotes only when the
      string holds a single quote and no double quote. */
  function QuoteFor(s: string): char {
    if '\'' in s && '"' !in s then '"' else '\''
  }

  /** How `repr` writes one character inside quotes `q`. */
  function EscapeChar(c: char, q: char): string {
    if c == '\\' then "\\\\"
    else if c == q then ['\\', q]
    else if c == '\t' then "\\t"
    else if c == '\n' then "\\n"
    else if c == '\r' then "\\r"
    else if !IsPrintable(c) then ['\\', 'x', HexDigit(c as int / 16), HexDigit(c as int % 16)]
    else [c]
  }

  function Escape(s: string, q: char): string
    decreases |s|
  {
    if s == [] then [] else EscapeChar(s[0], q) + Escape(s[1..], q)
  }

  /** `repr(cell)`: `None`, or the quoted, escaped string. */
  function CellRepr(c: Cell): string {
    match c
    case None => "None"
    case Some(s) => var q := QuoteFor(s); [q] + Escape(s, q) + [q]
  }

  function JoinReprs(row: Row): string
    decreases |row|
  {
    if row == [] then ""
    else if |row| == 1 then CellRepr(row[0])
    else CellRepr(row[0]) + ", " + JoinReprs(row[1..])
  }

  /** `str(row)` for a list of cells. */
  function RowRepr(row: Row): string {
    "[" + JoinReprs(row) + "]"
  }

  const SummaryKeywords: seq<string> := ["TOTAL", "OPENING", "CLOSING", "STATEMENT", "BALANCE AS"]

  /** A row the extractor skips as a running-total or footer row. */
  predicate IsSummaryRow(row: Row) {
    exists k :: 0 <= k < |SummaryKeywords| && Contains(Upper(RowRepr(row)), SummaryKeywords[k])
  }

  /** No cell of the row mentions a summary keyword. */
  predicate NoKeywordCell(row: Row) {
    forall k, j :: 0 <= k < |row| && 0 <= j < |SummaryKeywords| && row[k].Some?
      ==> !Contains(Upper(row[k].value), SummaryKeywords[j])
  }

  /** Letters and the blank: `repr` leaves them alone. */
  predicate IsPlain(c: char) {
    'A' <= c <= 'Z' || 'a' <= c <= 'z' || c == ' '
  }

  predicate AllPlain(s: string) {
    forall i :: 0 <= i < |s| ==> IsPlain(s[i])
  }

  /** Upper-case letters and blanks, the alphabet of the keywords. */
  predicate IsKeywordText(w: string) {
    forall i :: 0 <= i < |w| ==> 'A' <= w[i] <= 'Z' || w[i] == ' '
  }

  lemma KeywordsAreKeywordText(j: nat)
    requires j < |SummaryKeywords|
    ensures IsKeywordText(SummaryKeywords[j])
  {
    var w := SummaryKeywords[j];
    if j == 0 { assert w == "TOTAL"; }
    else if j == 1 { assert w == "OPENING"; }
    else if j == 2 { assert w == "CLOSING"; }
    else if j == 3 { assert w == "STATEMENT"; }
    else { assert w == "BALANCE AS"; }
  }

  lemma {:induction false} EscapeAppend(a: string, b: string, q: char)
    ensures Escape(a + b, q) == Escape(a, q) + Escape(b, q)
    decreases |a|
  {
    if a == [] {
      assert a + b == b;
    } else {
      assert (a + b)[1..] == a[1..] + b;
      EscapeAppend(a[1..], b, q);
    }
  }

  lemma {:induction false} EscapePlain(s: string, q: char)
    requires q == '\'' || q == '"'
    requires AllPlain(s)
    ensures Escape(s, q) == s
    decreases |s|
  {
    if s != [] {
      EscapePlain(s[1..], q);
      assert s == [s[0]] + s[1..];
    }
  }

  /** Where a keyword occurs in upper-cased text, the original text holds
      plain characters that upper-case to the keyword. */
  lemma PlainUnderKeyword(s: string, w: string, i: int)
    requires IsKeywordText(w) && OccursAt(Upper(s), w, i)
    ensures AllPlain(s[i..i + |w|])
    ensures Upper(s[i..i + |w|]) == w
  {
    var m := s[i..i + |w|];
    forall j | 0 <= j < |w| ensures IsPlain(m[j]) && UpperChar(m[j]) == w[j] {
      assert Upper(s)[i + j] == w[j];
      assert m[j] == s[i + j];
    }
  }

  /** Escaping leaves a run of plain characters in place. */
  lemma EscapeAroundPlain(pre: string, m: string, post: string, q: char)
    requires q == '\'' || q == '"'
    requires AllPlain(m)
    ensures Escape(pre + m + post, q) == Escape(pre, q) + m + Escape(post, q)
  {
    EscapeAppend(pre + m, post, q);
    EscapeAppend(pre, m, q);
    EscapePlain(m, q);
  }

  /** The repr of a cell, split around a run of plain characters. */
  lemma ReprAroundPlain(s: string, i: nat, n: nat)
    requires i + n <= |s| && AllPlain(s[i..i + n])
    ensures var q := QuoteFor(s);
      CellRepr(Some(s)) == ([q] + Escape(s[..i], q)) + s[i..i + n] + (Escape(s[i + n..], q) + [q])
  {
    var q := QuoteFor(s);
    assert s == s[..i] + s[i..i + n] + s[i + n..];
    EscapeAroundPlain(s[..i], s[i..i + n], s[i + n..], q);
  }

  /** Text that upper-cases to `w` keeps `w` in the upper-cased whole. */
  lemma UpperInfix(a: string, m: string, c: string, w: string)
    requires Upper(m) == w
    ensures Contains(Upper(a + m + c), w)
  {
    UpperAppend3(a, m, c);
    ContainsSelf(w);
    ContainsInfix(Upper(a), Upper(m), Upper(c), w);
  }

  /** A keyword in a cell's upper-cased text survives quoting and escaping. */
  lemma CellKeywordInRepr(s: string, w: string)
    requires IsKeywordText(w) && Contains(Upper(s), w)
    ensures Contains(Upper(CellRepr(Some(s))), w)
  {
    var i :| OccursAt(Upper(s), w, i);
    PlainUnderKeyword(s, w, i);
    ReprAroundPlain(s, i, |w|);
    var q := QuoteFor(s);
    UpperInfix([q] + Escape(s[..i], q), s[i..i + |w|], Escape(s[i + |w|..], q) + [q], w);
  }

  /** Upper-casing the joined reprs piece by piece. */
  lemma UpperJoin(row: Row)
    requires |row| > 1
    ensures Upper(JoinReprs(row)) == Upper(CellRepr(row[0])) + Upper(", ") + Upper(JoinReprs(row[1..]))
  {
    UpperAppend3(CellRepr(row[0]), ", ", JoinReprs(row[1..]));
  }

  /** A keyword in the first cell's repr is in the upper-cased join. */
  lemma JoinHead(row: Row, w: string)
    requires |row| > 1 && Contains(Upper(CellRepr(row[0])), w)
    ensures Contains(Upper(JoinReprs(row)), w)
  {
    UpperJoin(row);
    ContainsInPrefix(Upper(CellRepr(row[0])), Upper(", "), w);
    ContainsInPrefix(Upper(CellRepr(row[0])) + Upper(", "), Upper(JoinReprs(row[1..])), w);
  }

  /** A keyword in the join of the later cells is in the whole join. */
  lemma JoinTail(row: Row, w: string)
    requires |row| > 1 && Contains(Upper(JoinReprs(row[1..])), w)
    ensures Contains(Upper(JoinReprs(row)), w)
  {
    UpperJoin(row);
    ContainsInSuffix(Upper(CellRepr(row[0])) + Upper(", "), Upper(JoinReprs(row[1..])), w);
  }

  /** A keyword in one cell's repr is a keyword in the joined reprs. */
  lemma {:induction false} JoinKeepsKeyword(row: Row, k: nat, w: string)
    requires k < |row| && Contains(Upper(CellRepr(row[k])), w)
    ensures Contains(Upper(JoinReprs(row)), w)
    decreases k
  {
    if |row| > 1 {
      if k == 0 {
        JoinHead(row, w);
      } else {
        assert row[1..][k - 1] == row[k];
        JoinKeepsKeyword(row[1..], k - 1, w);
        JoinTail(row, w);
      }
    }
  }

  /** A row with a cell mentioning a summary keyword is a summary row. */
  lemma KeywordCellMakesSummaryRow(row: Row, k: nat, j: nat)
    requires k < |row| && j < |SummaryKeywords| && row[k].Some?
    requires Contains(Upper(row[k].value), SummaryKeywords[j])
    ensures IsSummaryRow(row)
  {
    var w := SummaryKeywords[j];
    KeywordsAreKeywordText(j);
    CellKeywordInRepr(row[k].value, w);
    JoinKeepsKeyword(row, k, w);
    UpperAppend("[" + JoinReprs(row), "]");
    UpperAppend("[", JoinReprs(row));
    ContainsInfix(Upper("["), Upper(JoinReprs(row)), Upper("]"), w);
  }

  lemma NoKeywordCellOutsideSummary(row: Row)
    requires !IsSummaryRow(row)
    ensures NoKeywordCell(row)
  {
    forall k, j | 0 <= k < |row| && 0 <= j < |SummaryKeywords| && row[k].Some?
      ensures !Contains(Upper(row[k].value), SummaryKeywords[j])
    {
      if Contains(Upper(row[k].value), SummaryKeywords[j]) {
        KeywordCellMakesSummaryRow(row, k, j);
      }
    }
  }

  lemma TabCellEscape()
    ensures Escape("\tOTAL", '\'') == "\\tOTAL"
  {
    var cell := "\tOTAL";
    assert cell[1..] == "OTAL";
    assert AllPlain("OTAL");
    EscapePlain("OTAL", '\'');
    assert EscapeChar(cell[0], '\'') == "\\t";
  }

  /** The `repr` of a row holding one cell, a tab followed by "OTAL". */
  lemma TabCellRepr()
    ensures RowRepr([Some("\tOTAL")]) == "['\\tOTAL']"
  {
    var cell := "\tOTAL";
    assert QuoteFor(cell) == '\'' by {
      assert forall i :: 0 <= i < |cell| ==> cell[i] != '\'';
    }
    TabCellEscape();
  }

  lemma TabReprMentionsTotal()
    ensures Contains(Upper("['\\tOTAL']"), "TOTAL")
  {
    assert Upper("['\\tOTAL']")[3..8] == "TOTAL";
    assert OccursAt(Upper("['\\tOTAL']"), "TOTAL", 3);
  }

  lemma TabCellLacksTotal()
    ensures !Contains(Upper("\tOTAL"), "TOTAL")
  {
    var cell := "\tOTAL";
    assert Upper(cell) == cell;
    assert forall i :: OccursAt(cell, "TOTAL", i) ==> i == 0;
    assert cell[..5][0] != "TOTAL"[0];
  }

  /** The converse fails: the keyword test also fires on escape sequences.
      A cell holding a tab and "OTAL" mentions no keyword, yet its `repr`
      `'\tOTAL'` upper-cases to text containing TOTAL. */
  lemma EscapeFormsKeyword()
    ensures var row: Row := [Some("\tOTAL")];
      IsSummaryRow(row) && !Contains(Upper(row[0].value), SummaryKeywords[0])
  {
    TabCellRepr();
    TabReprMentionsTotal();
    TabCellLacksTotal();
    assert SummaryKeywords[0] == "TOTAL";
  }

  // ---------------------------------------------------------------------
  // Transaction rows.

  /** Column 6, or "0" when the row is shorter or the cell is empty. */
  function AmountText(row: Row): string {
    if |row| > 6 && Truthy(row[6]) then Strip(row[6].value) else "0"
  }

  /** The journal-number test: not empty, not the text "None", at least
      three characters. */
  predicate AcceptableJournal(j: string) {
    j != "" && j != "None" && |j| >= 3
  }

  /** One row of a transaction table, read with the bank's fixed layout:
      date in column 0, description in column 2, journal number in column 3,
      amount in column 6. */
  function ParseRow(row: Row): (r: Option<Transaction>)
    ensures r.Some? <==> && |row| >= 5 && !IsSummaryRow(row)
                         && AcceptableJournal(CellText(row[3]))
                         && ParseAmount(Some(AmountText(row))) > 0.0
    ensures r.Some? ==> r.value.amount == ParseAmount(Some(AmountText(row)))
    ensures r.Some? ==> |row| >= 7
    ensures r.Some? ==> && r.value.date == CellText(row[0])
                        && r.value.description == CellText(row[2])
                        && r.value.journal == CellText(row[3])
                        && |r.value.journal| >= 3 && r.value.journal != "None"
                        && IsTrimmed(r.value.journal) && r.value.amount > 0.0
  {
    if |row| < 5 || IsSummaryRow(row) then None
    else
      var journal := CellText(row[3]);
      if !AcceptableJournal(journal) then None
      else
        var amount := ParseAmount(Some(AmountText(row)));
        if amount <= 0.0 then None
        else
          DigitReads('0');
          Some(Transaction(CellText(row[0]), journal, CellText(row[2]), amount))
  }

  /** A row the extractor reads is no running-total or footer row: none of
      its cells mentions TOTAL, OPENING, CLOSING, STATEMENT or BALANCE AS. */
  lemma ReadRowHasNoKeyword(row: Row)
    requires ParseRow(row).Some?
    ensures NoKeywordCell(row)
  {
    NoKeywordCellOutsideSummary(row);
  }

  /** The transactions of a run of rows, in row order. */
  function ParseRows(rows: seq<Row>): (r: seq<Transaction>)
    ensures |r| <= |rows|
    ensures forall t :: t in r ==> exists i :: 0 <= i < |rows| && ParseRow(rows[i]) == Some(t)
    ensures forall i :: 0 <= i < |rows| && ParseRow(rows[i]).Some? ==> ParseRow(rows[i]).value in r
    decreases |rows|
  {
    if rows == [] then []
    else
      var rest := ParseRows(rows[1..]);
      ConsFromRows(ParseRow, rows, rest);
      ConsHasRows(ParseRow, rows, rest);
      Cons(ParseRow(rows[0]), rest)
  }

  /** A value, if any, in front of `rest`. */
  function Cons<T>(o: Option<T>, rest: seq<T>): seq<T> {
    match o
    case None => rest
    case Some(t) => [t] + rest
  }

  /** Reading `xs` one element at a time with `f`: every value read in
      front of the later elements' comes from an element. */
  lemma ConsFromRows<A, B>(f: A -> Option<B>, xs: seq<A>, rest: seq<B>)
    requires xs != []
    requires forall t :: t in rest ==> exists i :: 0 <= i < |xs[1..]| && f(xs[1..][i]) == Some(t)
    ensures forall t :: t in Cons(f(xs[0]), rest) ==> exists i :: 0 <= i < |xs| && f(xs[i]) == Some(t)
  {
    forall t | t in Cons(f(xs[0]), rest) ensures exists i :: 0 <= i < |xs| && f(xs[i]) == Some(t) {
      if t in rest {
        var i :| 0 <= i < |xs[1..]| && f(xs[1..][i]) == Some(t);
        assert xs[1..][i] == xs[i + 1];
      } else {
        assert f(xs[0]) == Some(t);
      }
    }
  }

  /** Every element of `xs` that reads has its value in front of the later
      elements'. */
  lemma ConsHasRows<A, B>(f: A -> Option<B>, xs: seq<A>, rest: seq<B>)
    requires xs != []
    requires forall i :: 0 <= i < |xs[1..]| && f(xs[1..][i]).Some? ==> f(xs[1..][i]).value in rest
    ensures forall i :: 0 <= i < |xs| && f(xs[i]).Some? ==> f(xs[i]).value in Cons(f(xs[0]), rest)
  {
    forall i | 0 <= i < |xs| && f(xs[i]).Some? ensures f(xs[i]).value in Cons(f(xs[0]), rest) {
      if i > 0 {
        assert xs[1..][i - 1] == xs[i];
      }
    }
  }

  /** Rows are read in order: the transactions of two runs of rows are
      those of the first run followed by those of the second. */
  lemma {:induction false} ParseRowsAppend(a: seq<Row>, b: seq<Row>)
    ensures ParseRows(a + b) == ParseRows(a) + ParseRows(b)
    decreases |a|
  {
    if a == [] {
      assert a + b == b;
    } else {
      assert (a + b)[0] == a[0];
      assert (a + b)[1..] == a[1..] + b;
      ParseRowsAppend(a[1..], b);
    }
  }

  /** Row `i` of `table` lies after the table's header row. */
  predicate AfterHeader(table: Table, i: int) {
    HeaderIndex(table).Some? && HeaderIndex(table).value < i < |table|
  }

  /** The transactions of one table: none unless it has two rows and a
      header row, else those of the rows after the first header. */
  function ExtractTable(table: Table): (r: seq<Transaction>)
    ensures |table| < 2 || HeaderIndex(table).None? ==> r == []
    ensures |table| >= 2 && HeaderIndex(table).Some? ==>
              r == ParseRows(table[HeaderIndex(table).value + 1..])
    ensures forall t :: t in r ==> exists i :: AfterHeader(table, i) && ParseRow(table[i]) == Some(t)
    ensures forall i ::
              (|table| >= 2 && AfterHeader(table, i) && ParseRow(table[i]).Some?)
              ==> ParseRow(table[i]).value in r
  {
    if |table| < 2 then []
    else match HeaderIndex(table)
      case None => []
      case Some(h) =>
        var rows := table[h + 1..];
        assert forall i :: 0 <= i < |rows| ==> rows[i] == table[h + 1 + i];
        assert forall i :: AfterHeader(table, i) ==> rows[i - h - 1] == table[i];
        ParseRows(rows)
  }

  /** Row `i` of table `ti` is a transaction row the extractor reads. */
  predicate ExtractedFrom(tables: seq<Table>, ti: int, i: int, t: Transaction) {
    && 0 <= ti < |tables| && |tables[ti]| >= 2
    && AfterHeader(tables[ti], i) && ParseRow(tables[ti][i]) == Some(t)
  }

  /** All transactions of the statement, table after table. */
  function ExtractTables(tables: seq<Table>): (r: seq<Transaction>)
    ensures forall t :: t in r ==> exists ti, i :: ExtractedFrom(tables, ti, i, t)
    ensures forall ti, i ::
              (0 <= ti < |tables| && |tables[ti]| >= 2 && AfterHeader(tables[ti], i)
               && ParseRow(tables[ti][i]).Some?) ==> ParseRow(tables[ti][i]).value in r
    decreases |tables|
  {
    if tables == [] then []
    else
      var first, rest := ExtractTable(tables[0]), ExtractTables(tables[1..]);
      var r := first + rest;
      assert forall t :: t in r ==> exists ti, i :: ExtractedFrom(tables, ti, i, t) by {
        forall t | t in r ensures exists ti, i :: ExtractedFrom(tables, ti, i, t) {
          if t in first {
            var i :| AfterHeader(tables[0], i) && ParseRow(tables[0][i]) == Some(t);
            assert ExtractedFrom(tables, 0, i, t);
          } else {
            var ti, i :| ExtractedFrom(tables[1..], ti, i, t);
            assert ExtractedFrom(tables, ti + 1, i, t);
          }
        }
      }
      assert forall ti, i ::
              (0 <= ti < |tables| && |tables[ti]| >= 2 && AfterHeader(tables[ti], i)
               && ParseRow(tables[ti][i]).Some?) ==> ParseRow(tables[ti][i]).value in r by {
        forall ti, i | 0 <= ti < |tables| && |tables[ti]| >= 2 && AfterHeader(tables[ti], i)
                       && ParseRow(tables[ti][i]).Some?
          ensures ParseRow(tables[ti][i]).value in r
        {
          if ti > 0 {
            assert tables[1..][ti - 1] == tables[ti];
          }
        }
      }
      r
  }

  /** Tables are read in order: the transactions of two runs of tables are
      those of the first run followed by those of the second. */
  lemma {:induction false} ExtractTablesAppend(a: seq<Table>, b: seq<Table>)
    ensures ExtractTables(a + b) == ExtractTables(a) + ExtractTables(b)
    decreases |a|
  {
    if a == [] {
      assert a + b == b;
    } else {
      assert (a + b)[0] == a[0];
      assert (a + b)[1..] == a[1..] + b;
      ExtractTablesAppend(a[1..], b);
    }
  }
}
