/** The matcher and categoriser (`BankReconciliation.reconcile`): one pass
    over the ledger entries that carry a cheque/journal number, each looked
    up against the first bank transaction with the same journal number,
    followed by the collection of the bank transactions nobody picked. */
module Reconcile {
  import opened Wrappers
  import opened Text
  import opened Statement

  /** One row of the data-entry spreadsheet, reduced to the two columns the
      reconciliation reads: its `ChequeDDNo` cell as `str()` renders it
      (`None` when the cell is empty) and its `Amount`. */
  datatype LedgerEntry = LedgerEntry(chequeNo: Option<string>, amount: real)

  /** A ledger row the reconciliation looks at, with the trimmed key the
      constructor stores in its `_ChequeDDNo_str` column. */
  datatype Entry = Entry(row: LedgerEntry, key: string)

  /** The `Status` column of an entry row. */
  datatype Status = NotFoundInBank | Matched | AmountMismatch | AdjustmentEntry

  /** A ledger entry as it appears in the entry sheets: the entry with its
      key, the `Amount` column, `Status`, `Bank_Amount` and `Difference`
      (`None` for the empty string the source writes for unmatched
      entries). */
  datatype EntryRow = EntryRow(
    entry: Entry, amount: real, status: Status,
    bankAmount: Option<real>, difference: Option<real>)

  /** A bank transaction no ledger entry picked, as the sheet of
      unregistered transactions shows it. */
  datatype UnregisteredRow = UnregisteredRow(
    paymentDate: string, customerName: string, chequeNo: string, amount: real,
    paymentMode: string, bank: string, remarks: string, status: string, bankAmount: real)

  /** The five categories `reconcile` returns. */
  datatype Categories = Categories(
    allEntries: seq<EntryRow>, matched: seq<EntryRow>, adjusted: seq<EntryRow>,
    unmatched: seq<EntryRow>, unregistered: seq<UnregisteredRow>)

  /** Amounts closer than this are taken to agree. */
  const Tolerance: real := 1.0

  function Abs(x: real): (r: real)
    ensures r >= 0.0 && (r == x || r == -x)
  {
    if x < 0.0 then -x else x
  }

  predicate HasKey(e: LedgerEntry) {
    e.chequeNo.Some?
  }

  /** The constructor's preparation of the ledger: the rows whose
      `ChequeDDNo` is not null, in ledger order, each with its `ChequeDDNo`
      text stripped as key. */
  function Prepare(ledger: seq<LedgerEntry>): (r: seq<Entry>)
    ensures |r| <= |ledger|
    ensures forall i :: 0 <= i < |r| ==>
      HasKey(r[i].row) && r[i].key == Strip(r[i].row.chequeNo.value)
    decreases |ledger|
  {
    if ledger == [] then []
    else
      var n := |ledger| - 1;
      var e := ledger[n];
      Prepare(ledger[..n]) + (if HasKey(e) then [Entry(e, Strip(e.chequeNo.value))] else [])
  }

  /** The rows of the prepared entries. */
  function Rows(entries: seq<Entry>): (r: seq<LedgerEntry>)
    ensures |r| == |entries| && forall i :: 0 <= i < |r| ==> r[i] == entries[i].row
  {
    seq(|entries|, i requires 0 <= i < |entries| => entries[i].row)
  }

  /** A ledger row is prepared exactly when it has a key. */
  lemma {:induction false} PreparedMembers(ledger: seq<LedgerEntry>, e: LedgerEntry)
    ensures e in Rows(Prepare(ledger)) <==> e in ledger && HasKey(e)
    decreases |ledger|
  {
    if ledger != [] {
      var n := |ledger| - 1;
      PreparedMembers(ledger[..n], e);
      var x := ledger[n];
      var tail := if HasKey(x) then [Entry(x, Strip(x.chequeNo.value))] else [];
      assert Prepare(ledger) == Prepare(ledger[..n]) + tail;
      RowsAppend(Prepare(ledger[..n]), tail);
      if HasKey(x) {
        assert Rows(tail)[0] == x;
        assert Rows(tail) == [x];
      } else {
        assert Rows(tail) == [];
      }
      assert ledger == ledger[..n] + [x];
      assert e in ledger <==> e in ledger[..n] || e == x;
    }
  }

  lemma RowsAppend(a: seq<Entry>, b: seq<Entry>)
    ensures Rows(a + b) == Rows(a) + Rows(b)
  {
  }

  /** Preparation keeps ledger order and repeats: two runs of ledger rows
      give the first run's entries followed by the second's. */
  lemma {:induction false} PrepareAppend(a: seq<LedgerEntry>, b: seq<LedgerEntry>)
    ensures Prepare(a + b) == Prepare(a) + Prepare(b)
    decreases |b|
  {
    if b == [] {
      assert a + b == a;
    } else {
      var n := |b| - 1;
      var x := b[n];
      var tail := if HasKey(x) then [Entry(x, Strip(x.chequeNo.value))] else [];
      assert (a + b)[..|a + b| - 1] == a + b[..n];
      assert (a + b)[|a + b| - 1] == x;
      PrepareAppend(a, b[..n]);
      assert Prepare(a + b) == Prepare(a + b[..n]) + tail;
      assert Prepare(b) == Prepare(b[..n]) + tail;
    }
  }

  /** When every row has a key, preparation keeps them all, in order. */
  lemma {:induction false} PrepareKeyed(ledger: seq<LedgerEntry>)
    requires forall i :: 0 <= i < |ledger| ==> HasKey(ledger[i])
    ensures Rows(Prepare(ledger)) == ledger
    decreases |ledger|
  {
    if ledger != [] {
      var n := |ledger| - 1;
      PrepareKeyed(ledger[..n]);
      var e := ledger[n];
      assert Prepare(ledger) == Prepare(ledger[..n]) + [Entry(e, Strip(e.chequeNo.value))];
      assert Rows(Prepare(ledger)) == Rows(Prepare(ledger[..n])) + [e];
      assert ledger[..n] + [e] == ledger;
    }
  }

  /** The index of the first bank transaction whose journal number equals
      `key` exactly, if there is one. */
  function FirstMatch(bank: seq<Transaction>, key: string): (r: Option<nat>)
    ensures r.Some? ==> r.value < |bank| && bank[r.value].journal == key
    ensures r.Some? ==> forall j :: 0 <= j < r.value ==> bank[j].journal != key
    ensures r.None? <==> forall j :: 0 <= j < |bank| ==> bank[j].journal != key
    decreases |bank|
  {
    if bank == [] then None
    else if bank[0].journal == key then Some(0)
    else
      match FirstMatch(bank[1..], key)
      case None => None
      case Some(i) => Some(i + 1)
  }

  /** `adj` is the synthetic adjustment row for the mismatch row `orig`: the
      same entry and bank amount, and an amount that closes the gap. */
  predicate IsAdjustmentOf(adj: EntryRow, orig: EntryRow) {
    && orig.status == AmountMismatch && adj.status == AdjustmentEntry
    && adj.entry == orig.entry
    && orig.bankAmount.Some? && adj.bankAmount == orig.bankAmount
    && adj.difference == orig.difference
    && orig.amount + adj.amount == orig.bankAmount.value
  }

  /** The rows one entry contributes to `all_entries`. */
  function RowsFor(e: Entry, bank: seq<Transaction>): (rows: seq<EntryRow>)
    ensures 1 <= |rows| <= 2
    ensures rows[0].entry == e && rows[0].amount == e.row.amount
  {
    var a := e.row.amount;
    match FirstMatch(bank, e.key)
    case None => [EntryRow(e, a, NotFoundInBank, None, None)]
    case Some(k) =>
      var b := bank[k].amount;
      if Abs(b - a) < Tolerance then
        [EntryRow(e, a, Matched, Some(b), Some(0.0))]
      else
        var d := b - a;
        var orig := EntryRow(e, a, AmountMismatch, Some(b), Some(d));
        [orig, orig.(amount := d, status := AdjustmentEntry)]
  }

  /** The classification of one entry: it is looked up by its key alone (so
      entries with equal keys see the same bank row), the tolerance is
      strict, and a mismatch is followed by the adjustment that closes it. */
  lemma RowsForOutcome(e: Entry, bank: seq<Transaction>)
    ensures var rows := RowsFor(e, bank);
      FirstMatch(bank, e.key).None? ==>
        |rows| == 1 && rows[0].status == NotFoundInBank
        && rows[0].bankAmount.None? && rows[0].difference.None?
    ensures var rows := RowsFor(e, bank);
      (FirstMatch(bank, e.key).Some? &&
       Abs(bank[FirstMatch(bank, e.key).value].amount - e.row.amount) < Tolerance) ==>
        |rows| == 1 && rows[0].status == Matched
        && rows[0].bankAmount == Some(bank[FirstMatch(bank, e.key).value].amount)
        && rows[0].difference == Some(0.0)
    ensures var rows := RowsFor(e, bank);
      (FirstMatch(bank, e.key).Some? &&
       Abs(bank[FirstMatch(bank, e.key).value].amount - e.row.amount) >= Tolerance) ==>
        |rows| == 2 && rows[0].status == AmountMismatch
        && rows[0].bankAmount == Some(bank[FirstMatch(bank, e.key).value].amount)
        && rows[0].difference == Some(bank[FirstMatch(bank, e.key).value].amount - e.row.amount)
        && IsAdjustmentOf(rows[1], rows[0])
  {
  }

  /** `all_entries`: the rows of every entry, in entry order. */
  function AllRows(entries: seq<Entry>, bank: seq<Transaction>): (rows: seq<EntryRow>)
    ensures |entries| <= |rows| <= 2 * |entries|
    decreases |entries|
  {
    if entries == [] then []
    else
      var n := |entries| - 1;
      AllRows(entries[..n], bank) + RowsFor(entries[n], bank)
  }

  /** The rows of `rows` whose status is in `s`, in order. */
  function WithStatus(rows: seq<EntryRow>, s: set<Status>): (r: seq<EntryRow>)
    ensures |r| <= |rows|
    ensures forall j :: 0 <= j < |r| ==> r[j].status in s
    decreases |rows|
  {
    if rows == [] then []
    else
      var n := |rows| - 1;
      WithStatus(rows[..n], s) + (if rows[n].status in s then [rows[n]] else [])
  }

  lemma {:induction false} WithStatusAppend(a: seq<EntryRow>, b: seq<EntryRow>, s: set<Status>)
    ensures WithStatus(a + b, s) == WithStatus(a, s) + WithStatus(b, s)
    decreases |b|
  {
    if b == [] {
      assert a + b == a;
    } else {
      var n := |b| - 1;
      WithStatusAppend(a, b[..n], s);
      var ab := a + b;
      assert ab[..|ab| - 1] == a + b[..n];
      assert ab[|ab| - 1] == b[n];
      var tail := if b[n].status in s then [b[n]] else [];
      calc {
        WithStatus(ab, s);
        WithStatus(a + b[..n], s) + tail;
        WithStatus(a, s) + WithStatus(b[..n], s) + tail;
        WithStatus(a, s) + WithStatus(b, s);
      }
    }
  }

  /** A row is kept exactly when it is in `rows` with a status in `s`. */
  lemma {:induction false} WithStatusMembers(rows: seq<EntryRow>, s: set<Status>, x: EntryRow)
    ensures x in WithStatus(rows, s) <==> x in rows && x.status in s
    decreases |rows|
  {
    if rows != [] {
      var n := |rows| - 1;
      WithStatusMembers(rows[..n], s, x);
      assert rows == rows[..n] + [rows[n]];
    }
  }

  /** `i` is the first match of one of the entries. */
  predicate PickedBy(entries: seq<Entry>, bank: seq<Transaction>, i: nat)
  {
    exists j :: 0 <= j < |entries| && FirstMatch(bank, entries[j].key) == Some(i)
  }

  /** `chosen` with the first match of `e` added, if it has one. */
  function NextChosen(chosen: set<nat>, e: Entry, bank: seq<Transaction>): set<nat> {
    match FirstMatch(bank, e.key)
    case None => chosen
    case Some(k) => chosen + {k}
  }

  /** The bank indices some entry picked (`bank_matched`). */
  function Chosen(entries: seq<Entry>, bank: seq<Transaction>): set<nat>
    decreases |entries|
  {
    if entries == [] then {}
    else
      var n := |entries| - 1;
      NextChosen(Chosen(entries[..n], bank), entries[n], bank)
  }

  /** `bank_matched` holds exactly the first matches of the entries. */
  lemma {:induction false} ChosenExactly(entries: seq<Entry>, bank: seq<Transaction>, i: nat)
    ensures i in Chosen(entries, bank) <==> PickedBy(entries, bank, i)
    decreases |entries|
  {
    if entries != [] {
      var n := |entries| - 1;
      var prefix := entries[..n];
      ChosenExactly(prefix, bank, i);
      if PickedBy(prefix, bank, i) {
        var j :| 0 <= j < n && FirstMatch(bank, prefix[j].key) == Some(i);
        assert prefix[j] == entries[j];
        assert PickedBy(entries, bank, i);
      }
      if PickedBy(entries, bank, i) {
        var j :| 0 <= j < |entries| && FirstMatch(bank, entries[j].key) == Some(i);
        if j < n {
          assert prefix[j] == entries[j];
          assert PickedBy(prefix, bank, i);
        }
      }
    }
  }

  /** The indices below `n` outside `chosen`, ascending. */
  function UnregisteredIndices(n: nat, chosen: set<nat>): (r: seq<nat>)
    ensures forall j :: 0 <= j < |r| ==> r[j] < n
    decreases n
  {
    if n == 0 then []
    else UnregisteredIndices(n - 1, chosen) + (if n - 1 in chosen then [] else [n - 1])
  }

  /** The unregistered indices are exactly the unchosen ones below `n`. */
  lemma {:induction false} UnregisteredIndicesExactly(n: nat, chosen: set<nat>)
    ensures forall i: nat :: i in UnregisteredIndices(n, chosen) <==> i < n && i !in chosen
    decreases n
  {
    if n > 0 {
      UnregisteredIndicesExactly(n - 1, chosen);
      assert n - 1 !in UnregisteredIndices(n - 1, chosen);
    }
  }

  /** The unregistered indices are listed in ascending order. */
  lemma {:induction false} UnregisteredIndicesAscending(n: nat, chosen: set<nat>)
    ensures var r := UnregisteredIndices(n, chosen);
      forall j, k :: 0 <= j < k < |r| ==> r[j] < r[k]
    decreases n
  {
    if n > 0 && n - 1 !in chosen {
      UnregisteredIndicesAscending(n - 1, chosen);
      var p := UnregisteredIndices(n - 1, chosen);
      var r := UnregisteredIndices(n, chosen);
      assert r == p + [n - 1];
      forall j, k | 0 <= j < k < |r| ensures r[j] < r[k] {
        assert r[j] == p[j];
        if k < |p| {
          assert r[k] == p[k];
        } else {
          assert p[j] < n - 1;
        }
      }
    } else if n > 0 {
      UnregisteredIndicesAscending(n - 1, chosen);
      assert UnregisteredIndices(n, chosen) == UnregisteredIndices(n - 1, chosen);
    }
  }

  /** The members of `chosen` below `n`. */
  function ChosenBelow(n: nat, chosen: set<nat>): set<nat> {
    set i: nat | i < n && i in chosen
  }

  /** Every index below `n` is either listed as unregistered or chosen. */
  lemma {:induction false} UnregisteredCount(n: nat, chosen: set<nat>)
    ensures |UnregisteredIndices(n, chosen)| + |ChosenBelow(n, chosen)| == n
    decreases n
  {
    if n > 0 {
      UnregisteredCount(n - 1, chosen);
      if n - 1 in chosen {
        assert ChosenBelow(n, chosen) == ChosenBelow(n - 1, chosen) + {n - 1};
      } else {
        assert ChosenBelow(n, chosen) == ChosenBelow(n - 1, chosen);
      }
    }
  }

  /** The record a bank transaction becomes when nobody picked it. */
  function ToUnregistered(t: Transaction): (u: UnregisteredRow)
    ensures u.amount == t.amount && u.bankAmount == t.amount && u.chequeNo == t.journal
    ensures u.customerName == "UNREGISTERED" && u.status == "Not in Data Entry"
    ensures u.paymentDate == t.date && u.remarks == t.description
  {
    UnregisteredRow(t.date, "UNREGISTERED", t.journal, t.amount,
                    "BANK TRANSFER", "Bank of Bhutan", t.description, "Not in Data Entry", t.amount)
  }

  /** The unregistered records of the bank transactions at `idx`, in order. */
  function RowsAt(bank: seq<Transaction>, idx: seq<nat>): (r: seq<UnregisteredRow>)
    requires forall j :: 0 <= j < |idx| ==> idx[j] < |bank|
    ensures |r| == |idx|
    ensures forall j :: 0 <= j < |idx| ==> r[j] == ToUnregistered(bank[idx[j]])
  {
    seq(|idx|, j requires 0 <= j < |idx| => ToUnregistered(bank[idx[j]]))
  }

  /** The outcome of `reconcile` on the prepared entries and the extracted
      statement. */
  function Categorize(entries: seq<Entry>, bank: seq<Transaction>): Categories {
    var all := AllRows(entries, bank);
    Categories(
      all,
      WithStatus(all, {Matched}),
      WithStatus(all, {AmountMismatch, AdjustmentEntry}),
      WithStatus(all, {NotFoundInBank}),
      RowsAt(bank, UnregisteredIndices(|bank|, Chosen(entries, bank))))
  }

  /** Listing one more index appends its record. */
  lemma RowsAtAppend(bank: seq<Transaction>, idx: seq<nat>, k: nat)
    requires forall j :: 0 <= j < |idx| ==> idx[j] < |bank|
    requires k < |bank|
    ensures RowsAt(bank, idx + [k]) == RowsAt(bank, idx) + [ToUnregistered(bank[k])]
  {
    var l, r := RowsAt(bank, idx + [k]), RowsAt(bank, idx) + [ToUnregistered(bank[k])];
    forall j | 0 <= j < |l| ensures l[j] == r[j] {
      if j < |idx| {
        assert (idx + [k])[j] == idx[j];
      }
    }
  }

  /** The unregistered indices below `k + 1`: those below `k`, then `k`
      unless it was chosen. */
  lemma UnregisteredStep(bank: seq<Transaction>, chosen: set<nat>, k: nat)
    requires k < |bank|
    ensures var idx := UnregisteredIndices(k, chosen);
      RowsAt(bank, UnregisteredIndices(k + 1, chosen))
      == if k in chosen then RowsAt(bank, idx) else RowsAt(bank, idx) + [ToUnregistered(bank[k])]
  {
    if k !in chosen {
      RowsAtAppend(bank, UnregisteredIndices(k, chosen), k);
    }
  }

  /** The unregistered records among the first `k` bank transactions, as
      the loop collects them. */
  function UnregisteredUpTo(bank: seq<Transaction>, chosen: set<nat>, k: nat): seq<UnregisteredRow>
    requires k <= |bank|
    decreases k
  {
    if k == 0 then []
    else
      UnregisteredUpTo(bank, chosen, k - 1)
      + (if k - 1 in chosen then [] else [ToUnregistered(bank[k - 1])])
  }

  /** What the loop collects is the records of the unregistered indices. */
  lemma {:induction false} UnregisteredUpToIndices(bank: seq<Transaction>, chosen: set<nat>, k: nat)
    requires k <= |bank|
    ensures UnregisteredUpTo(bank, chosen, k) == RowsAt(bank, UnregisteredIndices(k, chosen))
    decreases k
  {
    if k > 0 {
      UnregisteredUpToIndices(bank, chosen, k - 1);
      UnregisteredStep(bank, chosen, k - 1);
    }
  }

  /** The second half of `reconcile`: the bank transactions whose index is
      not in `chosen`, in bank order, as unregistered records. */
  method CollectUnregistered(bank: seq<Transaction>, chosen: set<nat>) returns (u: seq<UnregisteredRow>)
    ensures u == RowsAt(bank, UnregisteredIndices(|bank|, chosen))
  {
    u := [];
    var k := 0;
    while k < |bank|
      invariant 0 <= k <= |bank|
      invariant u == UnregisteredUpTo(bank, chosen, k)
    {
      if k !in chosen {
        u := u + [ToUnregistered(bank[k])];
      }
      k := k + 1;
    }
    UnregisteredUpToIndices(bank, chosen, |bank|);
  }

  /** The lists `reconcile` fills while it walks the entries, and the set
      `bank_matched`. */
  datatype Pass = Pass(
    all: seq<EntryRow>, matched: seq<EntryRow>, adjusted: seq<EntryRow>,
    unmatched: seq<EntryRow>, bankMatched: set<nat>)

  /** One iteration of the entry loop. */
  function Visit(p: Pass, e: Entry, bank: seq<Transaction>): Pass {
    var a := e.row.amount;
    match FirstMatch(bank, e.key)
    case None =>
      var row := EntryRow(e, a, NotFoundInBank, None, None);
      p.(all := p.all + [row], unmatched := p.unmatched + [row])
    case Some(k) =>
      var b := bank[k].amount;
      var chosen := p.bankMatched + {k};
      if Abs(b - a) < Tolerance then
        var row := EntryRow(e, a, Matched, Some(b), Some(0.0));
        p.(all := p.all + [row], matched := p.matched + [row], bankMatched := chosen)
      else
        var d := b - a;
        var row := EntryRow(e, a, AmountMismatch, Some(b), Some(d));
        var adj := row.(amount := d, status := AdjustmentEntry);
        p.(all := p.all + [row, adj], adjusted := p.adjusted + [row, adj], bankMatched := chosen)
  }

  /** The state after the loop has visited `entries`. */
  function Walk(entries: seq<Entry>, bank: seq<Transaction>): Pass
    decreases |entries|
  {
    if entries == [] then Pass([], [], [], [], {})
    else
      var n := |entries| - 1;
      Visit(Walk(entries[..n], bank), entries[n], bank)
  }

  /** The loop state that the declarative categorisation describes, given
      the rows so far and the indices chosen so far. */
  function Described(all: seq<EntryRow>, chosen: set<nat>): Pass {
    Pass(all, WithStatus(all, {Matched}), WithStatus(all, {AmountMismatch, AdjustmentEntry}),
         WithStatus(all, {NotFoundInBank}), chosen)
  }

  /** How the categories grow when a row is appended. */
  lemma {:induction false} DescribedAppendOne(all: seq<EntryRow>, chosen: set<nat>, row: EntryRow)
    ensures var d := Described(all, chosen);
      Described(all + [row], chosen) == d.(
        all := all + [row],
        matched := if row.status == Matched then d.matched + [row] else d.matched,
        adjusted := if row.status in {AmountMismatch, AdjustmentEntry} then d.adjusted + [row] else d.adjusted,
        unmatched := if row.status == NotFoundInBank then d.unmatched + [row] else d.unmatched)
  {
    var n := all + [row];
    assert n[..|n| - 1] == all;
  }

  lemma {:induction false} VisitNotFound(all: seq<EntryRow>, chosen: set<nat>, e: Entry, bank: seq<Transaction>)
    requires FirstMatch(bank, e.key).None?
    ensures Visit(Described(all, chosen), e, bank) == Described(all + RowsFor(e, bank), chosen)
  {
    var row := EntryRow(e, e.row.amount, NotFoundInBank, None, None);
    assert RowsFor(e, bank) == [row];
    DescribedAppendOne(all, chosen, row);
  }

  lemma {:induction false} VisitMatched(all: seq<EntryRow>, chosen: set<nat>, e: Entry, bank: seq<Transaction>, k: nat)
    requires FirstMatch(bank, e.key) == Some(k)
    requires Abs(bank[k].amount - e.row.amount) < Tolerance
    ensures Visit(Described(all, chosen), e, bank) == Described(all + RowsFor(e, bank), chosen + {k})
  {
    var row := EntryRow(e, e.row.amount, Matched, Some(bank[k].amount), Some(0.0));
    assert RowsFor(e, bank) == [row];
    DescribedAppendOne(all, chosen + {k}, row);
  }

  lemma {:induction false} VisitMismatch(all: seq<EntryRow>, chosen: set<nat>, e: Entry, bank: seq<Transaction>, k: nat)
    requires FirstMatch(bank, e.key) == Some(k)
    requires Abs(bank[k].amount - e.row.amount) >= Tolerance
    ensures Visit(Described(all, chosen), e, bank) == Described(all + RowsFor(e, bank), chosen + {k})
  {
    var b := bank[k].amount;
    var d := b - e.row.amount;
    var row := EntryRow(e, e.row.amount, AmountMismatch, Some(b), Some(d));
    var adj := row.(amount := d, status := AdjustmentEntry);
    assert RowsFor(e, bank) == [row, adj];
    assert all + [row, adj] == all + [row] + [adj];
    DescribedAppendOne(all, chosen + {k}, row);
    DescribedAppendOne(all + [row], chosen + {k}, adj);
  }

  /** One iteration appends the entry's rows and extends the chosen set. */
  lemma VisitStep(all: seq<EntryRow>, chosen: set<nat>, e: Entry, bank: seq<Transaction>)
    ensures Visit(Described(all, chosen), e, bank)
         == Described(all + RowsFor(e, bank), NextChosen(chosen, e, bank))
  {
    match FirstMatch(bank, e.key)
    case None => VisitNotFound(all, chosen, e, bank);
    case Some(k) =>
      if Abs(bank[k].amount - e.row.amount) < Tolerance {
        VisitMatched(all, chosen, e, bank, k);
      } else {
        VisitMismatch(all, chosen, e, bank, k);
      }
  }

  /** The loop state is exactly the declarative categorisation: the rows of
      all entries, filtered by status, and the first matches. */
  lemma {:induction false} WalkCategorizes(entries: seq<Entry>, bank: seq<Transaction>)
    ensures Walk(entries, bank) == Described(AllRows(entries, bank), Chosen(entries, bank))
    decreases |entries|
  {
    if entries != [] {
      var n := |entries| - 1;
      WalkCategorizes(entries[..n], bank);
      VisitStep(AllRows(entries[..n], bank), Chosen(entries[..n], bank), entries[n], bank);
    }
  }

  /** `reconcile`, as the source writes it: one loop over the entries that
      fills the four entry lists and `bank_matched` side by side, then one
      loop over the statement. */
  method Reconcile(entries: seq<Entry>, bank: seq<Transaction>) returns (c: Categories)
    ensures c == Categorize(entries, bank)
  {
    var all: seq<EntryRow> := [];
    var matched: seq<EntryRow> := [];
    var adjusted: seq<EntryRow> := [];
    var unmatched: seq<EntryRow> := [];
    var bankMatched: set<nat> := {};
    var i := 0;
    while i < |entries|
      invariant 0 <= i <= |entries|
      invariant Pass(all, matched, adjusted, unmatched, bankMatched) == Walk(entries[..i], bank)
    {
      var e := entries[i];
      var amount := e.row.amount;
      var found := FirstMatch(bank, e.key);
      if found.None? {
        var row := EntryRow(e, amount, NotFoundInBank, None, None);
        all := all + [row];
        unmatched := unmatched + [row];
      } else {
        var b := bank[found.value].amount;
        bankMatched := bankMatched + {found.value};
        if Abs(b - amount) < Tolerance {
          var row := EntryRow(e, amount, Matched, Some(b), Some(0.0));
          all := all + [row];
          matched := matched + [row];
        } else {
          var d := b - amount;
          var row := EntryRow(e, amount, AmountMismatch, Some(b), Some(d));
          var adj := row.(amount := d, status := AdjustmentEntry);
          all := all + [row, adj];
          adjusted := adjusted + [row, adj];
        }
      }
      assert entries[..i + 1][..i] == entries[..i];
      i := i + 1;
    }
    assert entries[..i] == entries;
    WalkCategorizes(entries, bank);
    var unregistered := CollectUnregistered(bank, bankMatched);
    c := Categories(all, matched, adjusted, unmatched, unregistered);
  }

  // Properties of the categorisation.

  /** How one entry's rows split over the statuses: one row, unless it is a
      mismatch, which brings its adjustment along. */
  lemma {:induction false} RowsForCounts(e: Entry, bank: seq<Transaction>)
    ensures var rows := RowsFor(e, bank);
      var m := |WithStatus(rows, {AmountMismatch})|;
      && |WithStatus(rows, {Matched})| + m + |WithStatus(rows, {NotFoundInBank})| == 1
      && |rows| == 1 + m
      && |WithStatus(rows, {AdjustmentEntry})| == m
      && |WithStatus(rows, {AmountMismatch, AdjustmentEntry})| == 2 * m
  {
    var rows := RowsFor(e, bank);
    RowsForOutcome(e, bank);
    if |rows| == 2 {
      assert rows[..1] == [rows[0]] && [rows[0]][..0] == [];
    } else {
      assert rows[..0] == [];
    }
  }

  lemma CountAppend(a: seq<EntryRow>, b: seq<EntryRow>, s: set<Status>)
    ensures |WithStatus(a + b, s)| == |WithStatus(a, s)| + |WithStatus(b, s)|
  {
    WithStatusAppend(a, b, s);
  }

  /** Matched, mismatched and unmatched entries partition the entries;
      `all_entries` holds one extra row per mismatch, and `adjusted` holds two
      rows per mismatch. */
  lemma {:induction false} PartitionCounts(entries: seq<Entry>, bank: seq<Transaction>)
    ensures var all := AllRows(entries, bank);
      var m := |WithStatus(all, {AmountMismatch})|;
      && |WithStatus(all, {Matched})| + m + |WithStatus(all, {NotFoundInBank})| == |entries|
      && |all| == |entries| + m
      && |WithStatus(all, {AdjustmentEntry})| == m
      && |WithStatus(all, {AmountMismatch, AdjustmentEntry})| == 2 * m
    decreases |entries|
  {
    if entries != [] {
      var n := |entries| - 1;
      PartitionCounts(entries[..n], bank);
      RowsForCounts(entries[n], bank);
      var prior := AllRows(entries[..n], bank);
      var rows := RowsFor(entries[n], bank);
      assert AllRows(entries, bank) == prior + rows;
      CountAppend(prior, rows, {Matched});
      CountAppend(prior, rows, {AmountMismatch});
      CountAppend(prior, rows, {NotFoundInBank});
      CountAppend(prior, rows, {AdjustmentEntry});
      CountAppend(prior, rows, {AmountMismatch, AdjustmentEntry});
    }
  }

  /** The entries behind the rows that are not adjustments, in order. */
  function Originals(rows: seq<EntryRow>): seq<Entry>
    decreases |rows|
  {
    if rows == [] then []
    else
      var n := |rows| - 1;
      Originals(rows[..n]) + (if rows[n].status == AdjustmentEntry then [] else [rows[n].entry])
  }

  lemma {:induction false} OriginalsAppend(a: seq<EntryRow>, b: seq<EntryRow>)
    ensures Originals(a + b) == Originals(a) + Originals(b)
    decreases |b|
  {
    if b == [] {
      assert a + b == a;
    } else {
      var n := |b| - 1;
      OriginalsAppend(a, b[..n]);
      assert (a + b)[..|a + b| - 1] == a + b[..n];
    }
  }

  /** An entry's own rows name it once, not counting the adjustment. */
  lemma OriginalsOfRows(e: Entry, bank: seq<Transaction>)
    ensures Originals(RowsFor(e, bank)) == [e]
  {
    var rows := RowsFor(e, bank);
    RowsForOutcome(e, bank);
    if |rows| == 2 {
      assert rows[..1] == [rows[0]] && [rows[0]][..0] == [];
      assert Originals(rows[..1]) == [e];
    } else {
      assert rows[..0] == [];
    }
  }

  /** A non-empty sequence is its front followed by its last element. */
  lemma LastSplit<T>(s: seq<T>)
    requires s != []
    ensures s[..|s| - 1] + [s[|s| - 1]] == s
  {
  }

  /** Every entry is classified exactly once and in input order: dropping
      the adjustment rows from `all_entries` gives back the entries. */
  lemma {:induction false} EachEntryOnceInOrder(entries: seq<Entry>, bank: seq<Transaction>)
    ensures Originals(AllRows(entries, bank)) == entries
    decreases |entries|
  {
    if entries != [] {
      var n := |entries| - 1;
      var e := entries[n];
      var prior := AllRows(entries[..n], bank);
      var rows := RowsFor(e, bank);
      assert AllRows(entries, bank) == prior + rows;
      EachEntryOnceInOrder(entries[..n], bank);
      OriginalsAppend(prior, rows);
      OriginalsOfRows(e, bank);
      assert Originals(prior + rows) == entries[..n] + [e];
      LastSplit(entries);
    }
  }

  /** Every mismatch row is immediately followed by its adjustment, and
      every adjustment immediately follows its mismatch. */
  predicate Paired(rows: seq<EntryRow>) {
    && (forall i :: 0 <= i < |rows| && rows[i].status == AmountMismatch ==>
          i + 1 < |rows| && IsAdjustmentOf(rows[i + 1], rows[i]))
    && (forall i :: 0 < i < |rows| && rows[i].status == AdjustmentEntry ==>
          IsAdjustmentOf(rows[i], rows[i - 1]))
    && (|rows| > 0 ==> rows[0].status != AdjustmentEntry)
  }

  lemma PairedAppend(a: seq<EntryRow>, b: seq<EntryRow>)
    requires Paired(a) && Paired(b)
    ensures Paired(a + b)
  {
    var ab := a + b;
    forall i | 0 <= i < |ab| && ab[i].status == AmountMismatch
      ensures i + 1 < |ab| && IsAdjustmentOf(ab[i + 1], ab[i])
    {
      if i < |a| {
        assert ab[i] == a[i] && ab[i + 1] == a[i + 1];
      } else {
        assert ab[i] == b[i - |a|] && ab[i + 1] == b[i + 1 - |a|];
      }
    }
    forall i | 0 < i < |ab| && ab[i].status == AdjustmentEntry
      ensures IsAdjustmentOf(ab[i], ab[i - 1])
    {
      if i < |a| {
        assert ab[i] == a[i] && ab[i - 1] == a[i - 1];
      } else if i > |a| {
        assert ab[i] == b[i - |a|] && ab[i - 1] == b[i - 1 - |a|];
      }
    }
  }

  lemma RowsForPaired(e: Entry, bank: seq<Transaction>)
    ensures Paired(RowsFor(e, bank))
    ensures Paired(WithStatus(RowsFor(e, bank), {AmountMismatch, AdjustmentEntry}))
  {
    var rows := RowsFor(e, bank);
    RowsForOutcome(e, bank);
    if |rows| == 2 {
      assert rows[..1] == [rows[0]] && [rows[0]][..0] == [];
      assert WithStatus(rows, {AmountMismatch, AdjustmentEntry}) == rows;
    } else {
      assert rows[..0] == [];
      assert WithStatus(rows, {AmountMismatch, AdjustmentEntry}) == [];
    }
  }

  /** In `all_entries` and in `adjusted` alike, each mismatch row is
      followed immediately by the adjustment row that carries the difference,
      so that entry amount plus adjustment equals the bank amount. */
  lemma {:induction false} AdjustmentsFollowMismatches(entries: seq<Entry>, bank: seq<Transaction>)
    ensures Paired(AllRows(entries, bank))
    ensures Paired(WithStatus(AllRows(entries, bank), {AmountMismatch, AdjustmentEntry}))
    decreases |entries|
  {
    if entries != [] {
      var n := |entries| - 1;
      AdjustmentsFollowMismatches(entries[..n], bank);
      var prior := AllRows(entries[..n], bank);
      var rows := RowsFor(entries[n], bank);
      RowsForPaired(entries[n], bank);
      PairedAppend(prior, rows);
      var s := {AmountMismatch, AdjustmentEntry};
      WithStatusAppend(prior, rows, s);
      PairedAppend(WithStatus(prior, s), WithStatus(rows, s));
    }
  }

  /** Every chosen index is a bank row. */
  lemma {:induction false} ChosenInRange(entries: seq<Entry>, bank: seq<Transaction>)
    ensures forall i :: i in Chosen(entries, bank) ==> i < |bank|
    decreases |entries|
  {
    if entries != [] {
      ChosenInRange(entries[..|entries| - 1], bank);
    }
  }

  /** `unregistered` holds exactly the bank rows, in bank order, that no
      entry picked as its first match; with the distinct picked rows they
      account for the whole statement. */
  lemma UnregisteredExactly(entries: seq<Entry>, bank: seq<Transaction>)
    ensures var u := UnregisteredIndices(|bank|, Chosen(entries, bank));
      && Categorize(entries, bank).unregistered == RowsAt(bank, u)
      && (forall i :: 0 <= i < |bank| ==> (i in u <==> !PickedBy(entries, bank, i)))
      && |u| + |Chosen(entries, bank)| == |bank|
  {
    var c := Chosen(entries, bank);
    forall i | 0 <= i < |bank| ensures i in c <==> PickedBy(entries, bank, i) {
      ChosenExactly(entries, bank, i);
    }
    ChosenInRange(entries, bank);
    UnregisteredIndicesExactly(|bank|, c);
    UnregisteredIndicesAscending(|bank|, c);
    UnregisteredCount(|bank|, c);
    assert ChosenBelow(|bank|, c) == c;
  }
}
