/** The figures `generate_report` returns and shows on the summary sheet:
    counts of the categories and the amount reconciliation. */
module Statistics {
  import opened Statement
  import opened Reconcile

  /** The `stats` dictionary. */
  datatype Stats = Stats(
    totalEntries: nat, matched: nat, mismatches: nat, unmatched: nat,
    unregistered: nat, totalBankTransactions: nat,
    totalEnteredAmount: real, totalAdjustmentAmount: real,
    totalAfterAdjustment: real, totalBankAmount: real, amountDifference: real)

  /** The sum of the `Amount` column of some entry rows. */
  function SumAmounts(rows: seq<EntryRow>): real
    decreases |rows|
  {
    if rows == [] then 0.0
    else SumAmounts(rows[..|rows| - 1]) + rows[|rows| - 1].amount
  }

  /** The sum of the `Amount` column of the prepared ledger rows. */
  function EnteredTotal(entries: seq<Entry>): real
    decreases |entries|
  {
    if entries == [] then 0.0
    else EnteredTotal(entries[..|entries| - 1]) + entries[|entries| - 1].row.amount
  }

  /** The sum of the statement's amounts. */
  function BankTotal(bank: seq<Transaction>): real
    decreases |bank|
  {
    if bank == [] then 0.0
    else BankTotal(bank[..|bank| - 1]) + bank[|bank| - 1].amount
  }

  /** The amount an entry stands at once its adjustment is booked: the
      matched bank amount when the two disagree by the tolerance or more,
      its own amount otherwise. */
  function Settled(e: Entry, bank: seq<Transaction>): real {
    match FirstMatch(bank, e.key)
    case None => e.row.amount
    case Some(k) =>
      if Abs(bank[k].amount - e.row.amount) < Tolerance then e.row.amount else bank[k].amount
  }

  /** The settled amounts of all entries, summed. */
  function SettledTotal(entries: seq<Entry>, bank: seq<Transaction>): real
    decreases |entries|
  {
    if entries == [] then 0.0
    else SettledTotal(entries[..|entries| - 1], bank) + Settled(entries[|entries| - 1], bank)
  }

  /** The statistics block of `generate_report`, computed from the prepared
      entries, the statement and the categories `reconcile` returned. The
      adjustment total and the mismatch count come from the `adjusted`
      category and are 0 when it is empty. */
  function ComputeStats(entries: seq<Entry>, bank: seq<Transaction>, c: Categories): Stats {
    var entered := EnteredTotal(entries);
    var total := BankTotal(bank);
    var adjustment := if |c.adjusted| > 0 then SumAmounts(WithStatus(c.adjusted, {AdjustmentEntry})) else 0.0;
    var mismatches := if |c.adjusted| > 0 then |WithStatus(c.adjusted, {AmountMismatch})| else 0;
    Stats(|entries|, |c.matched|, mismatches, |c.unmatched|, |c.unregistered|, |bank|,
          entered, adjustment, entered + adjustment, total, total - (entered + adjustment))
  }

  /** The statistics of a reconciliation. */
  function StatsOf(entries: seq<Entry>, bank: seq<Transaction>): Stats {
    ComputeStats(entries, bank, Categorize(entries, bank))
  }

  lemma {:induction false} SumAmountsAppend(a: seq<EntryRow>, b: seq<EntryRow>)
    ensures SumAmounts(a + b) == SumAmounts(a) + SumAmounts(b)
    decreases |b|
  {
    if b == [] {
      assert a + b == a;
    } else {
      var n := |b| - 1;
      SumAmountsAppend(a, b[..n]);
      var ab := a + b;
      assert ab[..|ab| - 1] == a + b[..n];
    }
  }

  /** Filtering twice by status is filtering once by both. */
  lemma {:induction false} WithStatusNested(rows: seq<EntryRow>, s: set<Status>, t: set<Status>)
    ensures WithStatus(WithStatus(rows, s), t) == WithStatus(rows, s * t)
    decreases |rows|
  {
    if rows != [] {
      var n := |rows| - 1;
      WithStatusNested(rows[..n], s, t);
      var x := rows[n];
      var inner := WithStatus(rows[..n], s);
      var tail := if x.status in s * t then [x] else [];
      assert WithStatus(rows, s * t) == WithStatus(rows[..n], s * t) + tail;
      if x.status in s {
        assert WithStatus(rows, s) == inner + [x];
        WithStatusAppend(inner, [x], t);
        assert [x][..0] == [];
        assert WithStatus([x], t) == tail;
      } else {
        assert WithStatus(rows, s) == inner;
      }
    }
  }

  lemma NoAdjustmentInOne(x: EntryRow)
    requires x.status != AdjustmentEntry
    ensures WithStatus([x], {AdjustmentEntry}) == []
  {
    assert [x][..0] == [];
  }

  lemma AdjustmentOfPair(x: EntryRow, y: EntryRow)
    requires x.status != AdjustmentEntry && y.status == AdjustmentEntry
    ensures SumAmounts(WithStatus([x, y], {AdjustmentEntry})) == y.amount
  {
    assert [x, y][..1] == [x];
    NoAdjustmentInOne(x);
    assert WithStatus([x, y], {AdjustmentEntry}) == [y];
    assert [y][..0] == [];
  }

  /** One entry's adjustment rows add up to what its settlement moves. */
  lemma AdjustmentOfRows(e: Entry, bank: seq<Transaction>)
    ensures e.row.amount + SumAmounts(WithStatus(RowsFor(e, bank), {AdjustmentEntry})) == Settled(e, bank)
  {
    var rows := RowsFor(e, bank);
    if |rows| == 1 {
      assert rows == [rows[0]];
      assert rows[0].status != AdjustmentEntry;
      NoAdjustmentInOne(rows[0]);
    } else {
      assert rows == [rows[0], rows[1]];
      AdjustmentOfPair(rows[0], rows[1]);
    }
  }

  /** Booking the adjustment rows onto the entered amounts settles every
      mismatched entry at its bank amount. */
  lemma {:induction false} AdjustedTotal(entries: seq<Entry>, bank: seq<Transaction>)
    ensures EnteredTotal(entries) + SumAmounts(WithStatus(AllRows(entries, bank), {AdjustmentEntry}))
         == SettledTotal(entries, bank)
    decreases |entries|
  {
    if entries != [] {
      var n := |entries| - 1;
      AdjustedTotal(entries[..n], bank);
      var prior := AllRows(entries[..n], bank);
      var rows := RowsFor(entries[n], bank);
      assert AllRows(entries, bank) == prior + rows;
      WithStatusAppend(prior, rows, {AdjustmentEntry});
      SumAmountsAppend(WithStatus(prior, {AdjustmentEntry}), WithStatus(rows, {AdjustmentEntry}));
      AdjustmentOfRows(entries[n], bank);
    }
  }

  /** Within the `adjusted` category, the mismatch rows and the adjustment
      rows are those of the whole list. */
  lemma AdjustedFilters(all: seq<EntryRow>)
    ensures var adjusted := WithStatus(all, {AmountMismatch, AdjustmentEntry});
      && WithStatus(adjusted, {AmountMismatch}) == WithStatus(all, {AmountMismatch})
      && WithStatus(adjusted, {AdjustmentEntry}) == WithStatus(all, {AdjustmentEntry})
  {
    var both := {AmountMismatch, AdjustmentEntry};
    WithStatusNested(all, both, {AdjustmentEntry});
    WithStatusNested(all, both, {AmountMismatch});
    assert both * {AdjustmentEntry} == {AdjustmentEntry};
    assert both * {AmountMismatch} == {AmountMismatch};
  }

  /** The three entry counts partition the prepared ledger, and the
      mismatch count is the number of mismatch rows. */
  lemma StatsCounts(entries: seq<Entry>, bank: seq<Transaction>)
    ensures var s := StatsOf(entries, bank);
      && s.mismatches == |WithStatus(AllRows(entries, bank), {AmountMismatch})|
      && s.matched + s.mismatches + s.unmatched == |entries|
  {
    PartitionCounts(entries, bank);
    AdjustedFilters(AllRows(entries, bank));
  }

  /** The adjustment total sums the adjustment rows and settles every
      mismatch at its bank amount. */
  lemma StatsAmounts(entries: seq<Entry>, bank: seq<Transaction>)
    ensures var s := StatsOf(entries, bank);
      && s.totalAdjustmentAmount == SumAmounts(WithStatus(AllRows(entries, bank), {AdjustmentEntry}))
      && s.totalAfterAdjustment == SettledTotal(entries, bank)
  {
    var all := AllRows(entries, bank);
    PartitionCounts(entries, bank);
    AdjustedFilters(all);
    if |WithStatus(all, {AdjustmentEntry})| == 0 {
      assert WithStatus(all, {AdjustmentEntry}) == [];
    }
    AdjustedTotal(entries, bank);
  }

  /** The identities the statistics satisfy: the entry counts partition the
      filtered ledger, the mismatch count is the number of mismatch rows,
      the adjustment total is the sum over the adjustment rows alone and
      settles each mismatch at its bank amount, the difference is the bank
      total less the adjusted total, and the unregistered count completes
      the distinct picked bank rows to the whole statement. */
  lemma StatsOfReconciliation(entries: seq<Entry>, bank: seq<Transaction>)
    ensures var c := Categorize(entries, bank);
      var s := StatsOf(entries, bank);
      && s.totalEntries == |entries|
      && s.matched + s.mismatches + s.unmatched == s.totalEntries
      && s.mismatches == |WithStatus(c.allEntries, {AmountMismatch})|
      && s.totalAdjustmentAmount == SumAmounts(WithStatus(c.allEntries, {AdjustmentEntry}))
      && s.totalEnteredAmount == EnteredTotal(entries)
      && s.totalAfterAdjustment == s.totalEnteredAmount + s.totalAdjustmentAmount
      && s.totalAfterAdjustment == SettledTotal(entries, bank)
      && s.totalBankAmount == BankTotal(bank)
      && s.amountDifference == s.totalBankAmount - s.totalAfterAdjustment
      && s.totalBankTransactions == |bank|
      && s.unregistered + |Chosen(entries, bank)| == s.totalBankTransactions
  {
    StatsCounts(entries, bank);
    StatsAmounts(entries, bank);
    UnregisteredExactly(entries, bank);
  }

  /** The accuracy figure of the summary sheet. */
  datatype Accuracy = NoEntries | Percent(value: real)

  /** Matched entries as a percentage of all entries; with no entries the
      sheet shows "0%" and nothing is divided. */
  function AccuracyOf(matched: nat, total: nat): (a: Accuracy)
    ensures a.NoEntries? <==> total == 0
    ensures a.Percent? ==> a.value * (total as real) == 100.0 * (matched as real)
  {
    if total > 0 then Percent(matched as real / total as real * 100.0) else NoEntries
  }

  /** A share of at most the whole is a percentage between 0 and 100, and
      100 exactly when it is the whole. */
  lemma PercentBounds(matched: nat, total: nat)
    requires matched <= total
    ensures var a := AccuracyOf(matched, total);
      a.Percent? ==> 0.0 <= a.value <= 100.0 && (a.value == 100.0 <==> matched == total)
  {
    var a := AccuracyOf(matched, total);
    if a.Percent? {
      var v, t, m := a.value, total as real, matched as real;
      assert v * t == 100.0 * m;
      assert t > 0.0;
      if v == 100.0 {
        assert 100.0 * t == 100.0 * m;
      }
    }
  }

  /** The accuracy of a reconciliation is a percentage between 0 and 100,
      and 100 exactly when every entry matched. */
  lemma AccuracyBounded(entries: seq<Entry>, bank: seq<Transaction>)
    ensures var s := StatsOf(entries, bank);
      var a := AccuracyOf(s.matched, s.totalEntries);
      a.Percent? ==> 0.0 <= a.value <= 100.0 && (a.value == 100.0 <==> s.matched == s.totalEntries)
  {
    var s := StatsOf(entries, bank);
    StatsOfReconciliation(entries, bank);
    PercentBounds(s.matched, s.totalEntries);
  }
}
