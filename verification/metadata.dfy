/** The report log: `save_report_metadata` appends one record per report and
    keeps the newest fifty, and `get_reports` lists the log newest first.
    The file is reduced to what reading it yields. */
module MetadataLog {
  import opened Wrappers
  import opened Statistics

  /** One logged report. The timestamp is the caller's clock reading. */
  datatype Record = Record(
    filename: string, timestamp: string, dataEntryFile: string,
    bankStatementFile: string, stats: Stats)

  /** The metadata file as reading it finds it: absent; present but not
      readable (opening it raises an `IOError`); holding bytes the locale's
      encoding cannot decode (`json.load` raises `UnicodeDecodeError`);
      decoded text that `json.load` rejects with `JSONDecodeError`; or a
      list of records. */
  datatype Stored = Missing | Unreadable | Undecodable | Corrupt | Log(records: seq<Record>)

  /** The number of records the log keeps. */
  const Capacity: nat := 50

  /** The records the file holds once reading has got through: a missing,
      unreadable or corrupt file counts as an empty log. (An undecodable
      file never gets this far: reading it raises.) */
  function Loaded(f: Stored): (r: seq<Record>)
    ensures f.Log? ==> r == f.records
    ensures !f.Log? ==> r == []
  {
    match f
    case Log(records) => records
    case _ => []
  }

  /** Python's `xs[-n:]` for a positive `n`: the last `n` elements, or all
      of them when there are fewer. (Python's `xs[-0:]` would be the whole
      list, so `n` = 0 is excluded.) */
  function LastN<T>(xs: seq<T>, n: nat): (r: seq<T>)
    requires n > 0
    ensures |r| == if |xs| < n then |xs| else n
    ensures r == xs[|xs| - |r|..]
  {
    if |xs| <= n then xs else xs[|xs| - n..]
  }

  /** The log a save writes: the new record appended to the loaded log,
      then only the newest fifty kept. */
  function Kept(f: Stored, rec: Record): (r: seq<Record>)
    ensures 1 <= |r| <= Capacity
    ensures r[|r| - 1] == rec
  {
    LastN(Loaded(f) + [rec], Capacity)
  }

  /** `save_report_metadata`. It catches `JSONDecodeError` and `IOError`
      only, so an undecodable file makes the save raise (`None`) instead of
      starting an empty log; otherwise it writes the kept log. */
  function Save(f: Stored, rec: Record): (r: Option<seq<Record>>)
    ensures r.None? <==> f.Undecodable?
    ensures r.Some? ==> r.value == Kept(f, rec)
  {
    if f.Undecodable? then None else Some(Kept(f, rec))
  }

  /** After a save the log holds the newest records, the new one last: the
      whole prior log when it had room, else its newest 49 with the new one
      after them, in their original order. */
  lemma SaveKeepsNewest(f: Stored, rec: Record)
    ensures var prior := Loaded(f);
      var r := Kept(f, rec);
      && (|prior| < Capacity ==> r == prior + [rec])
      && (|prior| >= Capacity ==> |r| == Capacity && r == prior[|prior| - (Capacity - 1)..] + [rec])
  {
    var prior := Loaded(f);
    var all := prior + [rec];
    if |prior| >= Capacity {
      assert all[|all| - Capacity..] == prior[|prior| - (Capacity - 1)..] + [rec];
    }
  }

  /** `list(reversed(xs))`. */
  function Reverse<T>(xs: seq<T>): (r: seq<T>)
    ensures |r| == |xs|
    ensures forall i :: 0 <= i < |xs| ==> r[i] == xs[|xs| - 1 - i]
    decreases |xs|
  {
    if xs == [] then [] else [xs[|xs| - 1]] + Reverse(xs[..|xs| - 1])
  }

  /** Reversing twice gives back the log. */
  lemma ReverseReverse<T>(xs: seq<T>)
    ensures Reverse(Reverse(xs)) == xs
  {
    assert forall i :: 0 <= i < |xs| ==> Reverse(Reverse(xs))[i] == xs[i];
  }

  /** The log newest first, as `list(reversed(metadata))` lists it; a
      missing file, or one whose text `json.load` rejects with
      `JSONDecodeError`, lists nothing. */
  function Listing(f: Stored): (r: seq<Record>)
    ensures |r| == |Loaded(f)|
    ensures forall i :: 0 <= i < |r| ==> r[i] == Loaded(f)[|r| - 1 - i]
  {
    Reverse(Loaded(f))
  }

  /** `get_reports`: the listing of the log. Only a JSON decoding error is
      caught there, so a file that cannot be opened or decoded gives no
      listing (`None`): the request fails. */
  function GetReports(f: Stored): (r: Option<seq<Record>>)
    ensures r.None? <==> f.Unreadable? || f.Undecodable?
    ensures r.Some? ==> r.value == Listing(f)
  {
    if f.Unreadable? || f.Undecodable? then None else Some(Listing(f))
  }

  /** Listing a bounded log after an append: the appended element first,
      then the earlier listing, cut to the bound. */
  lemma {:induction false} ListingAfterAppend<T>(prior: seq<T>, x: T, cap: nat)
    requires cap >= 1
    ensures var after := Reverse(LastN(prior + [x], cap));
      && 1 <= |after| <= cap
      && after == [x] + Reverse(prior)[..|after| - 1]
  {
    var kept := LastN(prior + [x], cap);
    var after := Reverse(kept);
    var before := Reverse(prior);
    assert kept[|kept| - 1] == x;
    forall i | 0 <= i < |after| ensures after[i] == ([x] + before[..|after| - 1])[i] {
      if i > 0 {
        assert after[i] == kept[|kept| - 1 - i];
        assert kept[|kept| - 1 - i] == (prior + [x])[|prior| - i];
      }
    }
  }

  /** After a save, which writes a readable log (so `get_reports` lists
      it), the listing starts with the new record and continues with the
      listing from before, cut so that at most fifty remain. (A file that
      could not be opened counted as an empty log, so then the new record
      is listed alone.) */
  lemma ListingAfterSave(f: Stored, rec: Record)
    ensures var after := Listing(Log(Kept(f, rec)));
      && 1 <= |after| <= Capacity
      && after[0] == rec
      && after == [rec] + Listing(f)[..|after| - 1]
  {
    ListingAfterAppend(Loaded(f), rec, Capacity);
  }
}
