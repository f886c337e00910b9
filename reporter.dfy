/**
  The reporter (`report`): per-file counts and percentages, the undocumented
  identities of each file in sorted order, the global truncated percentage and
  the signal compared against the threshold.
 */
module Reporter {
  import opened Wrappers
  import opened Classifier
  import opened IdOrder

  // ---------------------------------------------------------------------------
  // The sort key (`get_coverage`) and the order of the files

  /** The truth value of a `(line, documented)` tuple in `if d`: a non-empty tuple is always true. */
  predicate TupleIsTrue(e: Entry) {
    true
  }

  /** `get_coverage(f)`: 100 for an empty record, else the share of the record's tuples that are true. */
  function GetCoverage(defs: FileRecord): real {
    if defs == map[] then 100.0
    else
      var yes := |set id | id in defs && TupleIsTrue(defs[id])|;
      var no := |set id | id in defs && !TupleIsTrue(defs[id])|;
      assert (set id | id in defs && TupleIsTrue(defs[id])) == defs.Keys;
      assert defs.Keys != {} by {
        var k :| k in defs;
      }
      (yes as real) * 100.0 / ((yes + no) as real)
  }

  /** The sort key is 100 for every file, whatever its documentation: the sort by coverage orders nothing. */
  lemma GetCoverageIsConstant(defs: FileRecord)
    ensures GetCoverage(defs) == 100.0
  {
    if defs != map[] {
      var yes := |set id | id in defs && TupleIsTrue(defs[id])|;
      assert (set id | id in defs && !TupleIsTrue(defs[id])) == {};
      assert (set id | id in defs && TupleIsTrue(defs[id])) == defs.Keys;
      assert defs.Keys != {} by {
        var k :| k in defs;
      }
      assert (yes as real) * 100.0 / (yes as real) == 100.0;
    }
  }

  /** The sequence in reverse. */
  function Reversed<T>(s: seq<T>): (r: seq<T>)
    ensures |r| == |s| && forall i :: 0 <= i < |s| ==> r[i] == s[|s| - 1 - i]
  {
    if s == [] then [] else [s[|s| - 1]] + Reversed(s[..|s| - 1])
  }

  /** `order` lists every file of the index exactly once (what `files.keys()` returns). */
  predicate IsKeyOrder(order: seq<string>, files: CoverageIndex) {
    && (forall i, j :: 0 <= i < j < |order| ==> order[i] != order[j])
    && (forall f :: f in order ==> f in files)
    && (forall f :: f in files ==> f in order)
  }

  /**
    The files in the order the report visits them: `keys()` sorted by the constant key, which a
    stable sort leaves as it is, then reversed. Still every file exactly once.
   */
  lemma ReversedIsKeyOrder(keysOrder: seq<string>, files: CoverageIndex)
    requires IsKeyOrder(keysOrder, files)
    ensures IsKeyOrder(Reversed(keysOrder), files)
  {
    var r := Reversed(keysOrder);
    var n := |keysOrder|;
    forall f ensures f in r <==> f in keysOrder {
      if f in r {
        var i :| 0 <= i < n && r[i] == f;
        assert keysOrder[n - 1 - i] == f;
      }
      if f in keysOrder {
        var i :| 0 <= i < n && keysOrder[i] == f;
        assert r[n - 1 - i] == f;
      }
    }
    forall i, j | 0 <= i < j < n ensures r[i] != r[j] {
      assert r[i] == keysOrder[n - 1 - i] && r[j] == keysOrder[n - 1 - j];
    }
  }

  // ---------------------------------------------------------------------------
  // Per-file counts and percentages

  function DocumentedIds(defs: FileRecord): set<DefId> {
    set id | id in defs && defs[id].documented
  }

  function UndocumentedIds(defs: FileRecord): set<DefId> {
    set id | id in defs && !defs[id].documented
  }

  /** `doc_yes`: the definitions of the record that are documented. */
  function CountDocumented(defs: FileRecord): nat {
    |DocumentedIds(defs)|
  }

  /** `doc_no`: the definitions of the record that are not. */
  function CountUndocumented(defs: FileRecord): nat {
    |UndocumentedIds(defs)|
  }

  /** Every definition is counted once, as documented or as undocumented. */
  lemma CountsPartitionRecord(defs: FileRecord)
    ensures CountDocumented(defs) + CountUndocumented(defs) == |defs|
  {
    assert DocumentedIds(defs) + UndocumentedIds(defs) == defs.Keys;
    assert DocumentedIds(defs) * UndocumentedIds(defs) == {};
  }

  /** The per-file figure `'%3d' % (doc_yes * 100.0 / total)`: the percentage truncated. */
  function FilePercent(yes: nat, total: nat): (p: nat)
    requires yes <= total && total > 0
    ensures p <= 100
    ensures p * total <= yes * 100 < (p + 1) * total
  {
    yes * 100 / total
  }

  /** `total_yes * 100 / total_all`: integer division truncates (7 of 11 gives 63). */
  function GlobalPercent(yes: nat, no: nat): (p: nat)
    requires yes + no > 0
    ensures p <= 100
    ensures p * (yes + no) <= yes * 100 < (p + 1) * (yes + no)
  {
    yes * 100 / (yes + no)
  }

  /** `(threshold - total_per, 0)[total_per > threshold]`. */
  function Signal(percent: int, threshold: int): (r: int)
    ensures r >= 0
    ensures r == 0 <==> percent >= threshold
    ensures r > 0 ==> r == threshold - percent
  {
    if percent > threshold then 0 else threshold - percent
  }

  /** Worked figures: 7 of 11 is 63, and 85 against 90 gives 5. */
  lemma ExampleFigures()
    ensures GlobalPercent(7, 4) == 63
    ensures Signal(85, 90) == 5 && Signal(85, 85) == 0 && Signal(86, 85) == 0
  {
  }

  // ---------------------------------------------------------------------------
  // Totals over the files

  /** The files of `order` whose record is not empty: those the report prints. */
  function NonEmptyFiles(files: CoverageIndex, order: seq<string>): seq<string>
    requires forall f :: f in order ==> f in files
  {
    if order == [] then []
    else
      var f := order[|order| - 1];
      NonEmptyFiles(files, order[..|order| - 1]) + (if files[f] != map[] then [f] else [])
  }

  function SumDocumented(files: CoverageIndex, order: seq<string>): nat
    requires forall f :: f in order ==> f in files
  {
    if order == [] then 0
    else SumDocumented(files, order[..|order| - 1]) + CountDocumented(files[order[|order| - 1]])
  }

  function SumUndocumented(files: CoverageIndex, order: seq<string>): nat
    requires forall f :: f in order ==> f in files
  {
    if order == [] then 0
    else SumUndocumented(files, order[..|order| - 1]) + CountUndocumented(files[order[|order| - 1]])
  }

  /** The number of definitions in the records of `order`. */
  function SumSizes(files: CoverageIndex, order: seq<string>): nat
    requires forall f :: f in order ==> f in files
  {
    if order == [] then 0
    else SumSizes(files, order[..|order| - 1]) + |files[order[|order| - 1]]|
  }

  /** `total_yes + total_no` counts every definition of every file once. */
  lemma {:induction false} TotalsPartition(files: CoverageIndex, order: seq<string>)
    requires forall f :: f in order ==> f in files
    ensures SumDocumented(files, order) + SumUndocumented(files, order) == SumSizes(files, order)
  {
    if order != [] {
      TotalsPartition(files, order[..|order| - 1]);
      CountsPartitionRecord(files[order[|order| - 1]]);
    }
  }

  /** There is nothing to divide by exactly when every record is empty. */
  lemma {:induction false} NoDefinitionsIffAllEmpty(files: CoverageIndex, order: seq<string>)
    requires forall f :: f in order ==> f in files
    ensures SumSizes(files, order) == 0 <==> forall f :: f in order ==> files[f] == map[]
  {
    if order != [] {
      var prefix := order[..|order| - 1];
      var last := order[|order| - 1];
      NoDefinitionsIffAllEmpty(files, prefix);
      assert forall f :: f in order <==> f in prefix || f == last;
      if files[last] != map[] {
        assert |files[last]| > 0 by {
          var k :| k in files[last];
        }
      }
    }
  }

  // ---------------------------------------------------------------------------
  // The report

  /** One ` L: <line> - <id>` line of the listing. */
  datatype Undocumented = Undocumented(line: int, id: DefId)

  /** One printed file: `'%3d%% - %s - (%d of %d)'` and its listing. */
  datatype FileRow = FileRow(file: string, percent: nat, documented: nat, total: nat, undocumented: seq<Undocumented>)

  /** The global outcome: the totals, the percentage and the signal, or the division by zero. */
  datatype Outcome =
    | Completed(documented: nat, undocumented: nat, percent: nat, signal: int)
    | DivisionByZero

  /** `listing` holds each undocumented definition of `defs` once, with its line, by ascending identity. */
  predicate ListsUndocumented(defs: FileRecord, listing: seq<Undocumented>) {
    && ListedInOrder(listing)
    && (forall k :: 0 <= k < |listing| ==> listing[k].id in defs && defs[listing[k].id] == Entry(listing[k].line, false))
    && (forall id :: id in defs && !defs[id].documented ==> exists k :: 0 <= k < |listing| && listing[k].id == id)
  }

  /** `row` is what the report prints for `file`. */
  predicate RowDescribes(files: CoverageIndex, file: string, row: FileRow) {
    && file in files
    && row.file == file
    && row.total == |files[file]| > 0
    && row.documented == CountDocumented(files[file])
    && row.total - row.documented == CountUndocumented(files[file])
    && row.percent == FilePercent(row.documented, row.total)
    && ListsUndocumented(files[file], row.undocumented)
  }

  /** `rows` are what the report prints for `names`, one row each. */
  predicate RowsDescribe(files: CoverageIndex, names: seq<string>, rows: seq<FileRow>) {
    |rows| == |names| && forall k :: 0 <= k < |rows| ==> RowDescribes(files, names[k], rows[k])
  }

  lemma RowsDescribeAppend(files: CoverageIndex, names: seq<string>, rows: seq<FileRow>, f: string, row: FileRow)
    requires RowsDescribe(files, names, rows) && RowDescribes(files, f, row)
    ensures RowsDescribe(files, names + [f], rows + [row])
  {
  }

  /** The ` L:` lines for the identities `ids`, in their order, keeping the undocumented ones. */
  function UndocumentedListing(defs: FileRecord, ids: seq<DefId>): seq<Undocumented>
    requires forall id :: id in ids ==> id in defs
  {
    if ids == [] then []
    else
      var rest := UndocumentedListing(defs, ids[1..]);
      var e := defs[ids[0]];
      if e.documented then rest else [Undocumented(e.line, ids[0])] + rest
  }

  /** Each line of `listing` names an undocumented definition of `ids` with its line. */
  predicate ListedFrom(defs: FileRecord, ids: seq<DefId>, listing: seq<Undocumented>) {
    forall k :: 0 <= k < |listing| ==> listing[k].id in ids && listing[k].id in defs && defs[listing[k].id] == Entry(listing[k].line, false)
  }

  /** Each undocumented definition of `ids` has a line in `listing`. */
  predicate ListsEveryUndocumented(defs: FileRecord, ids: seq<DefId>, listing: seq<Undocumented>)
    requires forall id :: id in ids ==> id in defs
  {
    forall id :: id in ids && !defs[id].documented ==> exists k :: 0 <= k < |listing| && listing[k].id == id
  }

  /** The lines of `listing` are in ascending order of identity. */
  predicate ListedInOrder(listing: seq<Undocumented>) {
    forall i, j :: 0 <= i < j < |listing| ==> IdLess(listing[i].id, listing[j].id)
  }

  /** Every listed line is an undocumented definition of `ids`, with its line. */
  lemma {:induction false} ListingIsSound(defs: FileRecord, ids: seq<DefId>)
    requires forall id :: id in ids ==> id in defs
    ensures ListedFrom(defs, ids, UndocumentedListing(defs, ids))
  {
    if ids != [] {
      var tail := ids[1..];
      ListingIsSound(defs, tail);
      var rest := UndocumentedListing(defs, tail);
      assert ListedFrom(defs, tail, rest);
      var r := UndocumentedListing(defs, ids);
      forall k | 0 <= k < |rest| ensures rest[k].id in ids {
        assert rest[k].id in tail;
        var j :| 0 <= j < |tail| && tail[j] == rest[k].id;
        assert ids[j + 1] == rest[k].id;
      }
      if !defs[ids[0]].documented {
        assert r == [Undocumented(defs[ids[0]].line, ids[0])] + rest;
        forall k | 1 <= k < |r| ensures r[k] == rest[k - 1] {
        }
      }
    }
  }

  /** Every undocumented definition of `ids` is listed. */
  lemma {:induction false} ListingIsComplete(defs: FileRecord, ids: seq<DefId>)
    requires forall id :: id in ids ==> id in defs
    ensures ListsEveryUndocumented(defs, ids, UndocumentedListing(defs, ids))
  {
    if ids != [] {
      var tail := ids[1..];
      ListingIsComplete(defs, tail);
      var rest := UndocumentedListing(defs, tail);
      assert ListsEveryUndocumented(defs, tail, rest);
      var r := UndocumentedListing(defs, ids);
      forall id | id in ids && !defs[id].documented ensures exists k :: 0 <= k < |r| && r[k].id == id {
        if id == ids[0] {
          assert r[0].id == id;
        } else {
          assert id in tail by {
            var j :| 0 <= j < |ids| && ids[j] == id;
            assert tail[j - 1] == id;
          }
          var k :| 0 <= k < |rest| && rest[k].id == id;
          if !defs[ids[0]].documented {
            assert r[k + 1].id == id;
          }
        }
      }
    }
  }

  /** Listing identities given in ascending order keeps them in ascending order. */
  lemma {:induction false} ListingIsSorted(defs: FileRecord, ids: seq<DefId>)
    requires forall id :: id in ids ==> id in defs
    requires StrictlyIncreasing(ids)
    ensures ListedInOrder(UndocumentedListing(defs, ids))
  {
    if ids != [] {
      var tail := ids[1..];
      assert StrictlyIncreasing(tail) by {
        forall i, j | 0 <= i < j < |tail| ensures IdLess(tail[i], tail[j]) {
          assert tail[i] == ids[i + 1] && tail[j] == ids[j + 1];
        }
      }
      ListingIsSorted(defs, tail);
      ListingIsSound(defs, tail);
      var rest := UndocumentedListing(defs, tail);
      assert ListedFrom(defs, tail, rest) && ListedInOrder(rest);
      var r := UndocumentedListing(defs, ids);
      if !defs[ids[0]].documented {
        forall k | 0 <= k < |rest| ensures IdLess(ids[0], rest[k].id) {
          assert rest[k].id in tail;
          var j :| 0 <= j < |tail| && tail[j] == rest[k].id;
          assert ids[j + 1] == rest[k].id;
        }
        assert r == [Undocumented(defs[ids[0]].line, ids[0])] + rest;
        forall i, j | 0 <= i < j < |r| ensures IdLess(r[i].id, r[j].id) {
          assert r[j] == rest[j - 1];
          if i > 0 {
            assert r[i] == rest[i - 1];
          }
        }
      }
    }
  }

  /** What the report prints for one file with a non-empty record. */
  method DescribeFile(files: CoverageIndex, f: string) returns (row: FileRow)
    requires f in files && files[f] != map[]
    ensures RowDescribes(files, f, row)
  {
    var defs := files[f];
    var docYes := CountDocumented(defs);
    var docNo := CountUndocumented(defs);
    CountsPartitionRecord(defs);
    assert |defs| > 0 by {
      var k :| k in defs;
    }
    var ids := SortIds(defs.Keys);
    var listing := UndocumentedListing(defs, ids);
    ListingIsSound(defs, ids);
    ListingIsComplete(defs, ids);
    ListingIsSorted(defs, ids);
    row := FileRow(f, FilePercent(docYes, docYes + docNo), docYes, docYes + docNo, listing);
  }

  /** The spec functions over one more file. */
  lemma TotalsStep(files: CoverageIndex, order: seq<string>, i: nat)
    requires forall f :: f in order ==> f in files
    requires i < |order|
    ensures var f := order[i];
      && SumDocumented(files, order[..i + 1]) == SumDocumented(files, order[..i]) + CountDocumented(files[f])
      && SumUndocumented(files, order[..i + 1]) == SumUndocumented(files, order[..i]) + CountUndocumented(files[f])
      && NonEmptyFiles(files, order[..i + 1]) == NonEmptyFiles(files, order[..i]) + (if files[f] != map[] then [f] else [])
  {
    assert order[..i + 1][..i] == order[..i];
  }

  /** The loop of `report` over the files in `order`: the printed rows and the two running totals. */
  method VisitFiles(files: CoverageIndex, order: seq<string>) returns (rows: seq<FileRow>, totalYes: nat, totalNo: nat)
    requires forall f :: f in order ==> f in files
    ensures RowsDescribe(files, NonEmptyFiles(files, order), rows)
    ensures totalYes == SumDocumented(files, order)
    ensures totalNo == SumUndocumented(files, order)
  {
    totalYes, totalNo := 0, 0;
    rows := [];
    var i := 0;
    while i < |order|
      invariant 0 <= i <= |order|
      invariant totalYes == SumDocumented(files, order[..i])
      invariant totalNo == SumUndocumented(files, order[..i])
      invariant RowsDescribe(files, NonEmptyFiles(files, order[..i]), rows)
    {
      var f := order[i];
      TotalsStep(files, order, i);
      var defs := files[f];
      if defs == map[] {
        i := i + 1;
        continue;
      }
      var docYes := CountDocumented(defs);
      var docNo := CountUndocumented(defs);
      totalYes := totalYes + docYes;
      totalNo := totalNo + docNo;
      var row := DescribeFile(files, f);
      RowsDescribeAppend(files, NonEmptyFiles(files, order[..i]), rows, f, row);
      rows := rows + [row];
      i := i + 1;
    }
    assert order[..i] == order;
  }

  /**
    `report`: visit the files in the order `files_sorted` (`keysOrder` is the order of
    `files.keys()`), skip empty records, print each other file with its sorted listing,
    then the global percentage, and return the signal.
   */
  method Report(files: CoverageIndex, keysOrder: seq<string>, threshold: int) returns (rows: seq<FileRow>, outcome: Outcome)
    requires IsKeyOrder(keysOrder, files)
    ensures forall f :: f in Reversed(keysOrder) ==> f in files
    ensures RowsDescribe(files, NonEmptyFiles(files, Reversed(keysOrder)), rows)
    ensures outcome.DivisionByZero? <==> forall f :: f in files ==> files[f] == map[]
    ensures outcome.Completed? ==>
      && outcome.documented == SumDocumented(files, Reversed(keysOrder))
      && outcome.undocumented == SumUndocumented(files, Reversed(keysOrder))
      && outcome.documented + outcome.undocumented == SumSizes(files, Reversed(keysOrder)) > 0
      && outcome.percent == GlobalPercent(outcome.documented, outcome.undocumented)
      && outcome.signal == Signal(outcome.percent, threshold)
  {
    ReversedIsKeyOrder(keysOrder, files);
    var filesSorted := Reversed(keysOrder);
    var totalYes, totalNo;
    rows, totalYes, totalNo := VisitFiles(files, filesSorted);
    TotalsPartition(files, filesSorted);
    NoDefinitionsIffAllEmpty(files, filesSorted);
    var totalAll := totalYes + totalNo;
    if totalAll == 0 {
      outcome := DivisionByZero;
    } else {
      var totalPer := GlobalPercent(totalYes, totalNo);
      outcome := Completed(totalYes, totalNo, totalPer, Signal(totalPer, threshold));
    }
  }

}
