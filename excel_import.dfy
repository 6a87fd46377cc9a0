/** The import transaction, as a function of the table it starts from, the uploaded worksheet
    and the storage failures that happen along the way. */
module ExcelImport {
  import opened StoreLocations

  /** What the upload yields before any row is read: no `file` form field (400), a file that
      cannot be opened or is not a spreadsheet (500), or the rows of "Sheet1". */
  datatype Upload = NoFile | Unreadable | Parsed(rows: Grid)

  /** Storage failures, decided by the database: the transaction cannot begin, the lookup or the
      insert for data row `i` (a grid index) errors, or the commit errors. */
  datatype Faults = Faults(
    beginFails: bool,
    lookupFails: set<nat>,
    insertFails: set<nat>,
    commitFails: bool)

  const NoFaults := Faults(false, {}, {}, false)

  datatype ImportError =
    | MissingFile                  // 400
    | UnreadableFile               // 500
    | EmptyField(row: nat)         // 400, "There is an empty field on row %d", 1-based
    | ShortRow(row: nat)           // a data row with fewer than seven cells: the index panics, 500
    | DuplicateCode(code: string)  // 409, "Data with code %s already exists"
    | StorageError                 // 500, begin, lookup, insert or commit

  /** The HTTP status each error is answered with: a bad request for a missing file or an
      empty cell, a conflict for a duplicate code, a server error for everything else. */
  function Status(e: ImportError): (status: int)
    ensures status == 400 <==> e.MissingFile? || e.EmptyField?
    ensures status == 409 <==> e.DuplicateCode?
    ensures status == 500 <==> e.UnreadableFile? || e.ShortRow? || e.StorageError?
  {
    match e
    case MissingFile => 400
    case EmptyField(_) => 400
    case DuplicateCode(_) => 409
    case _ => 500
  }

  /** Result of running the row loop inside the transaction: the transaction's view of the
      table and its next auto-increment id, or the error that aborted the loop. */
  datatype Step = Done(view: seq<Record>, next: int) | Halt(error: ImportError)

  /** Result of a whole import: the committed table, or the error (the table is then untouched). */
  datatype Outcome = Committed(records: seq<Record>, nextId: int) | Failed(error: ImportError)

  /** The handler's reply: a success message or an error. */
  datatype Reply = Imported | Rejected(error: ImportError)

  function ReplyTo(o: Outcome): Reply
  {
    if o.Committed? then Imported else Rejected(o.error)
  }

  /** A data row that passes the empty-cell check and can be read positionally. */
  predicate WellFormed(row: seq<string>)
  {
    !HasEmptyCell(row) && |row| >= Columns
  }

  /** The loop body for grid rows i, i+1, ..., in order: empty-cell check, positional read,
      lookup in the transaction's view (which holds the rows this import inserted already),
      sentinel duplicate test, insert. The first failing row ends the loop. */
  function Run(view: seq<Record>, next: int, rows: Grid, i: nat, faults: Faults): (r: Step)
    ensures r.Done? ==> view <= r.view
    ensures r.Done? && i <= |rows| ==> |r.view| == |view| + (|rows| - i) && r.next == next + (|rows| - i)
    decreases |rows| - i
  {
    if i >= |rows| then Done(view, next)
    else
      var row := rows[i];
      if HasEmptyCell(row) then Halt(EmptyField(i + 1))
      else if |row| < Columns then Halt(ShortRow(i + 1))
      else if i in faults.lookupFails then Halt(StorageError)
      else if ExistingId(view, row[0]) != 0 then Halt(DuplicateCode(row[0]))
      else if i in faults.insertFails then Halt(StorageError)
      else Run(view + [Record(next, ToLocation(row))], next + 1, rows, i + 1, faults)
  }

  /** The whole handler: upload, begin, the row loop from index 1 (index 0 is the header),
      commit. A failure anywhere leaves the table as it was. */
  function ImportOutcome(records: seq<Record>, nextId: int, upload: Upload, faults: Faults): (o: Outcome)
    ensures o.Committed? ==> upload.Parsed? && records <= o.records
    ensures o.Committed? && |upload.rows| >= 1 ==> |o.records| == |records| + |upload.rows| - 1
  {
    match upload
    case NoFile => Failed(MissingFile)
    case Unreadable => Failed(UnreadableFile)
    case Parsed(rows) =>
      if faults.beginFails then Failed(StorageError)
      else
        match Run(records, nextId, rows, 1, faults)
        case Halt(e) => Failed(e)
        case Done(view, next) => if faults.commitFails then Failed(StorageError) else Committed(view, next)
  }

  /** Continue a run that has processed the rows before index k. */
  function Resume(s: Step, rows: Grid, k: nat, faults: Faults): Step
  {
    match s
    case Halt(e) => Halt(e)
    case Done(view, next) => Run(view, next, rows, k, faults)
  }

  /** The records a run from row i inserts when every row passes, with consecutive ids. */
  function Inserted(rows: Grid, i: nat, next: int): (ins: seq<Record>)
    requires forall k :: i <= k < |rows| ==> |rows[k]| >= Columns
    ensures |ins| == if i < |rows| then |rows| - i else 0
    ensures forall k :: 0 <= k < |ins| ==> ins[k] == Record(next + k, ToLocation(rows[i + k]))
    decreases |rows| - i
  {
    if i >= |rows| then [] else [Record(next, ToLocation(rows[i]))] + Inserted(rows, i + 1, next + 1)
  }

  /** Rows i.. pass the empty-cell and length checks and meet no storage failure. */
  predicate RowsPass(rows: Grid, i: nat, faults: Faults)
  {
    forall k :: i <= k < |rows| ==>
      WellFormed(rows[k]) && k !in faults.lookupFails && k !in faults.insertFails
  }

  /** No code of rows i.. is in the table `view`. */
  predicate RowsNew(view: seq<Record>, rows: Grid, i: nat)
    requires forall k :: i <= k < |rows| ==> rows[k] != []
  {
    forall k :: i <= k < |rows| ==> rows[k][0] !in Codes(view)
  }

  /** No two of rows i.. share a code. */
  predicate RowsDistinct(rows: Grid, i: nat)
    requires forall k :: i <= k < |rows| ==> rows[k] != []
  {
    forall j, k :: i <= j < k < |rows| ==> rows[j][0] != rows[k][0]
  }

  /** Reference condition for rows i.. to pass against a table `view` whose ids are non-zero:
      each row is well-formed and meets no storage failure, its code is not in the table, and
      no two of these rows share a code. */
  predicate Clean(view: seq<Record>, rows: Grid, i: nat, faults: Faults)
  {
    RowsPass(rows, i, faults) && RowsNew(view, rows, i) && RowsDistinct(rows, i)
  }

  // ---------------------------------------------------------------------------------------
  // Order of evaluation

  /** Only rows from index i on are read by the loop. */
  lemma {:induction false} RunReadsFrom(view: seq<Record>, next: int, rows: Grid, rows': Grid, i: nat, faults: Faults)
    requires |rows| == |rows'|
    requires forall k :: i <= k < |rows| ==> rows[k] == rows'[k]
    ensures Run(view, next, rows, i, faults) == Run(view, next, rows', i, faults)
    decreases |rows| - i
  {
    if i < |rows| && WellFormed(rows[i]) {
      RunReadsFrom(view + [Record(next, ToLocation(rows[i]))], next + 1, rows, rows', i + 1, faults);
    }
  }

  /** Row 0 is never validated nor inserted: any header gives the same outcome. */
  lemma HeaderIgnored(records: seq<Record>, nextId: int, header: seq<string>, header': seq<string>, data: Grid, faults: Faults)
    ensures ImportOutcome(records, nextId, Parsed([header] + data), faults)
         == ImportOutcome(records, nextId, Parsed([header'] + data), faults)
  {
    RunReadsFrom(records, nextId, [header] + data, [header'] + data, 1, faults);
  }

  /** Sequential composition: running rows i.. is running rows i..k-1, then rows k.. from
      where that left off. In particular a failure before row k ends the import there. */
  lemma {:induction false} RunSplit(view: seq<Record>, next: int, rows: Grid, i: nat, k: nat, faults: Faults)
    requires i <= k <= |rows|
    ensures Run(view, next, rows, i, faults) == Resume(Run(view, next, rows[..k], i, faults), rows, k, faults)
    decreases k - i
  {
    if i < k {
      assert rows[..k][i] == rows[i];
      var row := rows[i];
      if WellFormed(row) {
        RunSplit(view + [Record(next, ToLocation(row))], next + 1, rows, i + 1, k, faults);
      }
    }
  }

  /** First failure wins: if the rows before index k already fail, nothing from row k on is
      looked at and the import fails with that error. */
  lemma FirstFailureWins(records: seq<Record>, nextId: int, rows: Grid, k: nat, faults: Faults)
    requires 1 <= k <= |rows| && !faults.beginFails
    requires Run(records, nextId, rows[..k], 1, faults).Halt?
    ensures ImportOutcome(records, nextId, Parsed(rows), faults)
         == Failed(Run(records, nextId, rows[..k], 1, faults).error)
  {
    RunSplit(records, nextId, rows, 1, k, faults);
  }

  /** An empty cell in data row k, once the earlier rows passed, fails the import naming row
      k + 1, whatever the row's code and whatever storage failures follow. */
  lemma EmptyCellRejected(records: seq<Record>, nextId: int, rows: Grid, k: nat, faults: Faults)
    requires 1 <= k < |rows| && !faults.beginFails
    requires Run(records, nextId, rows[..k], 1, faults).Done?
    requires HasEmptyCell(rows[k])
    ensures ImportOutcome(records, nextId, Parsed(rows), faults) == Failed(EmptyField(k + 1))
  {
    RunSplit(records, nextId, rows, 1, k, faults);
  }

  /** A data row k with no empty cell but fewer than seven cells, once the earlier rows passed,
      fails the import before any lookup (the source indexes the missing column and panics). */
  lemma ShortRowRejected(records: seq<Record>, nextId: int, rows: Grid, k: nat, faults: Faults)
    requires 1 <= k < |rows| && !faults.beginFails
    requires Run(records, nextId, rows[..k], 1, faults).Done?
    requires !HasEmptyCell(rows[k]) && |rows[k]| < Columns
    ensures ImportOutcome(records, nextId, Parsed(rows), faults) == Failed(ShortRow(k + 1))
  {
    RunSplit(records, nextId, rows, 1, k, faults);
  }

  /** A well-formed data row k whose code the transaction's view already holds under a
      non-zero id fails the import with a conflict naming that code. */
  lemma DuplicateRejected(records: seq<Record>, nextId: int, rows: Grid, k: nat, faults: Faults)
    requires 1 <= k < |rows| && !faults.beginFails
    requires WellFormed(rows[k]) && k !in faults.lookupFails
    requires Run(records, nextId, rows[..k], 1, faults).Done?
    requires ExistingId(Run(records, nextId, rows[..k], 1, faults).view, rows[k][0]) != 0
    ensures ImportOutcome(records, nextId, Parsed(rows), faults) == Failed(DuplicateCode(rows[k][0]))
  {
    RunSplit(records, nextId, rows, 1, k, faults);
  }

  // ---------------------------------------------------------------------------------------
  // What a successful import does

  /** A run starting from a table without zero ids keeps it so. */
  lemma {:induction false} RunKeepsIdsNonZero(view: seq<Record>, next: int, rows: Grid, i: nat, faults: Faults)
    requires NonZeroIds(view) && next > 0
    ensures Run(view, next, rows, i, faults).Done? ==> NonZeroIds(Run(view, next, rows, i, faults).view)
    decreases |rows| - i
  {
    if i < |rows| && WellFormed(rows[i]) {
      RunKeepsIdsNonZero(view + [Record(next, ToLocation(rows[i]))], next + 1, rows, i + 1, faults);
    }
  }

  lemma CleanStep(view: seq<Record>, next: int, rows: Grid, i: nat, faults: Faults)
    requires i < |rows| && WellFormed(rows[i])
    ensures Clean(view, rows, i, faults) <==>
      && i !in faults.lookupFails && i !in faults.insertFails
      && rows[i][0] !in Codes(view)
      && Clean(view + [Record(next, ToLocation(rows[i]))], rows, i + 1, faults)
  {
    CodesAppend(view, Record(next, ToLocation(rows[i])));
  }

  /** One pass of the loop over a well-formed row, against a table without zero ids: the row
      goes through exactly when it meets no storage failure and its code is new. */
  lemma RunStep(view: seq<Record>, next: int, rows: Grid, i: nat, faults: Faults)
    requires NonZeroIds(view) && i < |rows| && WellFormed(rows[i])
    ensures var passes := i !in faults.lookupFails && i !in faults.insertFails && rows[i][0] !in Codes(view);
      var rest := Run(view + [Record(next, ToLocation(rows[i]))], next + 1, rows, i + 1, faults);
      && (passes ==> Run(view, next, rows, i, faults) == rest)
      && (!passes ==> Run(view, next, rows, i, faults).Halt?)
  {
    LookupFindsStoredCode(view, rows[i][0]);
  }

  /** The loop runs to the end exactly when the rows are clean, and then it has appended one
      record per row, in row order, fields taken from columns 0..6, ids from `next` on. */
  lemma {:induction false} RunAccepts(view: seq<Record>, next: int, rows: Grid, i: nat, faults: Faults)
    requires NonZeroIds(view) && next > 0
    ensures Run(view, next, rows, i, faults).Done? <==> Clean(view, rows, i, faults)
    ensures Clean(view, rows, i, faults) ==>
      Run(view, next, rows, i, faults).view == view + Inserted(rows, i, next)
    decreases |rows| - i
  {
    if i < |rows| {
      if WellFormed(rows[i]) {
        var r := Record(next, ToLocation(rows[i]));
        RunStep(view, next, rows, i, faults);
        CleanStep(view, next, rows, i, faults);
        RunAccepts(view + [r], next + 1, rows, i + 1, faults);
        if Clean(view, rows, i, faults) {
          assert Inserted(rows, i, next) == [r] + Inserted(rows, i + 1, next + 1);
          assert view + [r] + Inserted(rows, i + 1, next + 1) == view + Inserted(rows, i, next);
        }
      }
    }
  }

  /** A successful import: the table was reachable (no begin or commit failure) and the data
      rows were clean; the committed table is the old one followed by one record per data row. */
  lemma ImportCommitsIff(records: seq<Record>, nextId: int, rows: Grid, faults: Faults)
    requires NonZeroIds(records) && nextId > 0
    ensures ImportOutcome(records, nextId, Parsed(rows), faults).Committed?
        <==> !faults.beginFails && !faults.commitFails && Clean(records, rows, 1, faults)
    ensures ImportOutcome(records, nextId, Parsed(rows), faults).Committed? ==>
      ImportOutcome(records, nextId, Parsed(rows), faults).records == records + Inserted(rows, 1, nextId)
  {
    RunAccepts(records, nextId, rows, 1, faults);
  }

  /** A run from a table with distinct codes and no zero ids keeps the codes distinct. */
  lemma {:induction false} RunKeepsCodesDistinct(view: seq<Record>, next: int, rows: Grid, i: nat, faults: Faults)
    requires NonZeroIds(view) && next > 0 && DistinctCodes(view)
    ensures Run(view, next, rows, i, faults).Done? ==> DistinctCodes(Run(view, next, rows, i, faults).view)
    decreases |rows| - i
  {
    if i < |rows| && WellFormed(rows[i]) && ExistingId(view, rows[i][0]) == 0 {
      var r := Record(next, ToLocation(rows[i]));
      LookupFindsStoredCode(view, rows[i][0]);
      assert forall a :: 0 <= a < |view| ==> view[a].location.code == Codes(view)[a];
      RunKeepsCodesDistinct(view + [r], next + 1, rows, i + 1, faults);
    }
  }

  /** A committed import keeps `code` unique, provided no stored id is 0 and the
      auto-increment counter is positive (so the sentinel test sees every stored code). */
  lemma ImportKeepsCodesUnique(records: seq<Record>, nextId: int, upload: Upload, faults: Faults)
    requires NonZeroIds(records) && nextId > 0 && DistinctCodes(records)
    ensures ImportOutcome(records, nextId, upload, faults).Committed? ==>
      DistinctCodes(ImportOutcome(records, nextId, upload, faults).records)
  {
    if upload.Parsed? {
      RunKeepsCodesDistinct(records, nextId, upload.rows, 1, faults);
    }
  }

  /** A code repeated inside one file is caught: once rows before k passed, a well-formed row k
      repeating the code of an earlier data row j conflicts, because row j's insert is visible
      to row k's lookup. */
  lemma RepeatedCodeRejected(records: seq<Record>, nextId: int, rows: Grid, j: nat, k: nat, faults: Faults)
    requires NonZeroIds(records) && nextId > 0
    requires 1 <= j < k < |rows| && !faults.beginFails
    requires WellFormed(rows[j]) && WellFormed(rows[k]) && rows[j][0] == rows[k][0]
    requires k !in faults.lookupFails
    requires Run(records, nextId, rows[..k], 1, faults).Done?
    ensures ImportOutcome(records, nextId, Parsed(rows), faults) == Failed(DuplicateCode(rows[k][0]))
  {
    var prefix := rows[..k];
    RunAccepts(records, nextId, prefix, 1, faults);
    RunKeepsIdsNonZero(records, nextId, prefix, 1, faults);
    var view := Run(records, nextId, prefix, 1, faults).view;
    var ins := Inserted(prefix, 1, nextId);
    assert view == records + ins;
    assert ins[j - 1].location.code == rows[j][0];
    assert Codes(view)[|records| + j - 1] == rows[k][0];
    LookupFindsStoredCode(view, rows[k][0]);
    DuplicateRejected(records, nextId, rows, k, faults);
  }

  /** Two imports in a row: a code the first one committed makes the second one conflict on
      its first data row, and (being a failure) the second leaves the table as the first left it. */
  lemma SecondImportConflicts(records: seq<Record>, nextId: int, first: Grid, j: nat, second: Grid, faults: Faults, faults': Faults)
    requires NonZeroIds(records) && nextId > 0
    requires ImportOutcome(records, nextId, Parsed(first), faults).Committed?
    requires 1 <= j < |first| && |second| >= 2
    requires WellFormed(second[1]) && 1 !in faults'.lookupFails && !faults'.beginFails
    requires WellFormed(first[j]) && first[j][0] == second[1][0]
    ensures var o := ImportOutcome(records, nextId, Parsed(first), faults);
      ImportOutcome(o.records, o.nextId, Parsed(second), faults') == Failed(DuplicateCode(second[1][0]))
  {
    var o := ImportOutcome(records, nextId, Parsed(first), faults);
    ImportCommitsIff(records, nextId, first, faults);
    RunKeepsIdsNonZero(records, nextId, first, 1, faults);
    var ins := Inserted(first, 1, nextId);
    assert o.records == records + ins;
    assert Codes(o.records)[|records| + j - 1] == second[1][0];
    LookupFindsStoredCode(o.records, second[1][0]);
    assert second[..1] == [second[0]];
    DuplicateRejected(o.records, o.nextId, second, 1, faults');
  }

  /** Two imports in a row, general form: once the first import committed a code, a second
      import carrying that code on any data row never commits, whatever else the second file
      holds and whatever storage failures it meets. */
  lemma SecondImportNeverCommits(records: seq<Record>, nextId: int, first: Grid, j: nat, second: Grid, k: nat, faults: Faults, faults': Faults)
    requires NonZeroIds(records) && nextId > 0
    requires ImportOutcome(records, nextId, Parsed(first), faults).Committed?
    requires 1 <= j < |first| && 1 <= k < |second|
    requires first[j] != [] && second[k] != [] && first[j][0] == second[k][0]
    ensures var o := ImportOutcome(records, nextId, Parsed(first), faults);
      ImportOutcome(o.records, o.nextId, Parsed(second), faults').Failed?
  {
    var o := ImportOutcome(records, nextId, Parsed(first), faults);
    ImportCommitsIff(records, nextId, first, faults);
    RunKeepsIdsNonZero(records, nextId, first, 1, faults);
    var ins := Inserted(first, 1, nextId);
    assert o.records == records + ins;
    assert Codes(o.records)[|records| + j - 1] == second[k][0];
    ImportCommitsIff(o.records, o.nextId, second, faults');
  }

  /** The existence test is the sentinel `existingID != 0`, so a stored record whose id is 0 is
      invisible to it: re-importing its code succeeds and leaves the code twice in the table. */
  lemma ZeroIdMasksDuplicate()
    ensures var l := Location("S1", "Store One", "-6.2", "106.8", "Main Street 1", "Jakarta", "08-22");
      var o := ImportOutcome([Record(0, l)], 1, Parsed([Cells(l), Cells(l)]), NoFaults);
      o == Committed([Record(0, l), Record(1, l)], 2) && !DistinctCodes(o.records)
  {
    var l := Location("S1", "Store One", "-6.2", "106.8", "Main Street 1", "Jakarta", "08-22");
    assert Filled(l);
    var rows := [Cells(l), Cells(l)];
    assert ToLocation(rows[1]) == l;
    assert ExistingId([Record(0, l)], l.code) == 0;
    assert Run([Record(0, l)], 1, rows, 1, NoFaults) == Run([Record(0, l), Record(1, l)], 2, rows, 2, NoFaults);
    var stored := [Record(0, l), Record(1, l)];
    assert stored[0].location.code == stored[1].location.code;
  }
}
