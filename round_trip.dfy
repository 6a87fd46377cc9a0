/** Export followed by import: what the two handlers promise together. */
module RoundTrip {
  import opened StoreLocations
  import opened ExcelImport
  import opened ExcelExport

  /** Re-importing an exported table into a table without zero ids succeeds exactly when every
      exported record has all seven fields filled, the exported codes are distinct and none of
      them is stored already; the new table then holds the exported locations in export order,
      with ids handed out from `nextId` (the exported ids are not carried over). */
  lemma ExportThenImport(store: seq<Record>, nextId: int, records: seq<Record>)
    requires NonZeroIds(store) && nextId > 0
    ensures var o := ImportOutcome(store, nextId, Parsed(ExportSheet(records)), NoFaults);
      o.Committed? <==>
        && (forall k :: 0 <= k < |records| ==> Filled(records[k].location))
        && DistinctCodes(records)
        && (forall k :: 0 <= k < |records| ==> records[k].location.code !in Codes(store))
    ensures var o := ImportOutcome(store, nextId, Parsed(ExportSheet(records)), NoFaults);
      o.Committed? ==>
        && |o.records| == |store| + |records|
        && o.records[..|store|] == store
        && forall k :: 0 <= k < |records| ==>
             o.records[|store| + k] == Record(nextId + k, records[k].location)
  {
    ImportLaidOut(store, nextId, ExportSheet(records), records);
  }

  /** The same, for any sheet laid out as the export lays it out. */
  lemma ImportLaidOut(store: seq<Record>, nextId: int, sheet: Grid, records: seq<Record>)
    requires NonZeroIds(store) && nextId > 0
    requires LaidOut(sheet, records)
    ensures var o := ImportOutcome(store, nextId, Parsed(sheet), NoFaults);
      o.Committed? <==>
        && (forall k :: 0 <= k < |records| ==> Filled(records[k].location))
        && DistinctCodes(records)
        && (forall k :: 0 <= k < |records| ==> records[k].location.code !in Codes(store))
    ensures var o := ImportOutcome(store, nextId, Parsed(sheet), NoFaults);
      o.Committed? ==>
        && |o.records| == |store| + |records|
        && o.records[..|store|] == store
        && forall k :: 0 <= k < |records| ==>
             o.records[|store| + k] == Record(nextId + k, records[k].location)
  {
    ImportCommitsIff(store, nextId, sheet, NoFaults);
    LaidOutRowsPass(sheet, records);
    if forall k :: 0 <= k < |records| ==> Filled(records[k].location) {
      LaidOutCodesNew(store, sheet, records);
      LaidOutCodesDistinct(sheet, records);
      var o := ImportOutcome(store, nextId, Parsed(sheet), NoFaults);
      if o.Committed? {
        forall k | 0 <= k < |records|
          ensures o.records[|store| + k] == Record(nextId + k, records[k].location)
        {
          assert ToLocation(sheet[k + 1]) == records[k].location;
        }
      }
    }
  }

  /** The data rows pass the empty-cell and length checks exactly when every record is filled. */
  lemma LaidOutRowsPass(sheet: Grid, records: seq<Record>)
    requires LaidOut(sheet, records)
    ensures RowsPass(sheet, 1, NoFaults) <==> forall k :: 0 <= k < |records| ==> Filled(records[k].location)
  {
    if forall k :: 0 <= k < |records| ==> Filled(records[k].location) {
      forall k | 1 <= k < |sheet| ensures WellFormed(sheet[k]) {
        assert sheet[k] == Cells(records[k - 1].location);
        FilledIffNoEmptyCell(records[k - 1].location);
      }
    }
    if RowsPass(sheet, 1, NoFaults) {
      forall k | 0 <= k < |records| ensures Filled(records[k].location) {
        assert WellFormed(sheet[k + 1]);
        FilledIffNoEmptyCell(records[k].location);
      }
    }
  }

  /** With every record filled, no exported code is stored exactly when no record's code is. */
  lemma LaidOutCodesNew(store: seq<Record>, sheet: Grid, records: seq<Record>)
    requires LaidOut(sheet, records)
    requires forall k :: 0 <= k < |records| ==> Filled(records[k].location)
    ensures RowsPass(sheet, 1, NoFaults)
    ensures RowsNew(store, sheet, 1) <==> forall k :: 0 <= k < |records| ==> records[k].location.code !in Codes(store)
  {
    LaidOutRowsPass(sheet, records);
    if RowsNew(store, sheet, 1) {
      forall k | 0 <= k < |records| ensures records[k].location.code !in Codes(store) {
        assert sheet[k + 1][0] !in Codes(store);
      }
    }
    if forall k :: 0 <= k < |records| ==> records[k].location.code !in Codes(store) {
      forall k | 1 <= k < |sheet| ensures sheet[k][0] !in Codes(store) {
        assert sheet[k] == Cells(records[k - 1].location);
        FilledIffNoEmptyCell(records[k - 1].location);
      }
    }
  }

  /** With every record filled, the exported codes are distinct exactly when the records' are. */
  lemma LaidOutCodesDistinct(sheet: Grid, records: seq<Record>)
    requires LaidOut(sheet, records)
    requires forall k :: 0 <= k < |records| ==> Filled(records[k].location)
    ensures RowsPass(sheet, 1, NoFaults)
    ensures RowsDistinct(sheet, 1) <==> DistinctCodes(records)
  {
    LaidOutRowsPass(sheet, records);
    if RowsDistinct(sheet, 1) {
      forall a, b | 0 <= a < b < |records|
        ensures records[a].location.code != records[b].location.code
      {
        assert sheet[a + 1][0] != sheet[b + 1][0];
      }
    }
    if DistinctCodes(records) {
      forall j, k | 1 <= j < k < |sheet| ensures sheet[j][0] != sheet[k][0] {
        assert sheet[j] == Cells(records[j - 1].location);
        assert sheet[k] == Cells(records[k - 1].location);
        FilledIffNoEmptyCell(records[k - 1].location);
      }
    }
  }

  /** Exporting an empty table gives the header row alone; importing that changes nothing. */
  lemma EmptyExportImportsNothing(store: seq<Record>, nextId: int)
    ensures ExportSheet([]) == [Header]
    ensures ImportOutcome(store, nextId, Parsed(ExportSheet([])), NoFaults) == Committed(store, nextId)
  {
  }
}
