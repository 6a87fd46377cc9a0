/** The two request handlers over one database handle. */
module Handlers {
  import opened StoreLocations
  import opened ExcelImport
  import opened ExcelExport

  /** The `store_locations` table as the handlers see it through the shared handle, with the
      auto-increment counter that hands out the id of the next inserted row. */
  class Database {
    var records: seq<Record>
    var nextId: int

    constructor (records: seq<Record>, nextId: int)
      ensures this.records == records && this.nextId == nextId
    {
      this.records := records;
      this.nextId := nextId;
    }

    /** Import the upload in one transaction. The transaction works on its own copy of the
        table; reaching the end publishes it (commit). Every other return leaves the table as
        it was: an explicit rollback, except for a short row, where the source's index panics
        before any rollback and nothing is committed. */
    method Import(upload: Upload, faults: Faults) returns (reply: Reply)
      modifies this
      ensures reply == ReplyTo(ImportOutcome(old(records), old(nextId), upload, faults))
      ensures ImportOutcome(old(records), old(nextId), upload, faults).Committed? ==>
        records == ImportOutcome(old(records), old(nextId), upload, faults).records
        && nextId == ImportOutcome(old(records), old(nextId), upload, faults).nextId
      ensures ImportOutcome(old(records), old(nextId), upload, faults).Failed? ==>
        records == old(records) && nextId == old(nextId)
    {
      if upload.NoFile? {
        return Rejected(MissingFile);
      }
      if upload.Unreadable? {
        return Rejected(UnreadableFile);
      }
      var rows := upload.rows;
      if faults.beginFails {
        return Rejected(StorageError);
      }
      var view, next := records, nextId;
      var i := 0;
      while i < |rows|
        invariant 0 <= i <= |rows|
        invariant records == old(records) && nextId == old(nextId)
        invariant Run(records, nextId, rows, 1, faults) == Run(view, next, rows, if i == 0 then 1 else i, faults)
      {
        if i != 0 {
          var row := rows[i];
          var c := 0;
          while c < |row|
            invariant 0 <= c <= |row|
            invariant forall d :: 0 <= d < c ==> row[d] != ""
          {
            if row[c] == "" {
              return Rejected(EmptyField(i + 1));
            }
            c := c + 1;
          }
          if |row| < Columns {
            return Rejected(ShortRow(i + 1));
          }
          var code := row[0];
          if i in faults.lookupFails {
            return Rejected(StorageError);
          }
          var existingId := ExistingId(view, code);
          if existingId != 0 {
            return Rejected(DuplicateCode(code));
          }
          if i in faults.insertFails {
            return Rejected(StorageError);
          }
          view := view + [Record(next, ToLocation(row))];
          next := next + 1;
        }
        i := i + 1;
      }
      if faults.commitFails {
        return Rejected(StorageError);
      }
      records, nextId := view, next;
      reply := Imported;
    }

    /** Export the table: the header, then one row per record the cursor yields, in query
        order. A query, scan or write error yields no file. */
    method Export(faults: ExportFaults) returns (d: Download)
      ensures d.File? <==>
        && !faults.queryFails && !faults.writeFails
        && forall k :: k in faults.scanFails ==> k >= |Delivered(records, faults)|
      ensures d.File? ==> d.sheet == ExportSheet(Delivered(records, faults))
    {
      if faults.queryFails {
        return ServerError;
      }
      var cursor := Delivered(records, faults);
      var sheet := [Header];
      var rowIndex := 2;
      var k := 0;
      while k < |cursor|
        invariant 0 <= k <= |cursor|
        invariant rowIndex == k + 2 && |sheet| == rowIndex - 1
        invariant sheet == ExportSheet(cursor[..k])
        invariant forall m :: 0 <= m < k ==> m !in faults.scanFails
      {
        if k in faults.scanFails {
          return ServerError;
        }
        var location := cursor[k].location;
        assert cursor[..k + 1][..k] == cursor[..k];
        sheet := sheet + [Cells(location)];
        rowIndex := rowIndex + 1;
        k := k + 1;
      }
      assert cursor[..k] == cursor;
      if faults.writeFails {
        return ServerError;
      }
      return File(sheet);
    }
  }
}
