/** The worksheet the export writes: a fixed header row, then one row per record. */
module ExcelExport {
  import opened StoreLocations

  /** Row 1 of the exported sheet, columns A..G. */
  const Header: seq<string> := ["Code", "Name", "Latitude", "Longitude", "Address", "City", "Operation Hour"]

  /** `sheet` has the header in (1-based) row 1 and record k in row k + 2, columns A..G =
      code..operation hour, and nothing else; the id is not written. */
  predicate LaidOut(sheet: Grid, records: seq<Record>)
  {
    && |sheet| == 1 + |records|
    && sheet[0] == Header
    && forall k :: 0 <= k < |records| ==> sheet[k + 1] == Cells(records[k].location)
  }

  /** The sheet for `records` in query order, built the way the cursor loop builds it: start
      from the header, append one row per record. */
  function ExportSheet(records: seq<Record>): (sheet: Grid)
    ensures LaidOut(sheet, records)
  {
    if records == [] then [Header]
    else ExportSheet(records[..|records| - 1]) + [Cells(records[|records| - 1].location)]
  }

  /** Failures decided by the database and the writer: the query errors; the cursor stops
      early after `breakAt` records (its error is never inspected); scanning record k errors;
      writing the file to the response errors. */
  datatype ExportFaults = ExportFaults(
    queryFails: bool,
    cursorBreaks: bool,
    breakAt: nat,
    scanFails: set<nat>,
    writeFails: bool)

  /** The records the cursor yields before `Next` reports the end. */
  function Delivered(records: seq<Record>, faults: ExportFaults): (rs: seq<Record>)
    ensures rs <= records
    ensures |rs| < |records| <==> faults.cursorBreaks && faults.breakAt < |records|
  {
    if faults.cursorBreaks && faults.breakAt < |records| then records[..faults.breakAt] else records
  }

  /** The handler's response: the sheet as a download, or a 500 error. */
  datatype Download = File(sheet: Grid) | ServerError
}
