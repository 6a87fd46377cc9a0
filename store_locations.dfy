/** The `store_locations` table and the worksheet it is exchanged as. */
module StoreLocations {

  /** The seven text columns of a store location, in worksheet column order A..G.
      Latitude and longitude stay text: neither handler converts them. */
  datatype Location = Location(
    code: string,
    name: string,
    latitude: string,
    longitude: string,
    address: string,
    city: string,
    operationHour: string)

  /** A persisted row: a location plus the numeric id the database assigned it. */
  datatype Record = Record(id: int, location: Location)

  /** A worksheet as the spreadsheet library hands it over: rows of text cells, possibly ragged. */
  type Grid = seq<seq<string>>

  /** Number of columns both handlers address (A..G). */
  const Columns: nat := 7

  /** The cells of one worksheet row holding `l`, columns A..G. */
  function Cells(l: Location): (row: seq<string>)
    ensures |row| == Columns
  {
    [l.code, l.name, l.latitude, l.longitude, l.address, l.city, l.operationHour]
  }

  /** Positional reading of a row: columns 0..6 are the seven fields; later columns are ignored. */
  function ToLocation(row: seq<string>): (l: Location)
    requires |row| >= Columns
    ensures Cells(l) == row[..Columns]
  {
    Location(row[0], row[1], row[2], row[3], row[4], row[5], row[6])
  }

  predicate HasEmptyCell(row: seq<string>)
  {
    exists c :: 0 <= c < |row| && row[c] == ""
  }

  /** Every field of `l` is non-empty. */
  predicate Filled(l: Location)
  {
    l.code != "" && l.name != "" && l.latitude != "" && l.longitude != ""
    && l.address != "" && l.city != "" && l.operationHour != ""
  }

  /** A location is filled exactly when its worksheet row has no empty cell. */
  lemma FilledIffNoEmptyCell(l: Location)
    ensures Filled(l) <==> !HasEmptyCell(Cells(l))
  {
    var row := Cells(l);
    assert row[0] == l.code && row[1] == l.name && row[2] == l.latitude && row[3] == l.longitude;
    assert row[4] == l.address && row[5] == l.city && row[6] == l.operationHour;
  }

  /** The business keys of a table, in table order. */
  function Codes(view: seq<Record>): seq<string>
  {
    seq(|view|, k requires 0 <= k < |view| => view[k].location.code)
  }

  /** The intended invariant of the table: no code occurs twice. */
  predicate DistinctCodes(view: seq<Record>)
  {
    forall a, b :: 0 <= a < b < |view| ==> view[a].location.code != view[b].location.code
  }

  /** No record carries the id 0 that the existence check reads as "absent". */
  predicate NonZeroIds(view: seq<Record>)
  {
    forall k :: 0 <= k < |view| ==> view[k].id != 0
  }

  /** What `SELECT id ... WHERE code = ?` scans into a freshly declared Go `int`: the id of the
      first record with that code, or the zero value when no record matches. */
  function ExistingId(view: seq<Record>, code: string): (id: int)
    ensures id != 0 ==> code in Codes(view)
  {
    if view == [] then 0
    else
      assert Codes(view) == [view[0].location.code] + Codes(view[1..]);
      if view[0].location.code == code then view[0].id
      else ExistingId(view[1..], code)
  }

  /** With no zero ids in the table, the sentinel test `ExistingId != 0` finds every stored code. */
  lemma {:induction false} LookupFindsStoredCode(view: seq<Record>, code: string)
    requires NonZeroIds(view)
    ensures ExistingId(view, code) != 0 <==> code in Codes(view)
  {
    if view != [] {
      assert Codes(view) == [view[0].location.code] + Codes(view[1..]);
      if view[0].location.code != code {
        LookupFindsStoredCode(view[1..], code);
      }
    }
  }

  /** Appending one record appends its code. */
  lemma CodesAppend(view: seq<Record>, r: Record)
    ensures Codes(view + [r]) == Codes(view) + [r.location.code]
  {
  }
}
