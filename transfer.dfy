/** What the Export CSV button hands to the CSV writer, and the check the Import
    button makes on what the CSV reader returns. */
module Transfer {
  import opened Values
  import opened Columns

  /** An exported object: its keys in order, each with `row[k]` (None is `undefined`). */
  type ExportedRow = seq<(string, Option<Value>)>

  /** `Object.fromEntries(visibleKeys.map(k => [k, row[k]]))` */
  function ExportRow(row: Record, keys: seq<string>): (r: ExportedRow)
    ensures |r| == |keys|
    ensures forall j :: 0 <= j < |keys| ==> r[j] == (keys[j], Get(row, keys[j]))
  {
    if keys == [] then [] else [(keys[0], Get(row, keys[0]))] + ExportRow(row, keys[1..])
  }

  /** `data.map(row => ...)` over the whole dataset. */
  function ExportRows(rows: seq<Record>, reg: Registry): (r: seq<ExportedRow>)
    ensures |r| == |rows|
    ensures forall i :: 0 <= i < |rows| ==> r[i] == ExportRow(rows[i], VisibleKeys(reg))
  {
    if rows == [] then [] else [ExportRow(rows[0], VisibleKeys(reg))] + ExportRows(rows[1..], reg)
  }

  function KeysOf(x: ExportedRow): (r: seq<string>)
    ensures |r| == |x|
    ensures forall i :: 0 <= i < |x| ==> r[i] == x[i].0
  {
    if x == [] then [] else [x[0].0] + KeysOf(x[1..])
  }

  /** An exported object has exactly the given keys, in the given order. */
  lemma {:induction false} ExportRowShape(row: Record, keys: seq<string>)
    ensures KeysOf(ExportRow(row, keys)) == keys
  {
    if keys != [] {
      ExportRowShape(row, keys[1..]);
    }
  }

  /** One exported row per row of the dataset; each has exactly the visible
      keys, in registry order, with the row's own values; a hidden column never
      appears. */
  lemma ExportProjection(rows: seq<Record>, reg: Registry, i: int)
    requires UniqueNames(reg) && 0 <= i < |rows|
    ensures |ExportRows(rows, reg)| == |rows|
    ensures KeysOf(ExportRows(rows, reg)[i]) == VisibleKeys(reg)
    ensures forall j :: 0 <= j < |VisibleKeys(reg)| ==>
              ExportRows(rows, reg)[i][j].1 == Get(rows[i], VisibleKeys(reg)[j])
    ensures forall c :: Lookup(reg, c) == Some(false) ==> c !in KeysOf(ExportRows(rows, reg)[i])
  {
    ExportRowShape(rows[i], VisibleKeys(reg));
    forall c | Lookup(reg, c) == Some(false)
      ensures c !in VisibleKeys(reg)
    {
      VisibleKeysByFlag(reg, c);
    }
  }

  // ---------------------------------------------------------------------------
  // Import

  datatype ImportError =
    | NoRecords      // `result.data[0]` is undefined, so reading `.name` throws
    | InvalidFormat  // the first record's `name` is falsy: "Invalid CSV Format"

  datatype ImportOutcome = Accepted | Rejected(error: ImportError)

  /** The guard in the parser's `complete` callback. Only the first record is
      looked at; the rest are taken as they are. */
  function CheckImport(parsed: seq<Record>): (r: ImportOutcome)
    ensures r == Accepted <==> (|parsed| > 0 && "name" in parsed[0]
                                && parsed[0]["name"] != Text("") && parsed[0]["name"] != Num(0))
    ensures r == Rejected(NoRecords) <==> parsed == []
  {
    if parsed == [] then Rejected(NoRecords)
    else if !Truthy(Get(parsed[0], "name")) then Rejected(InvalidFormat)
    else Accepted
  }
}
