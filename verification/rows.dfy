/**
 * The table's input records. A row is opaque to the table except for its
 * identity (`row.id`, the default `getRowId`) and the cells it is sorted by.
 */
module Rows {
  import opened Wrappers

  /** A record: its `id` field and its other fields, each holding a sort key. */
  datatype Row = Row(id: int, cells: map<string, int>)

  /**
   * `row[field]`: the `id` field reads the identity, any other field reads
   * the cell; a field the row does not have is `undefined` (None).
   */
  function Cell(r: Row, field: string): Option<int> {
    if field == "id" then Some(r.id)
    else if field in r.cells then Some(r.cells[field])
    else None
  }

  /** Caller precondition of the table: no two rows share an id. */
  predicate DistinctIds(rows: seq<Row>) {
    forall i, j :: 0 <= i < j < |rows| ==> rows[i].id != rows[j].id
  }
}
