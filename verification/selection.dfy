/**
 * The selection tracker: the id set behind the row checkboxes, the set that
 * "select all" builds from the visible rows (data-table.tsx, line 217) and
 * the rows reported to `onSelectionChange` (lines 204-206).
 */
module Selection {
  import opened Rows

  /** `new Set(rows.map(getRowId))`. */
  function IdsOf(rows: seq<Row>): (ids: set<int>)
    ensures |ids| <= |rows|
    ensures forall i :: 0 <= i < |rows| ==> rows[i].id in ids
    ensures forall x :: x in ids ==> exists i :: 0 <= i < |rows| && rows[i].id == x
  {
    if rows == [] then {}
    else
      assert forall i :: 1 <= i < |rows| ==> rows[i] == rows[1..][i - 1];
      {rows[0].id} + IdsOf(rows[1..])
  }

  /** With distinct ids the set has one id per row. */
  lemma {:induction false} DistinctIdsCount(rows: seq<Row>)
    requires DistinctIds(rows)
    ensures |IdsOf(rows)| == |rows|
  {
    if rows != [] {
      var tail := rows[1..];
      assert DistinctIds(tail) by {
        forall i, j | 0 <= i < j < |tail| ensures tail[i].id != tail[j].id {
          assert tail[i] == rows[i + 1] && tail[j] == rows[j + 1];
        }
      }
      DistinctIdsCount(tail);
      assert rows[0].id !in IdsOf(tail) by {
        forall i | 0 <= i < |tail| ensures tail[i].id != rows[0].id {
          assert tail[i] == rows[i + 1];
        }
      }
    }
  }

  /** `rows.filter(row => selected.has(getRowId(row)))`. */
  function SelectedRows(rows: seq<Row>, selected: set<int>): (r: seq<Row>)
    ensures |r| <= |rows|
    ensures forall i :: 0 <= i < |r| ==> r[i].id in selected && r[i] in rows
    ensures forall i :: 0 <= i < |rows| && rows[i].id in selected ==> rows[i] in r
  {
    if rows == [] then []
    else
      var rest := SelectedRows(rows[1..], selected);
      assert forall i :: 1 <= i < |rows| ==> rows[i] == rows[1..][i - 1];
      if rows[0].id in selected then [rows[0]] + rest else rest
  }

  /** The report keeps the original order: filtering distributes over concatenation. */
  lemma {:induction false} SelectedRowsAppend(a: seq<Row>, b: seq<Row>, selected: set<int>)
    ensures SelectedRows(a + b, selected) == SelectedRows(a, selected) + SelectedRows(b, selected)
  {
    if a == [] {
      assert a + b == b;
    } else {
      assert (a + b)[0] == a[0];
      assert (a + b)[1..] == a[1..] + b;
      SelectedRowsAppend(a[1..], b, selected);
    }
  }

  /** Selecting every id reports every row, in order. */
  lemma {:induction false} SelectedRowsAll(rows: seq<Row>)
    ensures SelectedRows(rows, IdsOf(rows)) == rows
  {
    if rows != [] {
      var tail := rows[1..];
      var all := IdsOf(rows);
      assert all == {rows[0].id} + IdsOf(tail);
      SelectedRowsAll(tail);
      SelectedRowsSuperset(tail, IdsOf(tail), all);
      assert SelectedRows(rows, all) == [rows[0]] + SelectedRows(tail, all);
      assert rows == [rows[0]] + tail;
    }
  }

  /** Selecting no id reports no row. */
  lemma {:induction false} SelectedRowsNone(rows: seq<Row>)
    ensures SelectedRows(rows, {}) == []
  {
    if rows != [] {
      SelectedRowsNone(rows[1..]);
    }
  }

  /** Enlarging the selection by ids that no row carries does not change the report. */
  lemma {:induction false} SelectedRowsSuperset(rows: seq<Row>, small: set<int>, large: set<int>)
    requires small <= large
    requires forall i :: 0 <= i < |rows| && rows[i].id in large ==> rows[i].id in small
    ensures SelectedRows(rows, small) == SelectedRows(rows, large)
  {
    if rows != [] {
      var tail := rows[1..];
      assert forall i :: 0 <= i < |tail| ==> tail[i] == rows[i + 1];
      SelectedRowsSuperset(tail, small, large);
    }
  }
}
