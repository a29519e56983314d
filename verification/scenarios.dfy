/**
 * Sequences of handler calls on one table, worked through from the handlers'
 * contracts alone. They show what the component does where a reader might
 * expect otherwise: "select all" compares counts, and page navigation
 * through the handler accepts any page number, negative ones included.
 */
module Scenarios {
  import opened Wrappers
  import opened Rows
  import opened Paging
  import opened Selection
  import opened DataTable

  function FourRows(): seq<Row> {
    [Row(1, map[]), Row(2, map[]), Row(3, map[]), Row(4, map[])]
  }

  /** Uncontrolled paging with page size 2 (the first option) over rows 1..4, no sort. */
  function TwoPerPage(): Props {
    Props(FourRows(), None, None, Some([2]), None, true, true, true)
  }

  lemma FirstPageIds()
    ensures IdsOf(FourRows()[0..2]) == {1, 2}
    ensures |{1, 2}| == 2
  {
    assert FourRows()[0..2][1..] == [Row(2, map[])];
    assert FourRows()[0..2][1..][1..] == [];
  }

  /** A fresh table over TwoPerPage after "select all" on page 0. */
  method FirstPageSelected() returns (t: Table, p: Props)
    ensures fresh(t) && t.Valid()
    ensures p == TwoPerPage()
    ensures t.sortColumn == None && t.internalPage == 0 && t.internalPageSize == 2
    ensures t.selected == {1, 2} && |t.selected| == 2
  {
    p := TwoPerPage();
    t := new Table(p);
    assert t.internalPageSize == 2;
    assert t.PaginatedRows(p) == FourRows()[0..2] by {
      assert t.CurrentPage(p) == 0 && t.CurrentPageSize(p) == 2;
      assert t.SortedView(p) == FourRows();
      t.VisibleWindow(p);
    }
    FirstPageIds();
    var events := t.HandleSelectAll(p);
  }

  /**
   * Select all on page 0, move to page 1, select all. The second call clears
   * the selection instead of adding rows 3 and 4, because the selection holds
   * as many ids as page 1 has rows; for the same reason the header checkbox
   * of page 1 shows as checked before that call although neither row 3 nor
   * row 4 is selected.
   */
  method SelectAllAcrossPages() returns (first: set<int>, checkedOnSecondPage: bool, second: set<int>)
    ensures first == {1, 2}
    ensures checkedOnSecondPage
    ensures second == {}
  {
    var t, p := FirstPageSelected();
    first := t.selected;
    var events := t.HandlePageChange(p, 1);
    assert |t.PaginatedRows(p)| == 2 by {
      assert t.CurrentPage(p) == 1 && t.CurrentPageSize(p) == 2;
      assert |t.SortedView(p)| == 4;
      t.VisibleWindow(p);
    }
    checkedOnSecondPage := t.IsAllSelected(p);
    events := t.HandleSelectAll(p);
    second := t.selected;
  }

  /**
   * Asking the handler for page -1 stores it and reports it; the visible page
   * is then empty and the previous-page button is enabled.
   */
  method PageBelowZero() returns (events: seq<Event>, visible: seq<Row>, prevDisabled: bool)
    ensures events == [PageChanged(-1)]
    ensures visible == []
    ensures !prevDisabled
  {
    var p := TwoPerPage();
    var t := new Table(p);
    events := t.HandlePageChange(p, -1);
    visible := t.PaginatedRows(p);
    assert visible == Slice(FourRows(), -2, 0);
    prevDisabled := t.Pagination(p).prevDisabled;
  }

  /**
   * Asking for page -2 with two rows per page shows rows 1 and 2, counted
   * back from the end of the four rows as `slice(-4, -2)` does, while the
   * previous-page button stays enabled.
   */
  method PageMinusTwo() returns (visible: seq<Row>, prevDisabled: bool)
    ensures visible == FourRows()[..2]
    ensures !prevDisabled
  {
    var p := TwoPerPage();
    var t := new Table(p);
    var events := t.HandlePageChange(p, -2);
    visible := t.PaginatedRows(p);
    assert visible == FourRows()[..2] by {
      assert t.CurrentPage(p) == -2 && t.CurrentPageSize(p) == 2;
      assert t.SortedView(p) == FourRows();
      NegativePages(FourRows(), -2, 2);
    }
    prevDisabled := t.Pagination(p).prevDisabled;
  }
}
