/**
 * The DataTable view-model (my-app/components/ui/data-table.tsx): the state
 * the component keeps between renders, the values it derives from that state
 * and its props, and the event handlers that change the state and call back.
 */
module DataTable {
  import opened Wrappers
  import opened Rows
  import opened Sorting
  import opened Paging
  import opened Selection

  /**
   * The props the view-model reads. `None` is an omitted prop; the three
   * flags say whether `onPageChange`, `onPageSizeChange` and
   * `onSelectionChange` were supplied.
   */
  datatype Props = Props(
    rows: seq<Row>,
    page: Option<int>,
    pageSize: Option<int>,
    pageSizeOptions: Option<seq<int>>,
    totalRows: Option<int>,
    onPageChange: bool,
    onPageSizeChange: bool,
    onSelectionChange: bool)

  /** One call of a callback prop, with its argument. */
  datatype Event =
    | PageChanged(page: int)
    | PageSizeChanged(size: int)
    | SelectionChanged(selectedRows: seq<Row>)

  /** `pageSizeOptions`, defaulting to [10, 25, 50] (line 104). */
  function SizeOptions(p: Props): seq<int> {
    p.pageSizeOptions.GetOr([10, 25, 50])
  }

  /** `pageSizeOptions[0] || 10` (line 123): a missing or zero first option falls back to 10. */
  function InitialPageSize(options: seq<int>): (size: int)
    ensures size != 0
    ensures |options| > 0 && options[0] != 0 ==> size == options[0]
    ensures |options| == 0 || options[0] == 0 ==> size == 10
  {
    if |options| > 0 && options[0] != 0 then options[0] else 10
  }

  /** `totalRows ?? rows.length` (line 135). */
  function TotalRowCount(p: Props): int {
    p.totalRows.GetOr(|p.rows|)
  }

  /**
   * Five of the component's six state hooks (lines 121-129); the sixth,
   * `showPageSizeDropdown`, only opens the page-size menu and is not modelled.
   */
  class Table {
    var internalPage: int
    var internalPageSize: int
    var selected: set<int>
    var sortColumn: Option<string>
    var sortDirection: Direction

    /**
     * No sort column means no sort was ever requested, so the direction is
     * still the initial `asc` (lines 128-129): the constructor establishes it
     * and `HandleSort` (lines 160-167), the only handler that sets the two
     * hooks, keeps it. It is a preserved invariant; no other contract relies on it.
     */
    ghost predicate Valid()
      reads this
    {
      sortColumn.None? ==> sortDirection == Asc
    }

    /** The first render: page 0, the initial page size, nothing selected, no sort. */
    constructor (p: Props)
      ensures Valid()
      ensures internalPage == 0
      ensures internalPageSize == InitialPageSize(SizeOptions(p))
      ensures selected == {}
      ensures sortColumn == None && sortDirection == Asc
    {
      internalPage := 0;
      internalPageSize := InitialPageSize(SizeOptions(p));
      selected := {};
      sortColumn := None;
      sortDirection := Asc;
    }

    /** `controlledPage ?? internalPage` (line 133). */
    function CurrentPage(p: Props): int
      reads this
    {
      p.page.GetOr(internalPage)
    }

    /** `controlledPageSize ?? internalPageSize` (line 134). */
    function CurrentPageSize(p: Props): int
      reads this
    {
      p.pageSize.GetOr(internalPageSize)
    }

    /** `sortedRows` (lines 170-184): the rows, reordered by the sort column when there is one. */
    function SortedView(p: Props): (r: seq<Row>)
      reads this
      ensures |r| == |p.rows| && multiset(r) == multiset(p.rows)
      ensures sortColumn.Some? && sortColumn.value != "" ==> Sorted(r, sortColumn.value, sortDirection)
    {
      SortedRows(p.rows, sortColumn, sortDirection)
    }

    /**
     * `paginatedRows` (lines 187-191): the visible rows, all of them input
     * rows, and for a page and size that are not negative at most size rows.
     */
    function PaginatedRows(p: Props): (r: seq<Row>)
      reads this
      ensures multiset(r) <= multiset(p.rows)
      ensures CurrentPage(p) >= 0 && CurrentPageSize(p) >= 0 ==> |r| <= CurrentPageSize(p)
    {
      PageWindowFrom(SortedView(p), CurrentPage(p), CurrentPageSize(p));
      PageRows(SortedView(p), CurrentPage(p), CurrentPageSize(p))
    }

    /**
     * For a page and size that are not negative, the visible rows are the
     * window of the sorted view that starts at page * size, cut at its end.
     */
    lemma VisibleWindow(p: Props)
      requires CurrentPage(p) >= 0 && CurrentPageSize(p) >= 0
      ensures var page, size, view := CurrentPage(p), CurrentPageSize(p), SortedView(p);
        var lo, hi := Min(page * size, |view|), Min(page * size + size, |view|);
        lo <= hi && PaginatedRows(p) == view[lo..hi]
    {
      PageWindow(SortedView(p), CurrentPage(p), CurrentPageSize(p));
    }

    /** `isAllSelected` (lines 223-224): compares sizes, not memberships. */
    predicate IsAllSelected(p: Props)
      reads this
    {
      |PaginatedRows(p)| > 0 && |selected| == |PaginatedRows(p)|
    }

    /**
     * The footer's numbers and button states (lines 334-336, 419, 430). With
     * client-side paging, a positive size and a page that starts within the
     * rows, the label "startRow-endRow" names exactly the visible rows, as
     * 1-based positions in the sorted view.
     */
    function Pagination(p: Props): (info: PageInfo)
      reads this
      ensures p.totalRows.None? && CurrentPageSize(p) > 0 && CurrentPage(p) >= 0
              && CurrentPage(p) * CurrentPageSize(p) < |p.rows| ==>
        && 0 < info.startRow <= info.endRow <= |SortedView(p)|
        && PaginatedRows(p) == SortedView(p)[info.startRow - 1..info.endRow]
    {
      var page, size, view := CurrentPage(p), CurrentPageSize(p), SortedView(p);
      var info := Footer(page, size, TotalRowCount(p));
      if p.totalRows.None? && size > 0 && page >= 0 && page * size < |p.rows| then
        assert info == Footer(page, size, |view|);
        assert PaginatedRows(p) == PageRows(view, page, size);
        FooterDescribesPage(view, page, size);
        info
      else info
    }

    /** `handlePageChange` (lines 138-143): any page is accepted; only an uncontrolled page is stored. */
    method HandlePageChange(p: Props, newPage: int) returns (events: seq<Event>)
      requires Valid()
      modifies this`internalPage
      ensures Valid()
      ensures internalPage == if p.page.None? then newPage else old(internalPage)
      ensures p.page.None? ==> CurrentPage(p) == newPage
      ensures events == if p.onPageChange then [PageChanged(newPage)] else []
    {
      if p.page.None? {
        internalPage := newPage;
      }
      events := if p.onPageChange then [PageChanged(newPage)] else [];
    }

    /**
     * `handlePageSizeChange` (lines 146-157): an uncontrolled size is stored
     * and the internal page goes back to 0; `onPageChange(0)` follows
     * `onPageSizeChange` only when the page is uncontrolled.
     */
    method HandlePageSizeChange(p: Props, newSize: int) returns (events: seq<Event>)
      requires Valid()
      modifies this`internalPage, this`internalPageSize
      ensures Valid()
      ensures p.pageSize.None? ==> internalPageSize == newSize && internalPage == 0
      ensures p.pageSize.Some? ==> internalPageSize == old(internalPageSize) && internalPage == old(internalPage)
      ensures events == (if p.onPageSizeChange then [PageSizeChanged(newSize)] else [])
                      + (if p.page.None? && p.onPageChange then [PageChanged(0)] else [])
      ensures p.page.None? && p.pageSize.None? && newSize >= 0 ==>
        PaginatedRows(p) == SortedView(p)[..Min(newSize, |p.rows|)]
    {
      if p.pageSize.None? {
        internalPageSize := newSize;
        internalPage := 0;
      }
      events := if p.onPageSizeChange then [PageSizeChanged(newSize)] else [];
      if p.page.None? && p.onPageChange {
        events := events + [PageChanged(0)];
      }
      if p.page.None? && p.pageSize.None? && newSize >= 0 {
        PageWindow(SortedView(p), 0, newSize);
      }
    }

    /**
     * `handleSort` (lines 160-167): the current column flips direction, any
     * other column becomes the sort column, ascending.
     */
    method HandleSort(field: string)
      requires Valid()
      modifies this`sortColumn, this`sortDirection
      ensures Valid()
      ensures sortColumn == Some(field)
      ensures old(sortColumn) == Some(field) ==> sortDirection != old(sortDirection)
      ensures old(sortColumn) != Some(field) ==> sortDirection == Asc
    {
      if sortColumn == Some(field) {
        sortDirection := if sortDirection == Asc then Desc else Asc;
      } else {
        sortColumn := Some(field);
        sortDirection := Asc;
      }
    }

    /**
     * `handleRowSelect` (lines 194-209): flips exactly `rowId` and reports the
     * selected rows of the unsorted input, in input order.
     */
    method HandleRowSelect(p: Props, rowId: int) returns (events: seq<Event>)
      requires Valid()
      modifies this`selected
      ensures Valid()
      ensures rowId in selected <==> rowId !in old(selected)
      ensures forall x :: x != rowId ==> (x in selected <==> x in old(selected))
      ensures events == if p.onSelectionChange then [SelectionChanged(SelectedRows(p.rows, selected))] else []
    {
      var newSelected := selected;
      if rowId in newSelected {
        newSelected := newSelected - {rowId};
      } else {
        newSelected := newSelected + {rowId};
      }
      selected := newSelected;
      events := if p.onSelectionChange then [SelectionChanged(SelectedRows(p.rows, newSelected))] else [];
    }

    /**
     * `handleSelectAll` (lines 212-221): when the selection has as many ids
     * as the page has rows it is cleared; otherwise it is replaced by the ids
     * of the visible rows, dropping selections made on other pages.
     */
    method HandleSelectAll(p: Props) returns (events: seq<Event>)
      requires Valid()
      modifies this`selected
      ensures Valid()
      ensures PaginatedRows(p) == old(PaginatedRows(p))
      ensures old(|selected|) == |PaginatedRows(p)| ==>
        selected == {} && events == if p.onSelectionChange then [SelectionChanged([])] else []
      ensures old(|selected|) != |PaginatedRows(p)| ==>
        selected == IdsOf(PaginatedRows(p))
        && events == if p.onSelectionChange then [SelectionChanged(PaginatedRows(p))] else []
      ensures DistinctIds(PaginatedRows(p)) && PaginatedRows(p) != [] ==>
        (IsAllSelected(p) <==> !old(IsAllSelected(p)))
    {
      var visible := PaginatedRows(p);
      if |selected| == |visible| {
        selected := {};
        events := if p.onSelectionChange then [SelectionChanged([])] else [];
      } else {
        selected := IdsOf(visible);
        events := if p.onSelectionChange then [SelectionChanged(visible)] else [];
        if DistinctIds(visible) {
          DistinctIdsCount(visible);
        }
      }
    }
  }
}
