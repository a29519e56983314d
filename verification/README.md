# DataTable view-model in Dafny

This project models the view-model of the `DataTable` component of an Expo /
React Native starter template (`my-app/components/ui/data-table.tsx`): the
state the component keeps between renders, the rows it derives from that
state and its props, and the event handlers behind its checkboxes, sortable
headers, page-size menu and page buttons.

- `Rows` (rows.dfy): a row is its `id` (the default `getRowId`) and a map
  from field names to integer sort keys; `Cell` reads `row[field]`, with
  `None` for a missing field.
- `Sorting` (sorting.dfy): the comparator handed to `Array.prototype.sort`
  and a stable insertion sort driven by it, then `SortedRows`, which is
  `sortedRows`. The lemmas prove the output ordered by the comparator,
  null/undefined keys last in both directions, keys ascending for `asc` and
  descending for `desc`, and a permutation of the input. They also prove it
  stable: each key class keeps its input order. Finally they prove it unique:
  any ordered, stable rearrangement equals it. That is what ECMAScript
  requires of `sort`, so this is the order the component gets.
- `Paging` (paging.dfy): `slice` with JavaScript's index rules, the page
  slice `paginatedRows`, `Math.ceil(total / size)` (a `PageCount` that is
  infinite or NaN when the size is 0), `startRow`, `endRow` and the two
  buttons' `disabled` flags, with lemmas tying the footer to the slice.
- `Selection` (selection.dfy): the id set built by "select all" and the
  rows reported to `onSelectionChange`.
- `DataTable` (data_table.dfy): `Props` (the props the view-model reads),
  `Event` (one callback call), and class `Table`. Its five fields are five of
  the six state hooks (`internalPage`, `internalPageSize`, `selectedRows`,
  `sortColumn`, `sortDirection`); the sixth, `showPageSizeDropdown`, is left
  out. Its functions are the derived values and its methods the handlers;
  each handler that calls back returns the calls it makes, in order, and each
  handler's `modifies` clause names the hooks it sets.
- `Scenarios` (scenarios.dfy): three sequences of handler calls worked out from
  the handlers' contracts.

Props change from render to render while the state persists, so every
handler and derived value takes the current `Props` as a parameter. A prop
left out is `None`. A callback left out produces no `Event`, like `?.()`.
Values are immutable in Dafny, so `sortedRows` building on a copy and never
changing `rows` holds by construction.

Some behaviours of the code are easy to miss:
- "Select all" compares the number of selected ids with the number of visible
  rows; it does not check which ids are selected. It replaces or clears the
  whole selection, so after "select all" on page 0, "select all" on page 1
  empties the selection (`Scenarios.SelectAllAcrossPages`).
- The page slice is taken even when `totalRows` is given, so with server-side
  rows (only the current page passed in `rows`) every page after the first
  shows nothing.
- The handlers accept any page number, including negative ones and pages past
  the end. Only the buttons' `disabled` flags guard navigation, and the
  previous-page button is enabled on a negative page. Page -1 is empty
  (`Scenarios.PageBelowZero`); a page below -1 follows `slice`'s negative
  indices: it shows the window that starts -page*size rows back from the end,
  cut at row 0, so it holds `size` rows when the list has at least -page*size
  rows and fewer, possibly none, otherwise (`Paging.NegativePages`,
  `Scenarios.PageMinusTwo`).
- A page-size change with a controlled page size still emits `onPageChange(0)`
  when the page is uncontrolled. With an uncontrolled page size and a
  controlled page, it resets the internal page but emits no `onPageChange`.

## Model

| member | source | states |
|---|---|---|
| `Rows.Cell` | my-app/components/ui/data-table.tsx:174-175 | definition: `row[field]`, `None` for a missing field; the field `id` reads the row's id, as the default `getRowId` does |
| `Sorting.Compare` | my-app/components/ui/data-table.tsx:173-183 | the comparator is 0 exactly on equal keys; a null/undefined key compares after any other key in both directions; two present keys compare by `<`, reversed for `desc` |
| `Sorting.CompareAntisymmetric` | my-app/components/ui/data-table.tsx:177-182 | swapping the comparator's arguments negates it; with `Sorting.InOrderTransitive` this makes it a consistent comparator |
| `Sorting.InOrderTransitive` | my-app/components/ui/data-table.tsx:177-182 | the order the comparator allows (`compare(a, b) <= 0`) is transitive, null/undefined keys included |
| `Sorting.Insert` | my-app/components/ui/data-table.tsx:173 | one insertion step of the stable sort adds exactly one row and keeps the others |
| `Sorting.SortRows` | my-app/components/ui/data-table.tsx:173 | the sorted copy is a permutation of the rows |
| `Sorting.SortedRows` | my-app/components/ui/data-table.tsx:170-184 | with no sort column or the empty one (`!sortColumn`), the rows as given; otherwise a permutation of them ordered by the comparator |
| `Sorting.InsertSorted` | my-app/components/ui/data-table.tsx:173-183 | inserting into an ordered sequence keeps it ordered |
| `Sorting.SortRowsSorted` | my-app/components/ui/data-table.tsx:173-183 | the sort's output is ordered by the comparator |
| `Sorting.InsertStable` | my-app/components/ui/data-table.tsx:173 | an inserted row goes before every row with an equal key and leaves other key classes alone |
| `Sorting.SortRowsStable` | my-app/components/ui/data-table.tsx:173 | stability: for every key, the rows with that key appear in the output in their input order |
| `Sorting.SortedKeyOrder` | my-app/components/ui/data-table.tsx:177-182 | in the output, null/undefined keys come after all present keys; present keys ascend for `asc` and descend for `desc` |
| `Sorting.SortedIsUnique` | my-app/components/ui/data-table.tsx:173 | two sequences ordered by the comparator with the same key classes are equal |
| `Sorting.SortRowsIsTheStableSort` | my-app/components/ui/data-table.tsx:173 | any ordered, stable rearrangement of the rows equals the model's sort, so a conforming `Array.prototype.sort` gives this order |
| `Paging.PageRows` | my-app/components/ui/data-table.tsx:187-191 | every row on a page is a row of the input; its exact window is proved in `Paging.PageWindow` |
| `Paging.Slice` | my-app/components/ui/data-table.tsx:190 | `slice` returns some of the rows of its input, never more |
| `Paging.PageWindow` | my-app/components/ui/data-table.tsx:187-191 | for page ≥ 0 and size ≥ 0 the page is `sorted[page*size .. min(page*size+size, n))`, empty past the end, at most `size` rows |
| `Paging.RowOnItsPage` | my-app/components/ui/data-table.tsx:187-191 | with a positive size, row i is at position i % size of page i / size: paging loses no row |
| `Paging.PageShowsOnlyItsRows` | my-app/components/ui/data-table.tsx:187-191 | slot k of page q ≥ 0 shows row q*size+k, whose page is q and position k: no row appears on a page other than its own |
| `Paging.NegativePages` | my-app/components/ui/data-table.tsx:187-191 | page -1 is empty; a page below -1 shows the window starting -page*size rows back from the end, cut at row 0: all `size` rows when the list holds at least -page*size rows, fewer (possibly none) otherwise, as `slice` does with negative indices |
| `Paging.CeilDiv` | my-app/components/ui/data-table.tsx:334 | the result is the ceiling of a / b for either sign of b |
| `Paging.TotalPages` | my-app/components/ui/data-table.tsx:334 | a finite page count exactly when the size is not 0; for a positive size, enough pages for all rows and one fewer would not do |
| `Paging.PageCountCoversRows` | my-app/components/ui/data-table.tsx:334 | for a positive size, `totalPages` is the least page count whose pages hold all `total` rows |
| `Paging.NextDisabled` | my-app/components/ui/data-table.tsx:430 | definition of `currentPage >= totalPages - 1` with JavaScript's comparisons against infinities and NaN; its meaning is proved in `Paging.Footer` and `Paging.ButtonsStayInRange` |
| `Paging.Footer` | my-app/components/ui/data-table.tsx:334-336 | prev is disabled exactly on page 0; for a positive size next is disabled exactly when no row lies past the page; on a page that starts before `total`, "startRow-endRow" counts min(size, rows left) rows |
| `Paging.FooterDescribesPage` | my-app/components/ui/data-table.tsx:335-336 | on a non-empty page without `totalRows`, "startRow-endRow" are the 1-based positions of exactly the rows shown |
| `Paging.InRangePagesAreNonEmpty` | my-app/components/ui/data-table.tsx:187-191 | a page in [0, totalPages) shows rows, a page at or past totalPages shows none |
| `Paging.ButtonsStayInRange` | my-app/components/ui/data-table.tsx:417-437 | from a page in range, an enabled prev or next button leads to a page in range; next is disabled exactly on the last page |
| `Selection.IdsOf` | my-app/components/ui/data-table.tsx:217 | the set of the rows' ids: every row's id, nothing else, at most one per row |
| `Selection.DistinctIdsCount` | my-app/components/ui/data-table.tsx:217 | with distinct ids the set has exactly one id per row |
| `Selection.SelectedRows` | my-app/components/ui/data-table.tsx:204-206 | the report holds exactly the rows whose id is selected |
| `Selection.SelectedRowsAppend` | my-app/components/ui/data-table.tsx:204-206 | the report keeps the input order (filtering distributes over concatenation) |
| `Selection.SelectedRowsAll` | my-app/components/ui/data-table.tsx:204-206 | selecting every row's id reports all rows in order |
| `Selection.SelectedRowsNone` | my-app/components/ui/data-table.tsx:204-206 | an empty selection reports no rows |
| `DataTable.SizeOptions` | my-app/components/ui/data-table.tsx:104 | definition: the options prop, or [10, 25, 50] when it is omitted |
| `DataTable.InitialPageSize` | my-app/components/ui/data-table.tsx:122-124 | the initial page size is the first option unless it is missing or 0, then 10; never 0 |
| `DataTable.Table.constructor` | my-app/components/ui/data-table.tsx:121-129 | initial state: page 0, the initial page size, empty selection, no sort column, direction `asc` |
| `DataTable.TotalRowCount` | my-app/components/ui/data-table.tsx:135 | definition: `totalRows`, or the number of rows when it is absent |
| `DataTable.Table.CurrentPage` | my-app/components/ui/data-table.tsx:133 | definition: the controlled page if given, else the internal one; `HandlePageChange` proves an uncontrolled page follows the handler |
| `DataTable.Table.CurrentPageSize` | my-app/components/ui/data-table.tsx:134 | definition: the controlled size if given, else the internal one; `HandlePageSizeChange` proves what the view shows after a size change |
| `DataTable.Table.SortedView` | my-app/components/ui/data-table.tsx:170-184 | the view is a permutation of the rows, ordered by the comparator whenever a sort column is set |
| `DataTable.Table.PaginatedRows` | my-app/components/ui/data-table.tsx:187-191 | every visible row is an input row; with page and size ≥ 0, at most `size` rows |
| `DataTable.Table.VisibleWindow` | my-app/components/ui/data-table.tsx:187-191 | with page and size ≥ 0, the visible rows are exactly the window of the sorted view from page*size to page*size+size, cut at its end |
| `DataTable.Table.IsAllSelected` | my-app/components/ui/data-table.tsx:223-224 | definition (sizes, not ids, are compared); `HandleSelectAll` proves it flips on a page with distinct ids |
| `DataTable.Table.Pagination` | my-app/components/ui/data-table.tsx:334-336 | with client-side paging and a page starting within the rows, the visible rows are exactly positions startRow..endRow of the sorted view |
| `DataTable.Table.HandlePageChange` | my-app/components/ui/data-table.tsx:138-143 | stores the page only when uncontrolled, then it is the current page; always reports `onPageChange(newPage)`; nothing else changes |
| `DataTable.Table.HandlePageSizeChange` | my-app/components/ui/data-table.tsx:146-157 | when the size is uncontrolled, stores it and resets the internal page to 0; reports `onPageSizeChange(size)` and then `onPageChange(0)` only for an uncontrolled page; with both uncontrolled the view becomes the first `size` sorted rows |
| `DataTable.Table.HandleSort` | my-app/components/ui/data-table.tsx:160-167 | the sort column becomes the field, so it never returns to none; the same field flips the direction, another field sets `asc` |
| `DataTable.Table.HandleRowSelect` | my-app/components/ui/data-table.tsx:194-209 | flips membership of exactly the given id; reports the selected rows of the unsorted input |
| `DataTable.Table.HandleSelectAll` | my-app/components/ui/data-table.tsx:212-224 | clears the selection and reports `[]` when its size equals the page's row count, else replaces it by the page's ids and reports the page; with distinct ids on a non-empty page it flips `isAllSelected` |
| `Scenarios.SelectAllAcrossPages` | my-app/components/ui/data-table.tsx:212-224 | with 2 rows per page: select-all on page 0 gives {1, 2}; on page 1 the header shows checked and select-all clears the selection |
| `Scenarios.PageBelowZero` | my-app/components/ui/data-table.tsx:138-143 | asking for page -1 is accepted and reported, shows no rows, and leaves prev enabled |
| `Scenarios.PageMinusTwo` | my-app/components/ui/data-table.tsx:187-191 | with 2 rows per page, page -2 shows rows 1 and 2 of four, and prev stays enabled |

## Left out

- Rendering: the JSX, icons, class strings, striping, the loading branch, the
  empty message, `renderCell`, and the page-size menu's `showPageSizeDropdown`
  hook (also closed by `handlePageSizeChange`). These are presentation.
- `onRowClick`: pressing a row calls it with the row and touches no state.
  It is part of the rendering and is not modelled.
- Column widths (`totalFixedWidth`, `flexUnit`, per-column width): floating-point
  percentage strings, not modelled.
- A custom `getRowId`: the model always uses the default, `row.id`. Ids are
  integers, and string ids are not modelled.
- Sort keys are integers or missing. JavaScript's loose `<` on strings and on
  mixed types, and NaN keys, are not modelled. `null` and `undefined` are one
  value (`None`). The real comparator returns 1 for both (undefined, null) and
  (null, undefined), which is inconsistent; that case is not modelled.
- Page numbers, sizes and `totalRows` are integers. Fractional numbers and NaN
  are not modelled. A `null` prop (which the TypeScript types exclude) is not
  modelled either; `??` and `=== undefined` would treat it differently.
- React's scheduling: each handler call is applied before the next one. State
  updates batched within one render, and handlers taken from an older render,
  are not modelled. `useMemo` only caches, so it does not appear.
- `Array.prototype.sort` is modelled by an insertion sort.
  `Sorting.SortRowsIsTheStableSort` shows that every stable sort gives the same
  result, so the choice of algorithm does not matter.
- Distinct row ids are a caller precondition. The model assumes it only where a
  contract needs it (`DistinctIds`). Duplicate ids are not defended against.
- The other files of the repository are not part of this model. Their logic is
  platform I/O (permission requests, network status), modal presentation and
  geometry (dialog, sheet, drawer, select), or thin delegation (checkbox,
  switch, the error boundary's resets), or styling, theme, icons, navigation
  config and screens.
