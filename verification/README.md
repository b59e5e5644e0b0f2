# GamesTable view-state model

A Dafny model of the logic inside the `GamesTable` component of the board-game
browser (`src/components/GamesTable.tsx`). The component renders a paginated
table of board games with clickable sort headers, a pager and a density switch.
Its only logic is a small view-state controller and two derived values:

- **View state** (`GamesTable.TableState`): `page`, `rowsPerPage`, `dense`,
  `order` (`Asc`/`Desc`) and `orderBy` (one of the six header columns). It starts
  at page 0, 5 rows per page, not dense, ascending by title (`GamesTable.Initial`).
- **Handlers**, each one a total, synchronous state-to-state function:
  `RequestSort` (a sort-label click), `ChangePage`, `ChangeRowsPerPage` (which
  also returns to page 0) and `ChangeDense`. `TableEvents` strings them together
  as an event-driven state machine (`Step`, `Run`).
- **Visible rows** (`GamesTable.Visible`):
  `games.slice(page*rowsPerPage, page*rowsPerPage + rowsPerPage)`. `Js.Slice`
  models `Array.prototype.slice` as ECMAScript defines it: relative indices,
  negative ones counting from the end, all clamped to the array.
- **Padding** (`GamesTable.EmptyRows`): the height, counted in rows, of the single
  blank row that pads a later page, `max(0, (1+page)*rowsPerPage - n)` when
  `page > 0`, else 0. The blank row is drawn only when this is positive.
- **Header** (`GamesTable.HeadCells`, `LabelFor`): six columns. The label of the
  sorted column is active and shows the order. Every other label shows ascending.

The sort state is shown in the header but never applied to the rows. The rows
are cut from `games` in the order the caller supplied. The model does the same
and proves it (`RowsIgnoreSortState`, `TableEvents.CosmeticRunKeepsRows`).
`page` is not reset when `games` changes, so the window can start past the end
of the list. It is then empty and padded by more than a page
(`EmptyRowsPadsLastPage`).

`Paging` is an independent reference for pagination, defined element by element
with recursive `Take`, `Drop`, `PageOf` and `Pages`. The lemmas prove that the
table's window is exactly page `page` of that reference. They also prove that
walking the pages shows every game exactly once, in input order.

## Model

| member | source | states |
|---|---|---|
| `Js.Slice` | src/components/GamesTable.tsx:146-149 | the slice has `max(0, end' - start')` elements, the clamped relative bounds, and element `i` is `s[start' + i]` |
| `Js.SliceOfNonNegative` | src/components/GamesTable.tsx:146-149 | with non-negative ordered bounds, as the table passes them, the slice is the clamped sub-sequence `s[min(start,n)..min(end,n)]` |
| `GamesTable.CellIndex` | src/components/GamesTable.tsx:28-65 | every sortable column has exactly one header cell, and only the title cell is non-numeric |
| `GamesTable.InitialView` | src/components/GamesTable.tsx:113-117 | a fresh table is on page 0 with 5 rows, not dense, shows the first five games unpadded, and marks title ascending |
| `GamesTable.ExactlyOneActiveLabel` | src/components/GamesTable.tsx:91-95 | exactly one header label is active, the one for `orderBy`, and it shows the current order |
| `GamesTable.RequestSort` | src/components/GamesTable.tsx:119-126 | the clicked column becomes `orderBy`; the order is descending exactly when that column was active and ascending; paging and density are unchanged |
| `GamesTable.RequestSortOnActiveToggles` | src/components/GamesTable.tsx:123-125 | a click on the active column flips its direction (ascending to descending and descending to ascending) and keeps the column |
| `GamesTable.RequestSortOnOtherSelectsAscending` | src/components/GamesTable.tsx:123-125 | a click on any other column selects it in ascending order |
| `GamesTable.RequestSortTwice` | src/components/GamesTable.tsx:123-125 | two clicks on the active column return to the starting sort state; two clicks on another column leave it selected descending |
| `GamesTable.ChangePage` | src/components/GamesTable.tsx:128-130 | the page becomes the pager's new page and no other field changes |
| `GamesTable.ChangeRowsPerPage` | src/components/GamesTable.tsx:132-137 | the page size becomes the chosen option, the page resets to 0, and sort and density are unchanged |
| `GamesTable.ChangeRowsPerPageShowsFirstPage` | src/components/GamesTable.tsx:132-149 | after a page-size change the table shows the first `size` games and no padding |
| `GamesTable.ChangeDense` | src/components/GamesTable.tsx:139-141 | the density flag becomes the switch's value and no other field changes |
| `GamesTable.Visible` | src/components/GamesTable.tsx:146-149 | the window holds `min(rowsPerPage, max(0, n - page*rowsPerPage))` games, and its row `i` is `games[page*rowsPerPage + i]`, in input order |
| `GamesTable.VisibleEmptyIff` | src/components/GamesTable.tsx:146-149 | the window is empty exactly when the page starts at or past the end of `games` |
| `GamesTable.RowsIgnoreSortState` | src/components/GamesTable.tsx:146-149 | changing `order` or `orderBy` changes neither the rows shown nor the padding |
| `GamesTable.VisibleIsPage` | src/components/GamesTable.tsx:146-149 | the window equals page `page` of `games` in the independent recursive paging reference |
| `GamesTable.PagingShowsEveryGame` | src/components/GamesTable.tsx:146-149 | once enough pages cover `n`, the pages shown for 0 .. count-1, laid end to end, are exactly `games` |
| `GamesTable.GameOnItsPage` | src/components/GamesTable.tsx:146-149 | game `i` appears on page `i / rowsPerPage` at row `i % rowsPerPage` |
| `GamesTable.EmptyRows` | src/components/GamesTable.tsx:143-144 | the padding is 0 on page 0; on a later page starting within `games` it plus the visible row count is `rowsPerPage`; past the end it exceeds `rowsPerPage` |
| `GamesTable.LabelFor` | src/components/GamesTable.tsx:94-95 | a column's sort label is active exactly when it is `orderBy`, and shows descending exactly when it is active and the order is descending |
| `GamesTable.EmptyRowsPadsLastPage` | src/components/GamesTable.tsx:143-149 | page 0 is never padded. On a later page starting within `games`, padding plus visible rows equals `rowsPerPage`. A page past the end shows nothing and is padded by more than a page |
| `TableEvents.CosmeticRunKeepsRows` | src/components/GamesTable.tsx:119-149 | any run of sort clicks and density changes keeps the page, the page size, the rows shown and the padding |
| `TableEvents.RowsPerPageChangeResetsPage` | src/components/GamesTable.tsx:132-137 | after any history, a page-size change puts the table on page 0 with that size, and later cosmetic events keep it there |
| `TableEvents.RepeatedSortRequests` | src/components/GamesTable.tsx:119-126 | `k` clicks on one column leave it selected. From that column active, they flip the order `k` times. From another column, the order is ascending when `k` is odd and descending when it is even |

## Left out

- JSX rendering and the component library (table, sort label, pager, switch), cell alignment, the screen-reader text of the sort label and the 33/53-pixel row heights. These are layout over a library that is not part of this model.
- The `console.log` of the visible rows (line 151). It is debug output with no effect on state.
- `parseInt` of the page-size event (line 135). The new size is an option from {5, 10, 25} (line 191), the `PageSize` subset type, and no strings are parsed.
- React `useState`, re-rendering and event objects. Each handler is a pure state-to-state function, and `TableEvents.Run` applies them in order.
- The page the pager emits is taken as a non-negative integer. The pager's own bounds on it are library code and are not modelled.
- The board-game type lives in `src/types/types`, which is not part of this model. `Game` carries only the six displayed fields.
- Sorting. The component defines no comparator and never reorders `games`, so the model has no sort step.
- JavaScript numbers are doubles. The model uses unbounded integers, which agree at table scale.
