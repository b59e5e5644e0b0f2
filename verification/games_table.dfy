/** The view state of the board-game table and the handlers that change it:
    which column the header marks as sorted and in which direction, which page
    is shown, how many rows a page holds, and whether rows are drawn dense.
    From that state and the list of games the table derives the rows it shows
    and the height, in rows, of the one blank row that pads a later page.

    The sort state only drives the header's sort labels: the rows are cut from
    `games` in the order the caller supplied, whatever the sort state says. */
module GamesTable {
  import opened Js
  import Paging

  /** One board game, with the six fields a row displays. */
  datatype Game = Game(
    title: string,
    minPlayers: int,
    maxPlayers: int,
    minPlayTime: int,
    maxPlayTime: int,
    rating: real)

  /** The fields a header cell can sort on. */
  datatype Column = Title | MinPlayers | MaxPlayers | MinPlayTime | MaxPlayTime | Rating

  datatype Order = Asc | Desc

  datatype HeadCell = HeadCell(id: Column, numeric: bool, disablePadding: bool, caption: string)

  /** The header, left to right. */
  const HeadCells: seq<HeadCell> := [
    HeadCell(Title, false, false, "Title"),
    HeadCell(MinPlayers, true, false, "Min Players"),
    HeadCell(MaxPlayers, true, false, "Max Players"),
    HeadCell(MinPlayTime, true, false, "Min Play Time"),
    HeadCell(MaxPlayTime, true, false, "Max Play Time"),
    HeadCell(Rating, true, false, "Rating")
  ]

  /** The page sizes the pager offers. */
  type PageSize = n: nat | n == 5 || n == 10 || n == 25 witness 5

  const RowsPerPageOptions: seq<PageSize> := [5, 10, 25]

  datatype TableState = TableState(
    page: nat,
    rowsPerPage: PageSize,
    dense: bool,
    order: Order,
    orderBy: Column)

  /** The state a freshly mounted table starts in. */
  const Initial: TableState := TableState(0, 5, false, Asc, Title)

  function Toggle(o: Order): Order {
    if o == Asc then Desc else Asc
  }

  /** The position of column `c` in the header: every column has exactly one cell,
      and only text columns are left-aligned (non-numeric). */
  function CellIndex(c: Column): (i: nat)
    ensures i < |HeadCells| && HeadCells[i].id == c
    ensures forall j :: 0 <= j < |HeadCells| && HeadCells[j].id == c ==> j == i
    ensures HeadCells[i].numeric <==> c != Title
  {
    match c
    case Title => 0
    case MinPlayers => 1
    case MaxPlayers => 2
    case MinPlayTime => 3
    case MaxPlayTime => 4
    case Rating => 5
  }

  // ---------------------------------------------------------------- handlers

  /** A click on the sort label of column `property`. The active column, while
      ascending, turns descending; every other click selects `property`
      ascending. Paging and density are not touched. */
  function RequestSort(st: TableState, property: Column): (r: TableState)
    ensures r.orderBy == property
    ensures r.order == Desc <==> st.orderBy == property && st.order == Asc
    ensures r.page == st.page && r.rowsPerPage == st.rowsPerPage && r.dense == st.dense
  {
    var isAsc := st.orderBy == property && st.order == Asc;
    st.(order := if isAsc then Desc else Asc, orderBy := property)
  }

  /** The pager moved to page `newPage`; nothing else changes. */
  function ChangePage(st: TableState, newPage: nat): (r: TableState)
    ensures r.page == newPage
    ensures r.(page := st.page) == st
  {
    st.(page := newPage)
  }

  /** A new page size was picked; the table goes back to the first page. */
  function ChangeRowsPerPage(st: TableState, size: PageSize): (r: TableState)
    ensures r.rowsPerPage == size && r.page == 0
    ensures r.order == st.order && r.orderBy == st.orderBy && r.dense == st.dense
  {
    st.(rowsPerPage := size, page := 0)
  }

  /** The density switch was set to `checked`; nothing else changes. */
  function ChangeDense(st: TableState, checked: bool): (r: TableState)
    ensures r.dense == checked
    ensures r.(dense := st.dense) == st
  {
    st.(dense := checked)
  }

  // ------------------------------------------------------------- derivations

  /** Index of the first row of the current page. */
  function PageStart(st: TableState): nat {
    st.page * st.rowsPerPage
  }

  /** The rows shown: `games.slice(page*rowsPerPage, page*rowsPerPage + rowsPerPage)`.
      They are a contiguous run of `games` in input order, starting at the page's
      first row, as many as the page holds or as remain. */
  function Visible(games: seq<Game>, st: TableState): (r: seq<Game>)
    ensures |r| == Min(st.rowsPerPage, Max(0, |games| - PageStart(st)))
    ensures forall i :: 0 <= i < |r| ==> r[i] == games[PageStart(st) + i]
  {
    Slice(games, PageStart(st), PageStart(st) + st.rowsPerPage)
  }

  /** The height, counted in rows, of the single blank row that pads a later page,
      so that the last page keeps the height of a full one. The first page is never
      padded; a page past the end of `games` is padded by more than a page. */
  function EmptyRows(games: seq<Game>, st: TableState): (e: nat)
    ensures st.page == 0 ==> e == 0
    ensures st.page > 0 && PageStart(st) <= |games| ==> e + |Visible(games, st)| == st.rowsPerPage
    ensures st.page > 0 && PageStart(st) > |games| ==> e > st.rowsPerPage
  {
    assert (1 + st.page) * st.rowsPerPage == PageStart(st) + st.rowsPerPage;
    if st.page > 0 then Max(0, (1 + st.page) * st.rowsPerPage - |games|) else 0
  }

  /** How the header draws column `c`'s sort label: active only on the sorted
      column; the direction shown is the sort order there and ascending elsewhere. */
  datatype SortLabel = SortLabel(active: bool, direction: Order)

  function LabelFor(st: TableState, c: Column): (l: SortLabel)
    ensures l.active <==> c == st.orderBy
    ensures l.direction == Desc <==> c == st.orderBy && st.order == Desc
  {
    if st.orderBy == c then SortLabel(true, st.order) else SortLabel(false, Asc)
  }

  // ------------------------------------------------------------------ lemmas

  /** A fresh table shows the first five games, unpadded, and marks the title
      column as sorted ascending. */
  lemma InitialView(games: seq<Game>)
    ensures Initial.page == 0 && Initial.rowsPerPage == 5 && !Initial.dense
    ensures Visible(games, Initial) == games[..Min(5, |games|)]
    ensures EmptyRows(games, Initial) == 0
    ensures LabelFor(Initial, Title) == SortLabel(true, Asc)
  {
  }

  /** Exactly one header cell shows an active sort label, the one for `orderBy`,
      and it shows the current order. */
  lemma ExactlyOneActiveLabel(st: TableState)
    ensures LabelFor(st, HeadCells[CellIndex(st.orderBy)].id) == SortLabel(true, st.order)
    ensures forall i :: 0 <= i < |HeadCells| && LabelFor(st, HeadCells[i].id).active
              ==> i == CellIndex(st.orderBy)
  {
  }

  /** Clicking the active column toggles its direction and keeps the column. */
  lemma RequestSortOnActiveToggles(st: TableState)
    ensures RequestSort(st, st.orderBy) == st.(order := Toggle(st.order))
  {
  }

  /** Clicking another column selects it, ascending. */
  lemma RequestSortOnOtherSelectsAscending(st: TableState, property: Column)
    requires property != st.orderBy
    ensures RequestSort(st, property) == st.(order := Asc, orderBy := property)
  {
  }

  /** Two clicks on the same column lead back to the starting sort state when that
      column was already active, and to that column descending when it was not. */
  lemma RequestSortTwice(st: TableState, property: Column)
    ensures st.orderBy == property ==> RequestSort(RequestSort(st, property), property) == st
    ensures st.orderBy != property ==>
      RequestSort(RequestSort(st, property), property) == st.(order := Desc, orderBy := property)
  {
  }

  /** The sort state has no effect on the rows shown or on the padding. */
  lemma RowsIgnoreSortState(games: seq<Game>, st: TableState, order: Order, orderBy: Column)
    ensures Visible(games, st.(order := order, orderBy := orderBy)) == Visible(games, st)
    ensures EmptyRows(games, st.(order := order, orderBy := orderBy)) == EmptyRows(games, st)
  {
  }

  /** After a page-size change the table shows the first `size` games. */
  lemma ChangeRowsPerPageShowsFirstPage(games: seq<Game>, st: TableState, size: PageSize)
    ensures Visible(games, ChangeRowsPerPage(st, size)) == games[..Min(size, |games|)]
    ensures EmptyRows(games, ChangeRowsPerPage(st, size)) == 0
  {
  }

  /** The rows shown are page `page` of `games` cut into pages of `rowsPerPage`. */
  lemma VisibleIsPage(games: seq<Game>, st: TableState)
    ensures Visible(games, st) == Paging.PageOf(games, st.rowsPerPage, st.page)
  {
    Paging.PageOfIsWindow(games, st.rowsPerPage, st.page);
    SliceOfNonNegative(games, PageStart(st), PageStart(st) + st.rowsPerPage);
  }

  /** Paging through the table from page 0 shows every game exactly once, in input
      order: pages 0 .. count-1 laid end to end are `games`, once they hold all rows. */
  lemma PagingShowsEveryGame(games: seq<Game>, st: TableState, count: nat)
    requires count * st.rowsPerPage >= |games|
    ensures Paging.Pages(games, st.rowsPerPage, count) == games
    ensures forall p :: 0 <= p < count ==>
              Visible(games, ChangePage(st, p)) == Paging.PageOf(games, st.rowsPerPage, p)
  {
    Paging.PagesCoverAll(games, st.rowsPerPage, count);
    forall p | 0 <= p < count
      ensures Visible(games, ChangePage(st, p)) == Paging.PageOf(games, st.rowsPerPage, p)
    {
      VisibleIsPage(games, ChangePage(st, p));
    }
  }

  /** Game `i` appears on page `i / rowsPerPage`, at row `i % rowsPerPage`. */
  lemma GameOnItsPage(games: seq<Game>, st: TableState, i: nat)
    requires i < |games|
    ensures i % st.rowsPerPage < |Visible(games, ChangePage(st, i / st.rowsPerPage))|
    ensures Visible(games, ChangePage(st, i / st.rowsPerPage))[i % st.rowsPerPage] == games[i]
  {
    VisibleIsPage(games, ChangePage(st, i / st.rowsPerPage));
    Paging.ElementOnItsPage(games, st.rowsPerPage, i);
  }

  /** The padding is never negative and the first page is never padded. On a later
      page that starts within `games` the padding tops the shown rows up to a full
      page; a page past the end is padded by more than a page's height. */
  lemma EmptyRowsPadsLastPage(games: seq<Game>, st: TableState)
    ensures st.page == 0 ==> EmptyRows(games, st) == 0
    ensures st.page > 0 && PageStart(st) <= |games| ==>
              EmptyRows(games, st) + |Visible(games, st)| == st.rowsPerPage
    ensures st.page > 0 && PageStart(st) > |games| ==>
              Visible(games, st) == [] && EmptyRows(games, st) > st.rowsPerPage
  {
    assert (1 + st.page) * st.rowsPerPage == PageStart(st) + st.rowsPerPage;
  }

  /** The window is empty exactly when the page starts at or past the last game. */
  lemma VisibleEmptyIff(games: seq<Game>, st: TableState)
    ensures Visible(games, st) == [] <==> PageStart(st) >= |games|
  {
    assert st.rowsPerPage > 0;
    if PageStart(st) < |games| {
      assert |Visible(games, st)| > 0;
    }
  }
}
