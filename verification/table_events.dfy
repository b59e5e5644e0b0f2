/** The table's handlers as a single event-driven state machine: each user action
    runs to completion and maps one view state to the next. */
module TableEvents {
  import opened GamesTable

  datatype Event =
    | SortRequested(property: Column)
    | PageChanged(newPage: nat)
    | RowsPerPageChanged(size: PageSize)
    | DenseChanged(checked: bool)

  function Step(st: TableState, e: Event): TableState {
    match e
    case SortRequested(property) => RequestSort(st, property)
    case PageChanged(newPage) => ChangePage(st, newPage)
    case RowsPerPageChanged(size) => ChangeRowsPerPage(st, size)
    case DenseChanged(checked) => ChangeDense(st, checked)
  }

  /** The state after handling `events` in order. */
  function Run(st: TableState, events: seq<Event>): TableState
    decreases |events|
  {
    if events == [] then st else Run(Step(st, events[0]), events[1..])
  }

  /** Events that only touch the header or the density. */
  predicate Cosmetic(e: Event) {
    e.SortRequested? || e.DenseChanged?
  }

  /** Sorting and density changes never move the window: after any run of them
      the same games are shown, in the same order, with the same padding. */
  lemma {:induction false} CosmeticRunKeepsRows(games: seq<Game>, st: TableState, events: seq<Event>)
    requires forall i :: 0 <= i < |events| ==> Cosmetic(events[i])
    ensures Run(st, events).page == st.page
    ensures Run(st, events).rowsPerPage == st.rowsPerPage
    ensures Visible(games, Run(st, events)) == Visible(games, st)
    ensures EmptyRows(games, Run(st, events)) == EmptyRows(games, st)
    decreases |events|
  {
    if events != [] {
      var next := Step(st, events[0]);
      assert Cosmetic(events[0]);
      assert next.page == st.page && next.rowsPerPage == st.rowsPerPage;
      assert forall i :: 0 <= i < |events[1..]| ==> Cosmetic(events[1..][i]) by {
        forall i | 0 <= i < |events[1..]|
          ensures Cosmetic(events[1..][i])
        {
          assert events[1..][i] == events[i + 1];
        }
      }
      CosmeticRunKeepsRows(games, next, events[1..]);
    }
  }

  /** Whatever happened before, a page-size change leaves the table on its first
      page with that page size, and a following run of cosmetic events keeps it there. */
  lemma RowsPerPageChangeResetsPage(st: TableState, before: seq<Event>, size: PageSize, after: seq<Event>)
    requires forall i :: 0 <= i < |after| ==> Cosmetic(after[i])
    ensures Run(st, before + [RowsPerPageChanged(size)] + after).page == 0
    ensures Run(st, before + [RowsPerPageChanged(size)] + after).rowsPerPage == size
  {
    var mid := Run(st, before + [RowsPerPageChanged(size)]);
    RunAppend(st, before + [RowsPerPageChanged(size)], after);
    RunAppend(st, before, [RowsPerPageChanged(size)]);
    CosmeticRunKeepsRows([], mid, after);
  }

  /** Handling two batches of events in turn is handling them as one. */
  lemma {:induction false} RunAppend(st: TableState, xs: seq<Event>, ys: seq<Event>)
    ensures Run(st, xs + ys) == Run(Run(st, xs), ys)
    decreases |xs|
  {
    if xs == [] {
      assert xs + ys == ys;
    } else {
      assert (xs + ys)[0] == xs[0];
      assert (xs + ys)[1..] == xs[1..] + ys;
      RunAppend(Step(st, xs[0]), xs[1..], ys);
    }
  }

  /** Repeated clicks on one column alternate its direction. From that column
      active, `k` clicks toggle the order `k` times; from another column, the
      first click selects it ascending and the rest alternate from there. */
  lemma {:induction false} RepeatedSortRequests(st: TableState, property: Column, events: seq<Event>)
    requires |events| > 0
    requires forall i :: 0 <= i < |events| ==> events[i] == SortRequested(property)
    ensures Run(st, events).orderBy == property
    ensures Run(st, events).order ==
      if st.orderBy == property then
        (if |events| % 2 == 0 then st.order else Toggle(st.order))
      else
        (if |events| % 2 == 1 then Asc else Desc)
    decreases |events|
  {
    var next := Step(st, events[0]);
    assert events[0] == SortRequested(property);
    if |events| > 1 {
      assert forall i :: 0 <= i < |events[1..]| ==> events[1..][i] == SortRequested(property) by {
        forall i | 0 <= i < |events[1..]|
          ensures events[1..][i] == SortRequested(property)
        {
          assert events[1..][i] == events[i + 1];
        }
      }
      RepeatedSortRequests(next, property, events[1..]);
    }
  }
}
