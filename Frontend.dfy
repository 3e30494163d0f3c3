/**
 * The state of the `App` component (frontend/src/App.js) and the handlers
 * that change it: the debounced fetch, its two outcomes, and the three
 * kinds of page navigation. Each React setter call becomes a field update.
 */
module Frontend {
  import opened Wrappers
  import Pagination

  /** The fixed text set when a fetch fails. */
  const FetchErrorMessage: string := "Failed to load chess players. Please try again later."

  /**
   * The request a fetch issues to `/api/players`: it carries a `query`
   * parameter only when the search text is non-empty.
   */
  datatype Request = Request(query: Option<string>)

  /** The search text the server receives (an absent parameter means the empty filter). */
  function QueryOf(r: Request): string
  {
    match r.query
    case None => ""
    case Some(q) => q
  }

  /** The request `fetchPlayers` builds from the search text it captured. */
  function RequestFor(searchQuery: string): (r: Request)
    ensures r.query.Some? <==> searchQuery != ""
    ensures QueryOf(r) == searchQuery
  {
    if searchQuery == "" then Request(None) else Request(Some(searchQuery))
  }

  class App<T> {
    var players: seq<T>
    var searchQuery: string
    var loading: bool
    var error: Option<string>
    var currentPage: int
    /** The query captured by the armed debounce timer; None when none is pending. */
    var pendingTimer: Option<string>

    /** A pending timer always belongs to the latest search text. */
    ghost predicate Valid()
      reads this
    {
      pendingTimer.Some? ==> pendingTimer.value == searchQuery
    }

    /** The page is 1 or has a page button. */
    predicate PageInRange()
      reads this
    {
      currentPage == 1 || Pagination.IsPageNumber(TotalPages(), currentPage)
    }

    function TotalPages(): nat
      reads this
    {
      Pagination.TotalPages(|players|)
    }

    function CurrentPlayers(): seq<T>
      reads this
    {
      Pagination.CurrentPlayers(players, currentPage)
    }

    /** In a reachable state with players, the grid shows at least one of them, starting at the page's first position. */
    lemma VisiblePageNonEmpty()
      requires PageInRange() && |players| > 0
      ensures |CurrentPlayers()| > 0
      ensures CurrentPlayers()[0] == players[(currentPage - 1) * Pagination.PlayersPerPage]
    {
      Pagination.PageIsNonEmpty(players, currentPage);
    }

    /** The first render: initial state, and the effect arms a timer for the empty query. */
    constructor ()
      ensures Valid() && PageInRange()
      ensures players == [] && searchQuery == "" && loading && error == None && currentPage == 1
      ensures pendingTimer == Some("")
    {
      players := [];
      searchQuery := "";
      loading := true;
      error := None;
      currentPage := 1;
      pendingTimer := Some("");
    }

    /**
     * The input's `onChange`: the search text becomes `q`. When it differs
     * from the previous text the effect re-runs, cancelling the pending
     * timer before arming a new one for `q` (the one slot is overwritten,
     * so the old timer can no longer fire); an identical value does not
     * re-render, so the pending timer stays as it was.
     */
    method OnQueryChange(q: string)
      requires Valid()
      modifies this
      ensures Valid()
      ensures searchQuery == q
      ensures pendingTimer == if q == old(searchQuery) then old(pendingTimer) else Some(q)
      ensures pendingTimer.Some? ==> pendingTimer.value == q
      ensures players == old(players) && loading == old(loading) && error == old(error)
      ensures currentPage == old(currentPage)
    {
      if q != searchQuery {
        searchQuery := q;
        pendingTimer := Some(q);
      }
    }

    /**
     * The debounce timer fires: `fetchPlayers` sets loading and issues the
     * request for the query it captured, which is the latest search text.
     * With no armed timer nothing happens.
     */
    method TimerFires() returns (request: Option<Request>)
      requires Valid()
      modifies this
      ensures Valid()
      ensures pendingTimer == None
      ensures request == if old(pendingTimer).Some? then Some(RequestFor(searchQuery)) else None
      ensures loading == (old(loading) || old(pendingTimer).Some?)
      ensures players == old(players) && searchQuery == old(searchQuery) && error == old(error)
      ensures currentPage == old(currentPage)
    {
      match pendingTimer
      case None =>
        request := None;
      case Some(q) =>
        pendingTimer := None;
        loading := true;
        request := Some(RequestFor(q));
    }

    /** The try block succeeded: the list is replaced and the page reset, then loading is cleared. */
    method FetchSucceeded(data: seq<T>)
      requires Valid()
      modifies this
      ensures Valid() && PageInRange()
      ensures players == data && currentPage == 1 && error == None && !loading
      ensures searchQuery == old(searchQuery) && pendingTimer == old(pendingTimer)
    {
      players := data;
      currentPage := 1;
      error := None;
      loading := false;
    }

    /** The catch block ran: the fixed message is shown, then loading is cleared. */
    method FetchFailed()
      requires Valid()
      modifies this
      ensures Valid()
      ensures old(PageInRange()) ==> PageInRange()
      ensures error == Some(FetchErrorMessage) && !loading
      ensures players == old(players) && currentPage == old(currentPage)
      ensures searchQuery == old(searchQuery) && pendingTimer == old(pendingTimer)
    {
      error := Some(FetchErrorMessage);
      loading := false;
    }

    /** `goToPreviousPage`: one page back, only from a page after the first. */
    method GoToPreviousPage()
      requires Valid()
      modifies this
      ensures Valid()
      ensures currentPage == if Pagination.CanGoPrevious(old(currentPage)) then old(currentPage) - 1 else old(currentPage)
      ensures old(currentPage) >= 1 ==> currentPage >= 1
      ensures old(PageInRange()) ==> PageInRange()
      ensures players == old(players) && searchQuery == old(searchQuery) && loading == old(loading)
      ensures error == old(error) && pendingTimer == old(pendingTimer)
    {
      if Pagination.CanGoPrevious(currentPage) {
        currentPage := currentPage - 1;
      }
    }

    /** `goToNextPage`: one page forward, only from a page before the last. */
    method GoToNextPage()
      requires Valid()
      modifies this
      ensures Valid()
      ensures currentPage == if Pagination.CanGoNext(old(currentPage), TotalPages()) then old(currentPage) + 1 else old(currentPage)
      ensures old(currentPage) <= TotalPages() ==> currentPage <= TotalPages()
      ensures old(PageInRange()) ==> PageInRange()
      ensures players == old(players) && searchQuery == old(searchQuery) && loading == old(loading)
      ensures error == old(error) && pendingTimer == old(pendingTimer)
    {
      if Pagination.CanGoNext(currentPage, TotalPages()) {
        currentPage := currentPage + 1;
      }
    }

    /**
     * `paginate(pageNumber)`: the page becomes `pageNumber` unchecked; it
     * stays in range exactly when a page button (or page 1) was chosen.
     */
    method Paginate(pageNumber: int)
      requires Valid()
      modifies this
      ensures Valid()
      ensures currentPage == pageNumber
      ensures PageInRange() <==> (pageNumber == 1 || Pagination.IsPageNumber(TotalPages(), pageNumber))
      ensures players == old(players) && searchQuery == old(searchQuery) && loading == old(loading)
      ensures error == old(error) && pendingTimer == old(pendingTimer)
    {
      currentPage := pageNumber;
    }
  }

  /**
   * Debounce as a client sees it: after three changes of the search text
   * the pending timer fires once, with the last text, and a second firing
   * issues nothing.
   */
  method TypeThreeThenFire<T>(q1: string, q2: string, q3: string) returns (first: Option<Request>, second: Option<Request>)
    ensures first == Some(RequestFor(q3))
    ensures second == None
  {
    var app := new App<T>();
    app.OnQueryChange(q1);
    app.OnQueryChange(q2);
    app.OnQueryChange(q3);
    first := app.TimerFires();
    second := app.TimerFires();
  }
}
