# Chess players of India: pagination state machine and table scraper

This project models the two parts of the chess-player browser that hold
logic of their own, and proves properties of the model in Dafny.

- **The browser client** (`frontend/src/App.js`). The `App` component keeps
  the fetched `players`, the `searchQuery`, a `loading` flag, an `error`
  message and the `currentPage`, with a fixed page size of 20. A change of
  the search text cancels the pending debounce timer and arms a new one.
  When the timer fires, a request goes to `/api/players`, with a `query`
  parameter only for a non-empty search text. A successful response
  replaces the list and goes back to page 1. A failed one shows a fixed
  error message. The visible page, the number of pages, the list of page
  buttons and the "Showing a-b of n" range are all derived from the state.
  `Pagination` holds the pure page arithmetic (including the semantics of
  JavaScript's `Array.prototype.slice`) and the `getPageNumbers` loop.
  `Frontend.App` is a class whose fields are the component's state and
  whose methods are its handlers.
- **The scraper's row loop** (`chess_val.py`, `scrape_chess_ratings`). It
  skips the header row and every row with fewer than six cells. It turns
  each remaining row into a record: rank, rating and birth year are read
  with Python's `int` from cells 0, 4 and 5, and name, title and federation
  are the texts of cells 1 to 3. `IntText` models `int` on a stripped text
  as a partial function. `Scraper.ScrapeChessRatings` is the loop. It is
  proved equal to the function `ExtractRecords`, and the lemmas relate
  that function to a filter-then-map description.

A failed fetch leaves the previous players on screen; it does not
clear them. After a failure, the grid is empty exactly when the previous
players were empty: before any fetch has succeeded, or after one that
returned no players.

## Model

| member | source | states |
|---|---|---|
| `Pagination.IndexOfLastPlayer` | frontend/src/App.js:45 | defines one past the last shown position as page*20; what it selects is proved in CurrentPlayersIsPageSlice |
| `Pagination.IndexOfFirstPlayer` | frontend/src/App.js:46 | defines the first shown position as the last index minus 20; what it selects is proved in CurrentPlayersIsPageSlice |
| `Pagination.Slice` | frontend/src/App.js:47 | defines `Array.prototype.slice`: both arguments clamped to the list, negative ones counted from the end, empty when the end is not after the start |
| `Pagination.SliceCountsFromEnd` | frontend/src/App.js:47 | a negative slice argument counts back from the end: for 0 < k <= n, slice(-k, n) is the last k elements, and an argument below -n acts as 0 |
| `Pagination.CurrentPlayers` | frontend/src/App.js:47 | defines the visible players as the slice between the two indices; proved equal to the page's positions in CurrentPlayersIsPageSlice |
| `Pagination.TotalPages` | frontend/src/App.js:48 | the page count is the ceiling of n/20: n <= pages*20 < n+20, and it is 0 exactly when there are no players |
| `Pagination.CurrentPlayersIsPageSlice` | frontend/src/App.js:45-47 | on a page p >= 1 the visible players are players[min((p-1)*20, n) .. min(p*20, n)], at most 20 of them |
| `Pagination.PageIsNonEmpty` | frontend/src/App.js:45-48 | every page 1..totalPages shows at least one player, starting with player (p-1)*20 |
| `Pagination.ConcatPagesIsPrefix` | frontend/src/App.js:45-47 | pages 1..k put one after another are the first min(k*20, n) players, in order |
| `Pagination.PagesConcatenateToPlayers` | frontend/src/App.js:45-48 | the pages 1..totalPages put one after another give back the whole player list |
| `Pagination.GetPageNumbers` | frontend/src/App.js:54-60 | the loop returns exactly [1, ..., totalPages]: that length, strictly increasing, and holding exactly the valid page numbers |
| `Pagination.ShowingFrom` | frontend/src/App.js:144 | defines the first number of "Showing a-b" as the first index plus one; related to the page in ShowingRangeMatchesPage |
| `Pagination.ShowingTo` | frontend/src/App.js:144 | defines the second number of "Showing a-b" as the smaller of the last index and n; related to the page in ShowingRangeMatchesPage |
| `Pagination.PreviousDisabled` | frontend/src/App.js:114 | defines when Previous is disabled: on page 1 |
| `Pagination.NextDisabled` | frontend/src/App.js:134 | defines when Next is disabled: on page totalPages |
| `Pagination.CanGoPrevious` | frontend/src/App.js:64 | defines the guard of goToPreviousPage, used by the handler and by DisabledExactlyWhenGuardFails |
| `Pagination.CanGoNext` | frontend/src/App.js:70 | defines the guard of goToNextPage, used by the handler and by DisabledExactlyWhenGuardFails |
| `Pagination.ShowingRangeMatchesPage` | frontend/src/App.js:144 | on a valid page, "Showing a-b of n" has 1 <= a <= b <= n, b-a+1 visible players, and visible player i is player a-1+i |
| `Pagination.DisabledExactlyWhenGuardFails` | frontend/src/App.js:114-134 | on a valid page, Previous is disabled exactly when goToPreviousPage would do nothing, and Next exactly when goToNextPage would do nothing |
| `Pagination.FortyFivePlayers` | frontend/src/App.js:45-48 | with 45 players there are 3 pages and page 3 shows players 41-45 |
| `Frontend.RequestFor` | frontend/src/App.js:17-20 | the request has a query parameter exactly when the search text is non-empty, and the server reads back the same search text |
| `Frontend.App.constructor` | frontend/src/App.js:6-11 | the first render: no players, empty query, loading, no error, page 1, and a timer armed for the empty query |
| `Frontend.App.OnQueryChange` | frontend/src/App.js:39-42 | the input handler at App.js:83 sets the text; a new search text cancels the pending timer and arms one for that text; the same text changes nothing; any pending timer holds the latest text |
| `Frontend.App.TimerFires` | frontend/src/App.js:14-21 | an armed timer sets loading and issues the request for the latest search text, leaving no timer pending; with none armed nothing happens |
| `Frontend.App.FetchSucceeded` | frontend/src/App.js:27-35 | players become the response data, the page becomes 1, the error is cleared and loading is off; timer and query are unchanged |
| `Frontend.App.FetchFailed` | frontend/src/App.js:31-35 | the error becomes the fixed message and loading is off; players, page, query and timer are unchanged |
| `Frontend.App.GoToPreviousPage` | frontend/src/App.js:63-67 | the page goes down by one only from above 1, otherwise nothing changes; it never goes below 1 and keeps the page in range |
| `Frontend.App.GoToNextPage` | frontend/src/App.js:69-73 | the page goes up by one only from below totalPages, otherwise nothing changes; it never passes totalPages and keeps the page in range |
| `Frontend.App.Paginate` | frontend/src/App.js:51 | the page becomes the number given, unchecked; the result is in range exactly when that number is 1 or a page button's number |
| `Frontend.App.VisiblePageNonEmpty` | frontend/src/App.js:45-48 | in a state whose page is in range and that holds players, the grid shows at least one player, the one at the page's first position |
| `Frontend.TypeThreeThenFire` | frontend/src/App.js:39-42 | after three changes of the search text, the timer issues exactly one request, for the last text, and firing again issues nothing |
| `IntText.ParseInt` | chess_val.py:35-40 | `int` accepts only a non-empty text of digits and underscores after an optional sign, and a negative result only from a text that starts with a minus sign |
| `IntText.ParseIntOfIntToString` | chess_val.py:35 | `int` reads back every integer written in decimal: int(str(n)) == n, with no digit limit (see Left out) |
| `IntText.ParseIntRejectsForeignCharacter` | chess_val.py:35 | a text with any character other than digits, underscores and a leading sign makes `int` raise |
| `IntText.ParseIntRejectsMalformed` | chess_val.py:35 | an empty text, a lone sign, an underscore at the start, right after the sign or at the end, and a doubled underscore make `int` raise |
| `IntText.ParseIntAcceptsDigits` | chess_val.py:35 | every well-formed digit part (digits, single underscores between digits) is accepted and read as its decimal value |
| `IntText.ParseIntAcceptsSign` | chess_val.py:35 | a leading '+' before a digit part changes nothing, and a leading '-' gives the negated value |
| `IntText.ParseIntAcceptsLeadingZero` | chess_val.py:35 | a leading zero before a digit part is accepted and does not change the value |
| `IntText.ParseIntIgnoresUnderscore` | chess_val.py:35 | inserting one underscore between two digits neither changes whether `int` accepts the text nor its value |
| `Scraper.RowToRecord` | chess_val.py:34-41 | defines the dict literal built from a qualifying row, with the `int` calls in order 0, 4, 5; characterised by RowToRecordAgrees and ExtraCellsIgnored |
| `Scraper.ExtractRecords` | chess_val.py:28-42 | defines the loop's outcome row by row; related to filter-then-map by ExtractIsFilterThenMap and to concatenation by ExtractAppend |
| `Scraper.ScrapeChessRatings` | chess_val.py:25-44 | the loop's result is ExtractRecords over the rows after the header |
| `Scraper.FailureIsFinal` | chess_val.py:35-40 | once a row has raised, the scrape ends with that error whatever rows follow |
| `Scraper.Qualifying` | chess_val.py:29-31 | the kept rows all have at least six cells and are no more than the rows given |
| `Scraper.QualifyingMembers` | chess_val.py:29-31 | a row is kept exactly when it is one of the rows and has at least six cells |
| `Scraper.Records` | chess_val.py:34-42 | one record per qualifying row, record i built from row i |
| `Scraper.RowToRecordAgrees` | chess_val.py:34-41 | a row yields a record exactly when cells 0, 4 and 5 are integers; otherwise the error names the first of them, in the order 0, 4, 5, that is not |
| `Scraper.ExtractIsFilterThenMap` | chess_val.py:26-44 | the scrape succeeds exactly when every row with six cells parses, and then yields one record per such row, in order |
| `Scraper.ExtractedFields` | chess_val.py:34-40 | on success the count is the number of qualifying rows; record i has name, title and federation from cells 1-3 and rank, rating and birth year parsed from cells 0, 4, 5 |
| `Scraper.ExtractFailsAtFirstBadRow` | chess_val.py:35-40 | on failure the error names a rejected cell of the first qualifying row that does not parse; all qualifying rows before it parse |
| `Scraper.ExtractAppend` | chess_val.py:28-42 | records keep the order of their rows: the scrape of a + b is that of a followed by that of b, with a's error first |
| `Scraper.ShortRowIsSkipped` | chess_val.py:29-31 | inserting a row with fewer than six cells anywhere changes nothing |
| `Scraper.BadLiteralFails` | chess_val.py:35-40 | a qualifying row with a non-numeric rank, rating or birth year makes the scrape fail rather than skip that row |
| `Scraper.ExtraCellsIgnored` | chess_val.py:34-40 | cells after the sixth play no part in a row's record |
| `Scraper.HeaderIgnored` | chess_val.py:25 | the first table row is skipped: the scrape does not depend on it and equals the scrape of the remaining rows |

## Left out

- `server/index.js` as a whole: the Express and CORS setup, and the MongoDB `find(...).sort(...)` call. Its filter is `new RegExp(query, 'i')` built from the raw query, which the model does not claim to be a substring match.
- Wall-clock timing of the 300 ms debounce. The timer is a pending or not-pending slot holding the query it captured. Arming it cancels the previous one.
- The network fetch, `response.ok`, `response.json()`, `encodeURIComponent` and the base URL from the environment. A request is modelled by the query it carries. Success and failure are separate transitions, chosen by the environment.
- Out-of-order completion of overlapping requests. Any completion may arrive at any time; the model does not track which request it answers.
- React rendering and JSX: the loading text, the "No chess players found." text, the player cards and the button markup. Only the two disabled conditions and the "Showing a-b" numbers are modelled.
- `Pagination.TotalPages`: `Math.ceil` over a floating-point quotient is modelled as exact integer ceiling division, which agrees for every list length below 2^53.
- The HTTP GET, BeautifulSoup's HTML parsing and `str.strip` in `chess_val.py`. A row is given as its already stripped cell texts.
- `IntText`: Python's `int` also accepts digits from other Unicode scripts; the model accepts ASCII digits only.
- IntText.ParseInt: does not model the limit of recent CPython versions (3.11 on, and security releases of 3.7 to 3.10), where `int` raises ValueError on a decimal text of more than 4300 digits. The limit depends on the interpreter version and the `sys.set_int_max_str_digits` setting. Real cells hold a few digits.
- IntText.ParseIntOfIntToString: holds without that limit only. Under it, `str` itself raises for numbers of more than 4300 digits, so the round trip is promised for numbers of at most 4300 digits only.
- `Scraper.ScrapeChessRatings`: `datetime.now()` is called once per row in the source; the model passes one uninterpreted timestamp that every record shares.
- `save_to_mongodb`, `update_chess_data` and the `schedule`/`sleep` loop: database writes, logging and timing, with no logic besides.
