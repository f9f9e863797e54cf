# Movie search controller

A Dafny model of the search and pagination controller inside the `App` component of a
browser movie-search UI (`src/App.jsx`). The user types a query, which arms a debounce
timer; filter changes and page changes fetch at once through two React effects; replies
from the upstream movie-database API replace the result list and the result count, from
which the pagination bar is derived.

The model is an immutable state record and one pure transition per event:

- `wrappers.dfy` — `Option`.
- `jstext.dfy` (`JsText`) — JavaScript `trim` and blank strings; the effects test
  `query.trim() !== ""`.
- `movies.dfy` (`Movies`) — result items, the `"N/A"` poster fallback, the result area
  (placeholder or one card per item).
- `pagination.dfy` (`Pagination`) — `totalPages = ceil(totalResults / 10)`, when the bar
  shows, Prev/Next with their disabled flags, the numbered buttons with their active flags.
- `controller.dfy` (`SearchController`) — the state, the events, `fetchData`'s guard and
  reply handling, the two effects, and `Step`/`Run`.
- `properties.dfy` (`ControllerProperties`) — what holds across events.

How the model reads the code:

- React applies a batch of state updates, renders once, then runs each effect whose
  dependency values changed (same-value updates change nothing). `Effects(before, after)`
  states this. It runs the filter effect first, then the page effect. Both read the values
  of the new render.
- The debounce timer is one optional slot. Arming it replaces whatever was armed. A
  `DebounceFire` event stands for the 600 ms running out. The slot keeps the filters of the
  render that armed it, because the timer calls that render's `fetchData` closure.
- Requests are kept in flight until a `FetchComplete(k, reply)` event. Such an event may
  complete any in-flight request, in any order. Nothing is cancelled, so a stale reply
  overwrites newer results.
- A click on a control that is not rendered (no bar) or is disabled changes nothing.

Consequences of the code that the lemmas make explicit:

- The two guards differ. The effects skip a blank query, but the debounced path checks only
  `!searchString`. So a query of spaces is still fetched when the timer fires
  (`BlankTextStillFetchesOnFire`).
- A keystroke made while on a page other than 1 resets the page. That fires the page effect
  at once, ahead of the debounce (`TextChangeOnLaterPageFetchesAtOnce`).
- A filter change made on a page other than 1 issues the same page-1 request twice: once
  from each effect (`TypeFilterChangeResetsPage`).
- Next from a page beyond the last one, which a smaller later reply can leave behind, jumps
  back to the last page (`NextClickNeverPassesLast`). Prev only steps back one page.

In the code, `totalPages` is the plain ceiling and is 0 for no results. The bar lists every
page. The guard inside `fetchData` is `!searchString`, with no trim. The request always
carries both filter parameters, even when empty. No transport failure is caught.

## Model

| member | source | states |
|---|---|---|
| JsText.TrimOffset | src/App.jsx:164 | the trimmed query starts at the first character of the query that is not JavaScript whitespace (or at its end) |
| JsText.Trim | src/App.jsx:164 | `query.trim()` is the slice of the query from `TrimOffset` on, not ending in whitespace, with only whitespace after it; it is `""` exactly when every character is JavaScript whitespace |
| Movies.WithPosterFallback | src/App.jsx:235-238 | a `"N/A"` poster becomes the movie icon; other posters and all other fields pass through; no card ever gets `"N/A"` |
| Movies.PosterFallbackIdempotent | src/App.jsx:237-238 | applying the poster fallback twice equals applying it once |
| Movies.ShownMovies | src/App.jsx:232-242 | the cards keep the list's length and order, and each card is its item with the poster fallback |
| Movies.ShownMoviesIdempotent | src/App.jsx:232-238 | normalising an already normalised list changes nothing |
| Movies.ResultArea | src/App.jsx:231-245 | the placeholder shows exactly when the list is empty; otherwise there is one normalised card per item |
| Pagination.TotalPages | src/App.jsx:174 | the page count is 0 exactly for 0 results, and otherwise `(n-1)*10 < totalResults <= n*10` |
| Pagination.TotalPagesIsCeiling | src/App.jsx:174 | any page count that fits the results that tightly equals `TotalPages`, so it is the ceiling |
| Pagination.PrevPage | src/App.jsx:252 | Prev never goes below 1, steps back one page from any page above 1, and stays at 1 on page 1 |
| Pagination.NextPage | src/App.jsx:269 | Next never passes the last page, steps forward one page below it, and lands on the last page from anywhere at or past it |
| Pagination.PrevStaysInRange | src/App.jsx:252-253 | on a page in range, Prev leaves the page unchanged exactly when it is disabled (page 1), and the result stays in range |
| Pagination.NextStaysInRange | src/App.jsx:269-270 | on a page in range, Next leaves the page unchanged exactly when it is disabled (last page), and the result stays in range |
| Pagination.PageButtons | src/App.jsx:258-266 | there are exactly `totalPages` buttons, numbered 1..totalPages in ascending order, and a button is active iff its number is the current page |
| Pagination.ExactlyOneActive | src/App.jsx:258-266 | exactly one button is active when the page is in range, and none otherwise |
| Pagination.PaginationBar | src/App.jsx:249-275 | the bar exists iff there is more than one page; Prev is disabled iff on page 1, Next iff on the last page; the buttons are as in `PageButtons` |
| SearchController.FetchData | src/App.jsx:131-136 | an empty search string issues nothing; any other string issues exactly one request carrying the string, page and filters |
| SearchController.ApplyResponse | src/App.jsx:138-144 | a `"True"` reply sets the list to its `Search` and the count to its `totalResults`; any other reply sets them to empty and 0; nothing else changes |
| SearchController.Effects | src/App.jsx:163-172 | for a blank query, or with filters and page unchanged, nothing is fetched; for a non-blank query a filter change fetches page 1 first and a page change fetches the new page last, one request per effect that fired, each with the current query and filters |
| SearchController.Step | src/App.jsx:150-172 | every event keeps the state valid (page at least 1, no request for `""` in flight); non-timer requests are for the current query, page and filters and never for a blank query; only a keystroke changes the query, only the timer or a keystroke the debounce slot, and only a keystroke or a selection the selected movie |
| ControllerProperties.InitialIsValid | src/App.jsx:113-126 | the initial state is valid, its query is blank so both effects skip their fetch on mount, and no bar is shown |
| ControllerProperties.TextChangeResets | src/App.jsx:150-158 | a keystroke sets the query, resets the page to 1, clears the selection and replaces the armed timer with one for the new text; it fetches at once only if the page was not 1 and the text is not blank |
| ControllerProperties.TypeFilterChangeResetsPage | src/App.jsx:199-202 | a type change sets only the type filter and page 1; it fetches page 1 once per effect that fired, and nothing for a blank query |
| ControllerProperties.YearFilterChangeResetsPage | src/App.jsx:214-217 | a year change sets only the year filter and page 1; it fetches page 1 once per effect that fired, and nothing for a blank query |
| ControllerProperties.BlankQueryOnlyDebounceFetches | src/App.jsx:163-172 | with a blank query, no event except the timer, or a keystroke of non-blank text, issues a request |
| ControllerProperties.PageMoveKeepsQueryAndFilters | src/App.jsx:170-172 | Prev, Next and a page button change only the page; the page effect fetches that page with the unchanged query and filters when the page moved and the query is not blank |
| ControllerProperties.PageMoveStaysInRange | src/App.jsx:249-270 | while the bar is shown and the page is in range, Prev, Next and page buttons keep the page within 1..totalPages |
| ControllerProperties.PrevClickMovesBack | src/App.jsx:251-253 | Prev lowers the page by one when the bar is shown and the page is above 1; otherwise the page stays |
| ControllerProperties.NextClickNeverPassesLast | src/App.jsx:268-270 | with the bar shown, Next never leaves the page past the last page, moves up one below it, changes nothing on the last page (disabled), and jumps back to the last page from beyond it |
| ControllerProperties.PageClickGoesToTarget | src/App.jsx:258-266 | a page button sets the page to its own number; a number with no rendered button changes nothing |
| ControllerProperties.DebounceFireFetchesArmedText | src/App.jsx:156 | firing disarms the timer and fetches page 1 of the armed text with the captured filters, unless the text is empty; with no timer it does nothing |
| ControllerProperties.BlankTextStillFetchesOnFire | src/App.jsx:132 | a query of one space is fetched when the timer fires, though neither the keystroke nor a filter change fetches it |
| ControllerProperties.TextChangeOnLaterPageFetchesAtOnce | src/App.jsx:150-172 | a keystroke on page 3 fetches page 1 of the new text at once, through the page effect |
| ControllerProperties.BurstArmsOnlyLastText | src/App.jsx:150-158 | from page 1, any burst of keystrokes issues no request and leaves one timer armed, carrying the last text |
| ControllerProperties.BurstThenFireFetchesOnce | src/App.jsx:150-158 | a burst of keystrokes from page 1, then the timer firing, issues exactly one request: page 1 of the last text (none if it is empty) |
| ControllerProperties.RunPreservesValid | src/App.jsx:131-172 | from a valid state, any sequence of events leaves the page at least 1 and never puts a request for `""` in flight |
| ControllerProperties.ApplyResponseReplacesWholesale | src/App.jsx:138-144 | a reply's outcome does not depend on the results held before it, and applying the same reply twice equals applying it once |
| ControllerProperties.CompletionAppliesReply | src/App.jsx:134-144 | completing any in-flight request, whatever else is in flight, applies its reply to list and count, removes only that request, and fetches nothing |
| ControllerProperties.LastReplyWins | src/App.jsx:134-144 | with two requests in flight completing oldest first, the later reply decides the results |
| ControllerProperties.StaleReplyOverwrites | src/App.jsx:134-144 | with two requests in flight, when the newer completes first the stale reply to the older one arrives last and decides the results |
| ControllerProperties.SelectionUntilKeystroke | src/App.jsx:150-151 | selecting a movie sets it and calling `onMovieSelect` with nothing clears it; a keystroke clears it; every other event leaves it unchanged |

## Left out

- The Axios call, `async`/`await` and the URL with its API key. A request is the record of its
  `s`, `page`, `type` and `y` parameters, and a reply is an abstract record. Nothing is
  percent-encoded.
- `Number(totalResults)`: the reply's count is already a natural number, so a non-numeric
  count (NaN) is not modelled.
- Transport failures: the code has no `catch`, so the model has no error branch.
- Time: the 600 ms delay is the explicit `DebounceFire` event. The model does not cover
  what happens to an armed timer when the component unmounts; the code does no cleanup.
- A `"True"` reply without a `Search` array (the `movieList?.length` check). The model's
  reply always carries a list.
- `MovieComponent` and `MovieInfoComponent` are not part of this model. What they do with
  `onMovieSelect` is the `SelectMovie` event with any choice. Setting the selection to `""`
  or `undefined` is modelled as `None`.
- Rendering, styled-components, icons and the React `key` props.
- React's batching and effect scheduling beyond "one event, one render, then the effects
  whose dependencies changed".
