/**
 * The search and pagination controller of the `App` component, as a pure state machine.
 *
 * Each user or timer event is one atomic transition: it yields the next state and the
 * upstream search requests issued on the way. React's two effects (one keyed on the
 * filters, one keyed on the page) run after every transition whose keys changed value,
 * and they read the values of the new render. Issued requests stay in flight until a
 * completion event applies some reply to the state; completions may arrive in any order
 * and none is ever cancelled.
 */
module SearchController {
  import opened Wrappers
  import opened JsText
  import opened Movies
  import opened Pagination

  /** The armed debounce timer: the text it will search for, and the filters held by the
      `fetchData` closure of the render in which it was armed. */
  datatype Pending = Pending(text: string, typeFilter: string, yearFilter: string)

  /** One upstream search request, by its `s`, `page`, `type` and `y` parameters. */
  datatype FetchRequest = FetchRequest(search: string, page: int, typeFilter: string, yearFilter: string)

  /** The fields of an upstream reply the controller reads, `totalResults` already a number. */
  datatype ApiResponse = ApiResponse(response: string, search: seq<Movie>, totalResults: nat)

  /** The component state; `pending` is the single debounce slot, `inFlight` the issued requests
      whose replies have not arrived yet. */
  datatype State = State(
    query: string,
    page: int,
    totalResults: nat,
    typeFilter: string,
    yearFilter: string,
    selected: Option<Movie>,
    pending: Option<Pending>,
    movieList: seq<Movie>,
    inFlight: seq<FetchRequest>)

  /** The state on mount: empty query, page 1, no results, no filters, nothing selected or armed. */
  const Initial: State := State("", 1, 0, "", "", None, None, [], [])

  datatype Event =
    | TextChange(text: string)              // a keystroke in the search box
    | TypeFilterChange(typeValue: string)   // the type select
    | YearFilterChange(yearValue: string)   // the year input
    | PrevClick
    | NextClick
    | PageClick(target: int)                // the numbered button showing `target`
    | DebounceFire                          // the armed timer runs out
    | FetchComplete(index: int, reply: ApiResponse)  // the reply to `inFlight[index]` arrives
    | SelectMovie(choice: Option<Movie>)    // a card or the details panel calls `onMovieSelect`

  datatype Transition = Transition(next: State, fetches: seq<FetchRequest>)

  /** What every reachable state satisfies: the page is at least 1 and no request for the
      empty string was ever issued. */
  predicate Valid(s: State) {
    && s.page >= 1
    && forall q :: q in s.inFlight ==> q.search != "" && q.page >= 1
  }

  function PageCount(s: State): nat {
    TotalPages(s.totalResults)
  }

  /** `fetchData(searchString, pageNumber)`: returns early, issuing nothing, when the search string
      is empty; otherwise issues exactly one request with the filters of its closure. */
  function FetchData(search: string, pageNumber: int, typeFilter: string, yearFilter: string): (r: seq<FetchRequest>)
    ensures r == [] <==> search == ""
    ensures |r| <= 1
    ensures forall q :: q in r ==>
              q.search == search && q.page == pageNumber && q.typeFilter == typeFilter && q.yearFilter == yearFilter
  {
    if search == "" then [] else [FetchRequest(search, pageNumber, typeFilter, yearFilter)]
  }

  /** The reply handler of `fetchData`: a reply with `Response` "True" replaces the list with its
      `Search` array and the count with its `totalResults`; any other reply empties both. Nothing
      else in the state changes. */
  function ApplyResponse(s: State, reply: ApiResponse): (r: State)
    ensures r.(movieList := s.movieList, totalResults := s.totalResults) == s
    ensures reply.response == "True" ==> r.movieList == reply.search && r.totalResults == reply.totalResults
    ensures reply.response != "True" ==> r.movieList == [] && r.totalResults == 0
  {
    if reply.response == "True" then
      s.(movieList := reply.search, totalResults := reply.totalResults)
    else
      s.(movieList := [], totalResults := 0)
  }

  /** The requests the two effects issue after a render that went from `before` to `after`:
      the filter effect first (page 1), then the page effect (the new page), each only when its
      keys changed and the trimmed query is not empty. */
  function Effects(before: State, after: State): (r: seq<FetchRequest>)
    ensures IsBlank(after.query) ==> r == []
    ensures forall q :: q in r ==>
              && q.search == after.query && q.typeFilter == after.typeFilter && q.yearFilter == after.yearFilter
              && (q.page == 1 || q.page == after.page)
    ensures |r| <= 2
    ensures (before.typeFilter, before.yearFilter, before.page) == (after.typeFilter, after.yearFilter, after.page) ==> r == []
    ensures !IsBlank(after.query) && (before.typeFilter != after.typeFilter || before.yearFilter != after.yearFilter) ==>
              |r| >= 1 && r[0] == FetchRequest(after.query, 1, after.typeFilter, after.yearFilter)
    ensures !IsBlank(after.query) && before.page != after.page ==>
              |r| >= 1 && r[|r| - 1] == FetchRequest(after.query, after.page, after.typeFilter, after.yearFilter)
    ensures !IsBlank(after.query) ==>
              |r| == (if before.typeFilter != after.typeFilter || before.yearFilter != after.yearFilter then 1 else 0)
                     + (if before.page != after.page then 1 else 0)
  {
    var active := Trim(after.query) != "";
    var filterEffect :=
      if (before.typeFilter != after.typeFilter || before.yearFilter != after.yearFilter) && active
      then FetchData(after.query, 1, after.typeFilter, after.yearFilter)
      else [];
    var pageEffect :=
      if before.page != after.page && active
      then FetchData(after.query, after.page, after.typeFilter, after.yearFilter)
      else [];
    filterEffect + pageEffect
  }

  /** Renders `after` (reached from `before` by one event) and records what its effects issue. */
  function Commit(before: State, after: State): (r: Transition)
    requires after.inFlight == before.inFlight
    ensures r.next == after.(inFlight := before.inFlight + r.fetches)
  {
    var fx := Effects(before, after);
    Transition(after.(inFlight := before.inFlight + fx), fx)
  }

  /** Drops the completed request from the in-flight list. */
  function RemoveAt(xs: seq<FetchRequest>, k: int): (r: seq<FetchRequest>)
    requires 0 <= k < |xs|
    ensures |r| == |xs| - 1
    ensures forall q :: q in r ==> q in xs
    ensures forall i :: 0 <= i < |r| ==> r[i] == (if i < k then xs[i] else xs[i + 1])
  {
    xs[..k] + xs[k + 1..]
  }

  /** One event. Clicks on a control that is not rendered, or is rendered disabled, and a timer
      or reply that does not exist, change nothing. */
  function Step(s: State, e: Event): (r: Transition)
    ensures Valid(s) ==> Valid(r.next)
    ensures !e.FetchComplete? ==> r.next.inFlight == s.inFlight + r.fetches
    ensures e.FetchComplete? ==> r.fetches == []
    ensures !e.DebounceFire? ==> forall q :: q in r.fetches ==>
              && q == FetchRequest(r.next.query, r.next.page, r.next.typeFilter, r.next.yearFilter)
              && !IsBlank(r.next.query)
    ensures r.next.query == (if e.TextChange? then e.text else s.query)
    ensures !e.TextChange? && !e.DebounceFire? ==> r.next.pending == s.pending
    ensures !e.TypeFilterChange? ==> r.next.typeFilter == s.typeFilter
    ensures !e.YearFilterChange? ==> r.next.yearFilter == s.yearFilter
    ensures !e.TextChange? && !e.SelectMovie? ==> r.next.selected == s.selected
  {
    var totalPages := PageCount(s);
    match e
    case TextChange(text) =>
      Commit(s, s.(selected := None, pending := Some(Pending(text, s.typeFilter, s.yearFilter)),
                   query := text, page := 1))
    case TypeFilterChange(v) =>
      Commit(s, s.(typeFilter := v, page := 1))
    case YearFilterChange(v) =>
      Commit(s, s.(yearFilter := v, page := 1))
    case PrevClick =>
      if BarShown(totalPages) && !PrevDisabled(s.page) then Commit(s, s.(page := PrevPage(s.page)))
      else Transition(s, [])
    case NextClick =>
      if BarShown(totalPages) && !NextDisabled(s.page, totalPages) then Commit(s, s.(page := NextPage(s.page, totalPages)))
      else Transition(s, [])
    case PageClick(target) =>
      if BarShown(totalPages) && 1 <= target <= totalPages then Commit(s, s.(page := target))
      else Transition(s, [])
    case DebounceFire =>
      (match s.pending
       case None => Transition(s, [])
       case Some(p) =>
         var fx := FetchData(p.text, 1, p.typeFilter, p.yearFilter);
         Transition(s.(pending := None, inFlight := s.inFlight + fx), fx))
    case FetchComplete(k, reply) =>
      if 0 <= k < |s.inFlight| then Transition(ApplyResponse(s, reply).(inFlight := RemoveAt(s.inFlight, k)), [])
      else Transition(s, [])
    case SelectMovie(choice) =>
      Transition(s.(selected := choice), [])
  }

  /** A run of events from left to right: the final state and every request issued, in order. */
  function Run(s: State, events: seq<Event>): Transition
    decreases |events|
  {
    if events == [] then Transition(s, [])
    else
      var first := Step(s, events[0]);
      var rest := Run(first.next, events[1..]);
      Transition(rest.next, first.fetches + rest.fetches)
  }
}
