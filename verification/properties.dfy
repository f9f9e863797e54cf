/**
 * What the controller promises across events: per-event reset rules, the debounce
 * collapsing a burst of keystrokes into one search, the trim guard of the effects versus the
 * empty-string guard of the debounced path, page clamping, and reply normalisation.
 */
module ControllerProperties {
  import opened Wrappers
  import opened JsText
  import opened Movies
  import opened Pagination
  import opened SearchController

  /** The mounted component starts in a valid state. React runs both effects on mount, and both
      skip their fetch because the initial query is blank. */
  lemma InitialIsValid()
    ensures Valid(Initial)
    ensures IsBlank(Initial.query)
    ensures PaginationBar(Initial.totalResults, Initial.page).None?
  {
  }

  /** A keystroke sets the query, returns to page 1, clears the selection and replaces whatever
      timer was armed by one carrying the new text; filters and results are untouched. Only the
      page effect can fetch right away, and only when the page was not already 1. */
  lemma TextChangeResets(s: State, text: string)
    ensures var r := Step(s, TextChange(text));
      && r.next.query == text
      && r.next.page == 1
      && r.next.selected == None
      && r.next.pending == Some(Pending(text, s.typeFilter, s.yearFilter))
      && r.next.typeFilter == s.typeFilter && r.next.yearFilter == s.yearFilter
      && r.next.movieList == s.movieList && r.next.totalResults == s.totalResults
      && r.fetches == (if s.page != 1 && !IsBlank(text)
                       then [FetchRequest(text, 1, s.typeFilter, s.yearFilter)] else [])
  {
  }

  /** A type-filter change sets only that filter and the page (to 1); the query is unchanged.
      With a blank query nothing is fetched. Otherwise the filter effect fetches page 1 if the
      filter value changed, and the page effect fetches page 1 again if the page was not 1. */
  lemma TypeFilterChangeResetsPage(s: State, v: string)
    ensures var r := Step(s, TypeFilterChange(v));
      var q := FetchRequest(s.query, 1, v, s.yearFilter);
      && r.next == s.(typeFilter := v, page := 1, inFlight := s.inFlight + r.fetches)
      && r.fetches == (if IsBlank(s.query) then []
                       else (if v != s.typeFilter then [q] else []) + (if s.page != 1 then [q] else []))
  {
  }

  /** The year filter behaves exactly like the type filter. */
  lemma YearFilterChangeResetsPage(s: State, v: string)
    ensures var r := Step(s, YearFilterChange(v));
      var q := FetchRequest(s.query, 1, s.typeFilter, v);
      && r.next == s.(yearFilter := v, page := 1, inFlight := s.inFlight + r.fetches)
      && r.fetches == (if IsBlank(s.query) then []
                       else (if v != s.yearFilter then [q] else []) + (if s.page != 1 then [q] else []))
  {
  }

  /** With a blank query, no event other than the debounce timer issues a request. */
  lemma BlankQueryOnlyDebounceFetches(s: State, e: Event)
    requires IsBlank(s.query)
    requires !e.DebounceFire?
    requires e.TextChange? ==> IsBlank(e.text)
    ensures Step(s, e).fetches == []
  {
  }

  /** A page move (Prev, Next or a page button) keeps the query, the filters and the results,
      and fetches the new page with them, or nothing when the query is blank or the page stays. */
  lemma PageMoveKeepsQueryAndFilters(s: State, e: Event)
    requires e.PrevClick? || e.NextClick? || e.PageClick?
    ensures var r := Step(s, e);
      && r.next == s.(page := r.next.page, inFlight := s.inFlight + r.fetches)
      && r.fetches == (if r.next.page != s.page && !IsBlank(s.query)
                       then [FetchRequest(s.query, r.next.page, s.typeFilter, s.yearFilter)] else [])
  {
    var r := Step(s, e);
    var totalPages := PageCount(s);
    match e
    case PrevClick =>
      if BarShown(totalPages) && !PrevDisabled(s.page) {
        PageOnlyCommit(s, PrevPage(s.page));
      }
    case NextClick =>
      if BarShown(totalPages) && !NextDisabled(s.page, totalPages) {
        PageOnlyCommit(s, NextPage(s.page, totalPages));
      }
    case PageClick(target) =>
      if BarShown(totalPages) && 1 <= target <= totalPages {
        PageOnlyCommit(s, target);
      }
  }

  /** Rendering a change of the page alone runs only the page effect. */
  lemma PageOnlyCommit(s: State, p: int)
    ensures var r := Commit(s, s.(page := p));
      && r.next == s.(page := p, inFlight := s.inFlight + r.fetches)
      && r.fetches == (if p != s.page && !IsBlank(s.query)
                       then [FetchRequest(s.query, p, s.typeFilter, s.yearFilter)] else [])
  {
  }

  /** While the bar is shown and the page is in range, every page move keeps it in range. */
  lemma PageMoveStaysInRange(s: State, e: Event)
    requires e.PrevClick? || e.NextClick? || e.PageClick?
    requires BarShown(PageCount(s)) && 1 <= s.page <= PageCount(s)
    ensures var r := Step(s, e);
      && PageCount(r.next) == PageCount(s)
      && 1 <= r.next.page <= PageCount(r.next)
  {
  }

  /** Prev lowers the page by one, never below 1; it is ignored on page 1 or with no bar. */
  lemma PrevClickMovesBack(s: State)
    requires Valid(s)
    ensures var r := Step(s, PrevClick);
      r.next.page == (if BarShown(PageCount(s)) && s.page > 1 then s.page - 1 else s.page)
  {
  }

  /** Next raises the page by one while below the last page, never past it; on the last page it
      is disabled and nothing happens; from a page beyond the last (left behind by a smaller
      reply) it jumps back to the last page. */
  lemma NextClickNeverPassesLast(s: State)
    requires BarShown(PageCount(s))
    ensures var r := Step(s, NextClick);
      && r.next.page <= PageCount(s)
      && (s.page < PageCount(s) ==> r.next.page == s.page + 1)
      && (s.page > PageCount(s) ==> r.next.page == PageCount(s))
      && (s.page == PageCount(s) ==> r == Transition(s, []))
  {
  }

  /** A page button moves to its own page; a number with no button (outside 1..totalPages, or
      no bar at all) changes nothing. */
  lemma PageClickGoesToTarget(s: State, t: int)
    ensures var r := Step(s, PageClick(t));
      && r.next.page == (if BarShown(PageCount(s)) && 1 <= t <= PageCount(s) then t else s.page)
      && (!(BarShown(PageCount(s)) && 1 <= t <= PageCount(s)) ==> r == Transition(s, []))
  {
  }

  /** Firing the armed timer disarms it and fetches page 1 of its own text with the filters its
      closure captured, unless that text is empty; with no timer armed it does nothing. */
  lemma DebounceFireFetchesArmedText(s: State)
    ensures var r := Step(s, DebounceFire);
      match s.pending
      case None => r == Transition(s, [])
      case Some(p) =>
        && r.next == s.(pending := None, inFlight := s.inFlight + r.fetches)
        && r.fetches == (if p.text == "" then [] else [FetchRequest(p.text, 1, p.typeFilter, p.yearFilter)])
  {
  }

  /** The debounced path checks only for the empty string, not for blank text: a search box
      holding a single space fetches when the timer fires, although neither effect would. */
  lemma BlankTextStillFetchesOnFire(s: State)
    requires s.page == 1
    ensures var typed := Step(s, TextChange(" "));
      && typed.fetches == []
      && Step(typed.next, TypeFilterChange("movie")).fetches == []
      && Step(typed.next, DebounceFire).fetches == [FetchRequest(" ", 1, s.typeFilter, s.yearFilter)]
  {
  }

  /** A keystroke while on a later page fetches page 1 of the new text at once through the page
      effect, ahead of the debounced fetch. */
  lemma TextChangeOnLaterPageFetchesAtOnce()
    ensures var s := Initial.(query := "abc", page := 3, totalResults := 50);
      Step(s, TextChange("abcd")).fetches == [FetchRequest("abcd", 1, "", "")]
  {
  }

  /** A burst of keystrokes. */
  function Keystrokes(texts: seq<string>): (r: seq<Event>)
    ensures |r| == |texts|
    ensures forall i :: 0 <= i < |r| ==> r[i] == TextChange(texts[i])
  {
    if texts == [] then [] else [TextChange(texts[0])] + Keystrokes(texts[1..])
  }

  /** Starting on page 1, a burst of keystrokes issues no request, and leaves exactly one timer
      armed, carrying the last text typed; the selection is cleared. */
  lemma {:induction false} BurstArmsOnlyLastText(s: State, texts: seq<string>)
    requires s.page == 1
    requires texts != []
    decreases |texts|
    ensures var r := Run(s, Keystrokes(texts));
      && r.fetches == []
      && r.next.pending == Some(Pending(texts[|texts| - 1], s.typeFilter, s.yearFilter))
      && r.next.query == texts[|texts| - 1]
      && r.next.page == 1
      && r.next.selected == None
      && r.next.typeFilter == s.typeFilter && r.next.yearFilter == s.yearFilter
      && r.next.inFlight == s.inFlight
  {
    var events := Keystrokes(texts);
    var first := Step(s, events[0]);
    TextChangeResets(s, texts[0]);
    if |texts| > 1 {
      assert events[1..] == Keystrokes(texts[1..]);
      BurstArmsOnlyLastText(first.next, texts[1..]);
    } else {
      assert events[1..] == [];
    }
  }

  /** The debounce: after a burst of keystrokes starting on page 1, the timer firing issues
      exactly one request, for page 1 of the last text (or none if that text is empty), so the
      whole burst costs at most one search. */
  lemma BurstThenFireFetchesOnce(s: State, texts: seq<string>)
    requires s.page == 1
    requires texts != []
    ensures var burst := Run(s, Keystrokes(texts));
      var last := texts[|texts| - 1];
      && burst.fetches == []
      && Step(burst.next, DebounceFire).fetches
           == (if last == "" then [] else [FetchRequest(last, 1, s.typeFilter, s.yearFilter)])
      && Step(burst.next, DebounceFire).next.pending == None
  {
    BurstArmsOnlyLastText(s, texts);
    DebounceFireFetchesArmedText(Run(s, Keystrokes(texts)).next);
  }

  /** Every state reached from a valid one is valid: in particular the page never drops below 1
      and no request for the empty string is ever in flight. */
  lemma {:induction false} RunPreservesValid(s: State, events: seq<Event>)
    requires Valid(s)
    ensures Valid(Run(s, events).next)
    decreases |events|
  {
    if events != [] {
      RunPreservesValid(Step(s, events[0]).next, events[1..]);
    }
  }

  /** A reply replaces the results wholesale: the outcome does not depend on the results held
      before, and applying the same reply twice is the same as applying it once. */
  lemma ApplyResponseReplacesWholesale(s: State, t: State, reply: ApiResponse)
    requires t == s.(movieList := t.movieList, totalResults := t.totalResults)
    ensures ApplyResponse(s, reply) == ApplyResponse(t, reply)
    ensures ApplyResponse(ApplyResponse(s, reply), reply) == ApplyResponse(s, reply)
  {
  }

  /** Completing any in-flight request, whatever else is in flight, applies its reply to the
      results, drops that request alone from the in-flight list, and issues nothing. */
  lemma CompletionAppliesReply(s: State, k: int, reply: ApiResponse)
    requires 0 <= k < |s.inFlight|
    ensures var r := Step(s, FetchComplete(k, reply));
      && r.fetches == []
      && r.next == ApplyResponse(s, reply).(inFlight := s.inFlight[..k] + s.inFlight[k + 1..])
      && (reply.response == "True" ==> r.next.movieList == reply.search && r.next.totalResults == reply.totalResults)
      && (reply.response != "True" ==> r.next.movieList == [] && r.next.totalResults == 0)
  {
  }

  /** Replies are applied in arrival order, not issue order: of two in-flight requests, the one
      whose reply arrives last decides the results shown. Here the older one completes first. */
  lemma LastReplyWins(s: State, a: ApiResponse, b: ApiResponse)
    requires |s.inFlight| == 2
    ensures var afterA := Step(s, FetchComplete(0, a)).next;
      var afterB := Step(afterA, FetchComplete(0, b)).next;
      && afterB == ApplyResponse(s, b).(inFlight := [])
  {
  }

  /** The stale case: the newer request completes first, and the reply to the older request
      arrives last and overwrites it. */
  lemma StaleReplyOverwrites(s: State, a: ApiResponse, b: ApiResponse)
    requires |s.inFlight| == 2
    ensures var afterNewer := Step(s, FetchComplete(1, a)).next;
      var afterOlder := Step(afterNewer, FetchComplete(0, b)).next;
      && afterOlder == ApplyResponse(s, b).(inFlight := [])
  {
  }

  /** The selection is whatever a card or the details panel last chose (`SelectMovie(None)` is
      the panel clearing it); a keystroke clears it, and every other event leaves it alone. */
  lemma SelectionUntilKeystroke(s: State, m: Movie, text: string, e: Event)
    ensures Step(s, SelectMovie(Some(m))).next.selected == Some(m)
    ensures Step(s, SelectMovie(None)).next.selected == None
    ensures Step(Step(s, SelectMovie(Some(m))).next, TextChange(text)).next.selected == None
    ensures !e.TextChange? && !e.SelectMovie? ==> Step(s, e).next.selected == s.selected
  {
  }
}
