/**
 * Result items as the upstream search API returns them, and the poster fallback the
 * result list applies when it hands each item to its card renderer.
 */
module Movies {

  /** One entry of the upstream `Search` array (its `Title`, `Year`, `imdbID`, `Type` and `Poster`). */
  datatype Movie = Movie(title: string, year: string, imdbId: string, kind: string, poster: string)

  /** The upstream marker for "no poster". */
  const NotAvailable: string := "N/A"

  /** Stands for the bundled movie icon asset shown instead of a missing poster. */
  const MovieIcon: string := "movie-icon.svg"

  /** The item as a card receives it: a missing poster becomes the movie icon; every other
      field, and every other poster, passes through. */
  function WithPosterFallback(m: Movie): (r: Movie)
    ensures r.poster != NotAvailable
    ensures r.title == m.title && r.year == m.year && r.imdbId == m.imdbId && r.kind == m.kind
    ensures m.poster != NotAvailable ==> r == m
    ensures m.poster == NotAvailable ==> r.poster == MovieIcon
  {
    if m.poster == NotAvailable then m.(poster := MovieIcon) else m
  }

  /** Applying the fallback a second time changes nothing. */
  lemma PosterFallbackIdempotent(m: Movie)
    ensures WithPosterFallback(WithPosterFallback(m)) == WithPosterFallback(m)
  {
  }

  /** The list mapped card by card: same length, same order, each item normalised. */
  function ShownMovies(list: seq<Movie>): (r: seq<Movie>)
    ensures |r| == |list|
    ensures forall i :: 0 <= i < |list| ==> r[i] == WithPosterFallback(list[i])
    ensures forall i :: 0 <= i < |r| ==> r[i].poster != NotAvailable
  {
    if list == [] then [] else ShownMovies(list[..|list| - 1]) + [WithPosterFallback(list[|list| - 1])]
  }

  /** What the result area shows: the placeholder icon for an empty list, otherwise one card per item. */
  datatype ResultView = Placeholder | Cards(items: seq<Movie>)

  function ResultArea(list: seq<Movie>): (r: ResultView)
    ensures r.Placeholder? <==> |list| == 0
    ensures r.Cards? ==> |r.items| == |list|
    ensures r.Cards? ==> forall i :: 0 <= i < |list| ==> r.items[i] == WithPosterFallback(list[i])
  {
    if |list| == 0 then Placeholder else Cards(ShownMovies(list))
  }

  /** Normalising a list twice is the same as normalising it once. */
  lemma ShownMoviesIdempotent(list: seq<Movie>)
    ensures ShownMovies(ShownMovies(list)) == ShownMovies(list)
  {
  }
}
