/**
 * What the two revisions of `Search` share: the provider records the movie and
 * book branches work on, the title rule, the provider replies, the error log,
 * and the two branches whose code is the same in both revisions up to the log
 * call and the provider package.
 *
 * Each provider's `Search…(q)` call is a network request; here its outcome,
 * the pair Go returns as `(value, err)`, is a parameter of type `Reply`.
 * Every record keeps the field the branch rewrites by name; all its other
 * fields are gathered in `Details` and passed through untouched.
 */
module Catalog {
  import opened Base
  import Truncation

  /** Titles are cut after 60 bytes and marked with "..." (`truncate(…, "...", 60)`). */
  const TitleLimit: nat := 60
  const Ellipsis: string := "..."

  function ShortTitle(title: string): string {
    Truncation.Truncate(title, Ellipsis, TitleLimit)
  }

  /**
   * The fields of a provider record that no branch touches. Their shape is not
   * modelled (the Go records mix strings, numbers and nested records); only
   * that they are passed through unchanged.
   */
  type Details(==)

  datatype Movie = Movie(Title: string, Details: Details)
  datatype Book = Book(Title: string, Details: Details)
  datatype Work = Work(BestBook: Book, Details: Details)
  datatype WorkSearch = WorkSearch(Works: seq<Work>, Details: Details)
  datatype GoodreadsResponse = GoodreadsResponse(Search: WorkSearch, Details: Details)

  datatype Provider = RottenTomatoes | Goodreads | Spotify

  /** What a provider call returned: its value (possibly partial or zero) and its error, if any. */
  datatype Reply<T> = Reply(value: T, err: Option<string>)

  /** One printed error line: which provider failed, and `err.Error()`. */
  datatype LogLine = LogLine(provider: Provider, message: string)

  function Logged(p: Provider, err: Option<string>): set<LogLine> {
    if err.Some? then {LogLine(p, err.value)} else {}
  }

  /** `out` is `src` with every movie title shortened, in the same order, nothing else changed. */
  ghost predicate MoviesNormalized(src: seq<Movie>, out: seq<Movie>) {
    && |out| == |src|
    && forall i :: 0 <= i < |src| ==>
         out[i].Title == ShortTitle(src[i].Title) && out[i].Details == src[i].Details
  }

  /** `out` is `src` with only each work's best-book title shortened; works keep count and order. */
  ghost predicate WorksNormalized(src: seq<Work>, out: seq<Work>) {
    && |out| == |src|
    && forall i :: 0 <= i < |src| ==>
         && out[i].BestBook.Title == ShortTitle(src[i].BestBook.Title)
         && out[i].BestBook.Details == src[i].BestBook.Details
         && out[i].Details == src[i].Details
  }

  ghost predicate BooksNormalized(src: GoodreadsResponse, out: GoodreadsResponse) {
    && out.Details == src.Details
    && out.Search.Details == src.Search.Details
    && WorksNormalized(src.Search.Works, out.Search.Works)
  }

  /**
   * The movie goroutine: an error is only logged; whatever list came back is
   * still walked, and each movie, title shortened, is appended to `m`.
   */
  method MovieBranch(movies: Reply<seq<Movie>>) returns (m: seq<Movie>, log: set<LogLine>)
    ensures MoviesNormalized(movies.value, m)
    ensures log == Logged(RottenTomatoes, movies.err)
  {
    log := Logged(RottenTomatoes, movies.err);
    m := [];
    for i := 0 to |movies.value|
      invariant MoviesNormalized(movies.value[..i], m)
    {
      var mov := movies.value[i];
      mov := mov.(Title := Truncation.Truncate(mov.Title, Ellipsis, TitleLimit));
      m := m + [mov];
    }
    assert movies.value[..|movies.value|] == movies.value;
  }

  /**
   * The book goroutine: an error is only logged; each work of the response is
   * rewritten in place with its best-book title shortened, then the whole
   * response becomes the slot `g`.
   */
  method BookBranch(books: Reply<GoodreadsResponse>) returns (g: GoodreadsResponse, log: set<LogLine>)
    ensures BooksNormalized(books.value, g)
    ensures log == Logged(Goodreads, books.err)
  {
    log := Logged(Goodreads, books.err);
    var src := books.value.Search.Works;
    var resp := books.value;
    for i := 0 to |resp.Search.Works|
      invariant resp.Details == books.value.Details
      invariant resp.Search.Details == books.value.Search.Details
      invariant |resp.Search.Works| == |src|
      invariant WorksNormalized(src[..i], resp.Search.Works[..i])
      invariant resp.Search.Works[i..] == src[i..]
    {
      var w := resp.Search.Works[i];
      assert w == src[i];
      w := w.(BestBook := w.BestBook.(Title := Truncation.Truncate(w.BestBook.Title, Ellipsis, TitleLimit)));
      resp := resp.(Search := resp.Search.(Works := resp.Search.Works[i := w]));
    }
    assert src[..|src|] == src;
    assert resp.Search.Works[..|src|] == resp.Search.Works;
    g := resp;
  }

  /** The movie slot is fully determined by the provider's list: nothing else can leak into it. */
  lemma MoviesNormalizedUnique(src: seq<Movie>, a: seq<Movie>, b: seq<Movie>)
    requires MoviesNormalized(src, a) && MoviesNormalized(src, b)
    ensures a == b
  {
  }

  /** Normalising the movie slot a second time changes nothing. */
  lemma MoviesNormalizedStable(src: seq<Movie>, out: seq<Movie>)
    requires MoviesNormalized(src, out)
    ensures MoviesNormalized(out, out)
  {
  }

  /** The book slot is fully determined by the provider's response. */
  lemma BooksNormalizedUnique(src: GoodreadsResponse, a: GoodreadsResponse, b: GoodreadsResponse)
    requires BooksNormalized(src, a) && BooksNormalized(src, b)
    ensures a == b
  {
  }

  /** Normalising the book slot a second time changes nothing. */
  lemma BooksNormalizedStable(src: GoodreadsResponse, out: GoodreadsResponse)
    requires BooksNormalized(src, out)
    ensures BooksNormalized(out, out)
  {
  }
}
