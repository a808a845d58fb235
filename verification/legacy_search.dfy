/**
 * `Search` of the older revision (main.go): movies from Rotten Tomatoes, books
 * from Goodreads, albums from Spotify, where the album response holds its
 * albums directly in `Albums`.
 *
 * The three goroutines and the WaitGroup are run one after the other: each
 * goroutine writes only its own named result (`m`, `g`, `s`), so the order of
 * the three makes no difference to what `Search` returns.
 */
module LegacySearch {
  import opened Catalog
  import Truncation

  datatype Album = Album(Name: string, Details: Details)
  datatype SearchAlbumsResponse = SearchAlbumsResponse(Albums: seq<Album>, Details: Details)

  /** `out` is `src` with only each album's name shortened; albums keep count and order. */
  ghost predicate AlbumsNormalized(src: SearchAlbumsResponse, out: SearchAlbumsResponse) {
    && out.Details == src.Details
    && |out.Albums| == |src.Albums|
    && forall i :: 0 <= i < |src.Albums| ==>
         out.Albums[i].Name == ShortTitle(src.Albums[i].Name) && out.Albums[i].Details == src.Albums[i].Details
  }

  /** The album goroutine: an error is only logged; each album is rewritten in place, then stored in `s`. */
  method AlbumBranch(albums: Reply<SearchAlbumsResponse>) returns (s: SearchAlbumsResponse, log: set<LogLine>)
    ensures AlbumsNormalized(albums.value, s)
    ensures log == Logged(Spotify, albums.err)
  {
    log := Logged(Spotify, albums.err);
    var src := albums.value.Albums;
    var resp := albums.value;
    for i := 0 to |resp.Albums|
      invariant resp.Details == albums.value.Details
      invariant |resp.Albums| == |src|
      invariant forall k :: 0 <= k < i ==>
        resp.Albums[k].Name == ShortTitle(src[k].Name) && resp.Albums[k].Details == src[k].Details
      invariant forall k :: i <= k < |src| ==> resp.Albums[k] == src[k]
    {
      var a := resp.Albums[i];
      a := a.(Name := Truncation.Truncate(a.Name, Ellipsis, TitleLimit));
      resp := resp.(Albums := resp.Albums[i := a]);
    }
    s := resp;
  }

  /**
   * Runs the three branches on the providers' replies. No error is returned:
   * a failing provider only adds a line to `log`, and its slot is built from
   * whatever value it returned, exactly as a successful one.
   */
  method Search(movies: Reply<seq<Movie>>, books: Reply<GoodreadsResponse>, albums: Reply<SearchAlbumsResponse>)
    returns (m: seq<Movie>, g: GoodreadsResponse, s: SearchAlbumsResponse, log: set<LogLine>)
    ensures MoviesNormalized(movies.value, m)
    ensures BooksNormalized(books.value, g)
    ensures AlbumsNormalized(albums.value, s)
    ensures log == Logged(RottenTomatoes, movies.err) + Logged(Goodreads, books.err) + Logged(Spotify, albums.err)
  {
    var lm, lg, ls;
    m, lm := MovieBranch(movies);
    g, lg := BookBranch(books);
    s, ls := AlbumBranch(albums);
    log := lm + lg + ls;
  }

  /** The album slot is fully determined by the provider's response. */
  lemma AlbumsNormalizedUnique(src: SearchAlbumsResponse, a: SearchAlbumsResponse, b: SearchAlbumsResponse)
    requires AlbumsNormalized(src, a) && AlbumsNormalized(src, b)
    ensures a == b
  {
  }

  /** Normalising the album slot a second time changes nothing. */
  lemma AlbumsNormalizedStable(src: SearchAlbumsResponse, out: SearchAlbumsResponse)
    requires AlbumsNormalized(src, out)
    ensures AlbumsNormalized(out, out)
  {
  }
}
