/**
 * `Search` of the newer revision (handlers.go), where the album response
 * nests its albums as `Albums.Items`, and the `spotifyImage` helper the
 * search page uses. As in the older revision, the goroutines are run one
 * after the other; each writes only its own named result.
 */
module SearchService {
  import opened Catalog
  import Truncation

  datatype Image = Image(URL: string, Details: Details)
  datatype Album = Album(Name: string, Images: seq<Image>, Details: Details)
  datatype AlbumPage = AlbumPage(Items: seq<Album>, Details: Details)
  datatype SearchAlbumsResponse = SearchAlbumsResponse(Albums: AlbumPage, Details: Details)

  /** `out` is `src` with only each item's name shortened; items keep count, order and images. */
  ghost predicate AlbumsNormalized(src: SearchAlbumsResponse, out: SearchAlbumsResponse) {
    && out.Details == src.Details
    && out.Albums.Details == src.Albums.Details
    && |out.Albums.Items| == |src.Albums.Items|
    && forall i :: 0 <= i < |src.Albums.Items| ==>
         && out.Albums.Items[i].Name == ShortTitle(src.Albums.Items[i].Name)
         && out.Albums.Items[i].Images == src.Albums.Items[i].Images
         && out.Albums.Items[i].Details == src.Albums.Items[i].Details
  }

  /** The album goroutine: an error is only logged; each item is rewritten in place, then stored in `s`. */
  method AlbumBranch(albums: Reply<SearchAlbumsResponse>) returns (s: SearchAlbumsResponse, log: set<LogLine>)
    ensures AlbumsNormalized(albums.value, s)
    ensures log == Logged(Spotify, albums.err)
  {
    log := Logged(Spotify, albums.err);
    var src := albums.value.Albums.Items;
    var resp := albums.value;
    for i := 0 to |resp.Albums.Items|
      invariant resp.Details == albums.value.Details
      invariant resp.Albums.Details == albums.value.Albums.Details
      invariant |resp.Albums.Items| == |src|
      invariant forall k :: 0 <= k < i ==>
        && resp.Albums.Items[k].Name == ShortTitle(src[k].Name)
        && resp.Albums.Items[k].Images == src[k].Images
        && resp.Albums.Items[k].Details == src[k].Details
      invariant forall k :: i <= k < |src| ==> resp.Albums.Items[k] == src[k]
    {
      var a := resp.Albums.Items[i];
      a := a.(Name := Truncation.Truncate(a.Name, Ellipsis, TitleLimit));
      resp := resp.(Albums := resp.Albums.(Items := resp.Albums.Items[i := a]));
    }
    s := resp;
  }

  /**
   * Runs the three branches on the providers' replies. No error is returned:
   * a failing provider only adds a line to `log`, and its slot is built from
   * whatever value it returned.
   */
  method Search(movies: Reply<seq<Movie>>, books: Reply<GoodreadsResponse>, albums: Reply<SearchAlbumsResponse>)
    returns (m: seq<Movie>, g: GoodreadsResponse, s: SearchAlbumsResponse, log: set<LogLine>)
    ensures MoviesNormalized(movies.value, m)
    ensures BooksNormalized(books.value, g)
    ensures AlbumsNormalized(albums.value, s)
    ensures log == Logged(RottenTomatoes, movies.err) + Logged(Goodreads, books.err) + Logged(Spotify, albums.err)
  {
    var lm, lg, ls;
    m, lm := MovieBranch(movies);
    g, lg := BookBranch(books);
    s, ls := AlbumBranch(albums);
    log := lm + lg + ls;
  }

  /** The album slot is fully determined by the provider's response. */
  lemma AlbumsNormalizedUnique(src: SearchAlbumsResponse, a: SearchAlbumsResponse, b: SearchAlbumsResponse)
    requires AlbumsNormalized(src, a) && AlbumsNormalized(src, b)
    ensures a == b
  {
  }

  /** Normalising the album slot a second time changes nothing. */
  lemma AlbumsNormalizedStable(src: SearchAlbumsResponse, out: SearchAlbumsResponse)
    requires AlbumsNormalized(src, out)
    ensures AlbumsNormalized(out, out)
  {
  }

  /** The template helper `spotifyImage`: the URL of the album's last image, or "" when it has none. */
  function SpotifyImage(album: Album): (url: string)
    ensures |album.Images| == 0 ==> url == ""
    ensures |album.Images| > 0 ==> url == album.Images[|album.Images| - 1].URL
  {
    if |album.Images| > 0 then album.Images[|album.Images| - 1].URL else ""
  }

  /** Shortening album names never changes which image the search page shows for an album. */
  lemma NormalizedAlbumsKeepImage(src: SearchAlbumsResponse, out: SearchAlbumsResponse, i: nat)
    requires AlbumsNormalized(src, out) && i < |src.Albums.Items|
    ensures SpotifyImage(out.Albums.Items[i]) == SpotifyImage(src.Albums.Items[i])
  {
  }
}
