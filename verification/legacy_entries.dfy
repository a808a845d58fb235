/**
 * The saved list of the older revision (main.go): one list per media type,
 * and the list update at the end of `insertEntry`, which appends the new
 * entry to the list its media type selects.
 */
module LegacyEntries {
  import opened Base
  import Uuid

  /** `entry{Id, Title, Link, ImageURL}`; the parsed image URL is kept as an opaque string. */
  datatype Entry = Entry(Id: string, Title: string, Link: string, ImageURL: string)

  datatype Entries = Entries(Movies: seq<Entry>, Books: seq<Entry>, Albums: seq<Entry>)

  datatype MediaType = MovieList | BookList | AlbumList

  /** The list a media-type tag from the save form selects, if any. */
  function ListFor(mediaType: string): Option<MediaType> {
    if mediaType == "movie" then Some(MovieList)
    else if mediaType == "book" then Some(BookList)
    else if mediaType == "album" then Some(AlbumList)
    else None
  }

  function ListOf(e: Entries, t: MediaType): seq<Entry> {
    match t
    case MovieList => e.Movies
    case BookList => e.Books
    case AlbumList => e.Albums
  }

  function Count(e: Entries): nat {
    |e.Movies| + |e.Books| + |e.Albums|
  }

  /**
   * The list update of `insertEntry`: the new entry gets the ID formatted from
   * the 16 random bytes, and the `switch` appends it to the matching list. An
   * unknown media type falls through the `switch` and changes nothing.
   */
  method InsertEntry(e: Entries, random: seq<Byte>, title: string, link: string, imageURL: string, mediaType: string)
    returns (r: Entries)
    requires |random| == 16
    ensures forall t :: ListOf(r, t) == (
              if ListFor(mediaType) == Some(t) then ListOf(e, t) + [Entry(Uuid.Format(random), title, link, imageURL)]
              else ListOf(e, t))
    ensures Count(r) == Count(e) + (if ListFor(mediaType).Some? then 1 else 0)
  {
    var entry := Entry(Uuid.Format(random), title, link, imageURL);
    r := e;
    if mediaType == "movie" {
      r := r.(Movies := r.Movies + [entry]);
    } else if mediaType == "book" {
      r := r.(Books := r.Books + [entry]);
    } else if mediaType == "album" {
      r := r.(Albums := r.Albums + [entry]);
    }
  }
}
