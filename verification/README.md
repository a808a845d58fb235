# wrl search and saved-list core, in Dafny

wrl ("watch, read, listen") is a small Go web app. It searches three catalogs
for one query: Rotten Tomatoes for movies, Goodreads for books and Spotify for
albums. It shows the combined results on one page and keeps a list of saved
items in a JSON file. This project models the parts of the app that compute
values rather than talk to the outside world:

- `truncate`, which shortens every displayed title to 60 bytes plus `"..."`;
- the three branches of `Search`. Each branch takes one provider's reply,
  shortens the titles in it, and stores the result in its own slot. An error
  from a provider is only logged;
- the ID string that `uuid` builds from 16 random bytes;
- the saved-list updates: `insertEntry`, `buildEntryMap` and `removeEntry`;
- the search route `^/search/(.*)$` and the `spotifyImage` template helper.

The repository holds two revisions of the same `package main`. The older one is
`main.go`; the newer one is split into `handlers.go` and `utils.go`. They are
modelled as separate modules:

| module | file | models |
|---|---|---|
| `Base` | base.dfy | `Option`, Go's `byte` |
| `Truncation` | truncation.dfy | `truncate`. Its body is the same in main.go and utils.go |
| `Uuid` | uuid.dfy | the string formatting in `uuid`. Its body is the same in main.go and utils.go |
| `Catalog` | catalog.dfy | the movie and book branches of `Search`. Their code is the same in both revisions up to the log call and the provider package |
| `LegacySearch` | legacy_search.dfy | main.go's `Search` and its album branch (`Albums`) |
| `LegacyEntries` | legacy_entries.dfy | main.go's `insertEntry` list update (`switch` on the media type) |
| `SearchService` | search_service.dfy | handlers.go's `Search`, its album branch (`Albums.Items`) and `spotifyImage` |
| `Routing` | routing.dfy | handlers.go's `validSearchPath` and `makeSearchHandler` |
| `EntryStore` | entry_store.dfy | utils.go's `insertEntry` list update, `buildEntryMap` and `removeEntry` |

Modelling choices:

- Strings are `seq<char>`, one `char` per byte of the Go string. Go's `len` and
  slicing count bytes, so lengths and cut points agree with Go's.
- Each provider call `Search…(q)` is a network request. Its outcome, Go's
  `(value, err)` pair, is a parameter of type `Reply`.
- Printed error lines are returned as a `set<LogLine>`. It is a set because the
  goroutines print in no fixed order.
- The goroutines run one after the other. This is exact, because each goroutine
  writes only its own named result (`m`, `g` or `s`).
- Each branch's result is described by a predicate: `MoviesNormalized`,
  `BooksNormalized` or `AlbumsNormalized`. Each one says that the slot has the
  provider's items, in the same count and order, with only the title field
  shortened. The `…Unique` lemmas show that this determines the slot completely.
  So a slot depends on nothing except its own provider's value: not on errors,
  and not on the other providers.
- `removeEntry` is modelled as the Go code runs it, on the slice's backing array.
  The `range` loop uses the original length, while the variable `entries`
  shrinks after each removal.

Two details of the code that the model follows:

- A failing provider's slot is not emptied. The error is only printed, and the
  slot is built from whatever value the provider returned, exactly as in the
  success case (main.go:157-163, handlers.go:32-38). The slot is empty only
  when the provider returned an empty value together with the error.
- Titles are cut at 60 bytes, because Go's `len` and slicing count bytes.

## Model

| member | source | states |
|---|---|---|
| `Truncation.Truncate` | main.go:142-147 | A string shorter than the limit comes back unchanged. Otherwise the result is the first `l` bytes followed by the suffix: exactly `l + len(suf)` long. The prefix is cut; the final length is not capped |
| `Truncation.TruncateIdempotent` | main.go:142-147 | Truncating a truncated string again, with the same suffix and limit, changes nothing |
| `Truncation.TruncateUnchangedIff` | utils.go:132-138 | The result equals the input exactly when the input is shorter than the limit, or its tail after `l` bytes already is the suffix |
| `Uuid.Hex` | utils.go:82 | `%x` of a byte slice: two characters per byte, all lowercase hex digits |
| `Uuid.Format` | main.go:98 | 16 bytes become a 36-character string with `'-'` at indices 8, 13, 18 and 23, and lowercase hex digits everywhere else (groups of 8-4-4-4-12) |
| `Uuid.ParseFormat` | utils.go:79-82 | Reading the hex groups back recovers the 16 bytes, so no information is lost |
| `Uuid.FormatParse` | utils.go:82 | The only strings the parser accepts are the ones `Format` produces |
| `Uuid.FormatInjective` | utils.go:74-85 | Different random bytes always give different IDs |
| `Catalog.MovieBranch` | main.go:154-164 | The movie slot `m` has the provider's movies, in the same count and order. Each title is shortened to 60 bytes plus `"..."`; no other field changes. An error only adds one log line for Rotten Tomatoes |
| `Catalog.BookBranch` | handlers.go:40-51 | The book slot `g` is the provider's response with only `Search.Works[i].BestBook.Title` shortened; works keep their count and order. An error only adds one log line for Goodreads |
| `Catalog.MoviesNormalizedUnique` | handlers.go:35-38 | The movie slot is determined by the provider's list alone |
| `Catalog.MoviesNormalizedStable` | main.go:160-163 | Shortening the titles of the movie slot a second time changes nothing |
| `Catalog.BooksNormalizedUnique` | main.go:171-175 | The book slot is determined by the provider's response alone |
| `Catalog.BooksNormalizedStable` | handlers.go:46-50 | Shortening the titles of the book slot a second time changes nothing |
| `LegacySearch.AlbumBranch` | main.go:177-188 | The album slot `s` is the provider's response with only each `Albums[i].Name` shortened; albums keep their count and order. An error only adds one log line for Spotify |
| `LegacySearch.Search` | main.go:151-191 | Each slot is its own branch's result, built from its own provider's value only. No error is returned. The log holds exactly one line per failing provider |
| `LegacySearch.AlbumsNormalizedUnique` | main.go:183-187 | The album slot is determined by the provider's response alone |
| `LegacySearch.AlbumsNormalizedStable` | main.go:184 | Shortening the album names a second time changes nothing |
| `SearchService.AlbumBranch` | handlers.go:52-63 | The album slot `s` is the provider's response with only each `Albums.Items[i].Name` shortened. Items keep their count, order and images, and the rest of the response is unchanged. An error only adds one log line for Spotify |
| `SearchService.Search` | handlers.go:26-66 | Each slot is its own branch's result, built from its own provider's value only. No error is returned. The log holds exactly one line per failing provider |
| `SearchService.AlbumsNormalizedUnique` | handlers.go:58-62 | The album slot is determined by the provider's response alone |
| `SearchService.AlbumsNormalizedStable` | handlers.go:59 | Shortening the album names a second time changes nothing |
| `SearchService.SpotifyImage` | handlers.go:98-103 | The URL of the album's last image, or `""` when the album has no images |
| `SearchService.NormalizedAlbumsKeepImage` | handlers.go:58-62 | Shortening album names never changes the image shown for an album |
| `Routing.MatchSearchPath` | handlers.go:164 | When the path matches, it is `"/search/"` followed by the captured group, and the group has no newline |
| `Routing.MatchSearchPathComplete` | handlers.go:164 | Every `"/search/" + rest` path where `rest` has no newline matches, and the group is exactly `rest` |
| `Routing.MatchSearchPathNeedsPrefix` | handlers.go:164 | A path that does not start with `"/search/"` never matches |
| `Routing.SearchRoute` | handlers.go:166-175 | The wrapper answers NotFound exactly when the path does not match. Otherwise it calls the wrapped handler with a query such that the path is `"/search/" + query` |
| `Routing.SearchRouteDelegates` | handlers.go:168-173 | For `"/search/" + rest` with no newline in `rest`, the wrapped handler is called with exactly `rest` |
| `LegacyEntries.InsertEntry` | main.go:126-134 | For `"movie"`, `"book"` and `"album"`, exactly one new entry (formatted ID, title, link, image URL) is appended at the end of the matching list, and the other two lists are unchanged. Any other media type changes no list. The total count grows by one exactly for the three known types |
| `EntryStore.InsertEntry` | utils.go:110-111 | The old list, unchanged and in order, followed by exactly one new entry with the formatted ID and the given title, link, image URL and media type |
| `EntryStore.BuildEntryMap` | utils.go:48-55 | The keys are exactly the title-cased types that occur. Each bucket is the input's entries of that key, in input order. No bucket is empty. The bucket sizes sum to the input length |
| `EntryStore.BucketMembers` | utils.go:50-53 | An entry is in bucket `k` exactly when it is an input entry whose title-cased type is `k` |
| `EntryStore.BucketNonEmptyIff` | utils.go:49-53 | A bucket is non-empty exactly when some input entry has its key |
| `EntryStore.BucketAppend` | utils.go:50-53 | Grouping a concatenation gives the concatenation of the groups, so each bucket keeps input order |
| `EntryStore.CloseGap` | utils.go:126 | `append(entries[:i], entries[i+1:]...)` in place: the live elements after `i` move down by one place, and everything else in the backing array stays as it was |
| `EntryStore.CloseGapInPlace` | utils.go:126 | The in-place copy on the array leaves it equal to `CloseGap` of its old contents |
| `EntryStore.RemoveEntry` | utils.go:124-128 | The loop on the backing array ends in the state `RemoveSpec` describes: the list written back, or the panic |
| `EntryStore.RemoveNoMatch` | utils.go:124-129 | With no matching ID, the list is written back unchanged |
| `EntryStore.RemoveUnique` | utils.go:124-128 | With exactly one matching entry, exactly that entry is removed; the others keep their order and the length drops by one |
| `EntryStore.DuplicatePairPanics` | utils.go:124-128 | As written, two entries that share the ID make the loop slice past the length and panic |
| `EntryStore.DuplicateSurvives` | utils.go:124-128 | As written, the entry moved into a removed entry's place is skipped, so a duplicate ID survives |
| `EntryStore.Without` | utils.go:119-130 | The intended removal: the entries left are exactly those whose ID differs, in their original order |
| `EntryStore.RemoveAgreesWhenIdsUnique` | utils.go:119-130 | When at most one entry has the ID, the code as written gives exactly the intended removal |
| `EntryStore.RemoveUndoesInsert` | utils.go:110-128 | Removing the ID that a save just generated gives back the list as it was before the save |

## Left out

- The goroutines and the `sync.WaitGroup` of `Search` are not modelled; the branches run one after the other. Each branch writes only its own result, so the returned values are the same.
- The query string and the provider clients (Rotten Tomatoes, Goodreads, Spotify) are network I/O. Each provider's reply is a parameter instead. The `rt`, `gr` and `sp` client packages are not part of this model. Neither are spotify/spotify.go, an unrelated Spotify client revision whose `SearchAlbums` returns a plain album list, nor imdb/imdb.go, an OMDb/IMDb client that neither revision's `Search` calls.
- The exact text of the printed error lines is not modelled: `fmt.Println` in main.go, and `log.Println` with its timestamp in handlers.go. Neither is their order. The log is the set of (provider, message) pairs.
- In the branches, Go writes each changed work or album back into the slice that the provider's response holds. The model reassigns a sequence instead. That slice belongs to a response value local to the goroutine, and nothing else refers to it, so no aliasing is lost.
- HTTP handlers, templates, the router set-up and `main` are I/O and rendering. This covers main.go:193-280 and handlers.go:68-162, including the `URL` template function.
- File, JSON, YAML and database I/O are not modelled: `writeJSON`, `readEntries`, `parseYAML`, `os.Stat`/`os.Create` and `sql.Open`. Each list operation takes the list as read and returns the list that would be written.
- `uuid` opens and reads `/dev/urandom`. The 16 bytes are a parameter here, and the open error path and the ignored read error are not modelled.
- LegacyEntries.InsertEntry and EntryStore.InsertEntry model only the list update. The error returns of `readEntries`, `url.Parse` and `uuid` that come before it are left out. The parsed image URL is kept as an opaque string.
- `strings.Title` is a parameter of `BuildEntryMap` (any key function). Its Unicode word-casing rules are not modelled.
- `EntryStore.RemoveEntry` returns a panic as an outcome. The HTTP server's recovery from that panic, and the fact that nothing is written back after it, are not modelled beyond that outcome.
- Truncation.Truncate: the limit `l` is a `nat`, so Go's panic in `s[:l]` for a negative limit is not modelled. Every caller passes 60.
- Titles are not decoded as UTF-8. A cut inside a multi-byte character is kept, as Go keeps it.

## Findings

| source | as written | input that shows it | evidently intended | confidence | as-written member | corrected member |
|---|---|---|---|---|---|---|
| utils.go:124-128 | `removeEntry` deletes with `append` while it ranges over the slice. The range keeps the original length, while `entries` shrinks and its elements shift down | Two entries with the same ID: the second removal slices `entries[2:]` of a one-element slice and panics. With `[x, y, z]`, where `x` and `y` share the ID, `y` moves into `x`'s place, is skipped, and survives | Remove every entry with that ID and keep the rest in order | not executed; IDs come from 128 random bits, so duplicates need a hand-edited file | `EntryStore.DuplicatePairPanics` | `EntryStore.Without` |
