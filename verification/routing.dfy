/**
 * The search route of the newer revision (handlers.go): `validSearchPath`,
 * the pattern `^/search/(.*)$`, and `makeSearchHandler`, which calls the
 * wrapped handler with the captured group or answers "404 Not Found".
 *
 * In Go's regexp syntax `.` matches any character except a newline and,
 * without the multi-line flag, `$` matches only at the end of the text, so
 * the pattern matches exactly the paths that start with "/search/" and have
 * no newline after it; the group is that remainder. A newline byte never
 * occurs inside a multi-byte UTF-8 character, so checking bytes is exact.
 */
module Routing {
  import opened Base

  const SearchPrefix: string := "/search/"

  /** `validSearchPath.FindStringSubmatch(path)`: the captured group when the path matches. */
  function MatchSearchPath(path: string): (query: Option<string>)
    ensures query.Some? ==> path == SearchPrefix + query.value && '\n' !in query.value
  {
    var n := |SearchPrefix|;
    if |path| >= n && path[..n] == SearchPrefix && '\n' !in path[n..] then Some(path[n..]) else None
  }

  /** Every "/search/" path without a newline matches, and the group is all of the rest. */
  lemma MatchSearchPathComplete(rest: string)
    requires '\n' !in rest
    ensures MatchSearchPath(SearchPrefix + rest) == Some(rest)
  {
  }

  /** A path that does not start with "/search/" never matches. */
  lemma MatchSearchPathNeedsPrefix(path: string)
    requires |path| < |SearchPrefix| || path[..|SearchPrefix|] != SearchPrefix
    ensures MatchSearchPath(path) == None
  {
  }

  /** What the wrapper does with a request: call the search handler with a query, or answer NotFound. */
  datatype Outcome = NotFound | Delegated(query: string)

  /** The handler `makeSearchHandler(fn)` returns, applied to a request whose URL path is `path`. */
  function SearchRoute(path: string): (r: Outcome)
    ensures r.NotFound? <==> MatchSearchPath(path).None?
    ensures r.Delegated? ==> path == SearchPrefix + r.query && '\n' !in r.query
  {
    match MatchSearchPath(path)
    case None => NotFound
    case Some(q) => Delegated(q)
  }

  /** The wrapped handler receives exactly what follows "/search/". */
  lemma SearchRouteDelegates(rest: string)
    requires '\n' !in rest
    ensures SearchRoute(SearchPrefix + rest) == Delegated(rest)
  {
  }
}
