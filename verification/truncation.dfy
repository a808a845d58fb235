/**
 * Title truncation, `truncate(s, suf, l)`.
 *
 * A Go string is a sequence of bytes and `len`/slicing count bytes; here each
 * `char` of a `string` stands for one byte, so lengths and cuts agree with Go's.
 * The cut can fall inside a multi-byte UTF-8 character exactly as in Go.
 * Both revisions of the program define this function with the same body.
 */
module Truncation {

  /**
   * Keeps `s` when it is shorter than `l`; otherwise keeps its first `l` bytes
   * and appends `suf`. The limit applies to the kept prefix, not to the final
   * length. Go's `s[:l]` panics for a negative `l`, so `l` is a `nat`.
   */
  function Truncate(s: string, suf: string, l: nat): (r: string)
    ensures |s| < l ==> r == s
    ensures |s| >= l ==> |r| == l + |suf| && r[..l] == s[..l] && r[l..] == suf
  {
    if |s| < l then s else s[..l] + suf
  }

  /** Truncating an already truncated string with the same suffix and limit changes nothing. */
  lemma TruncateIdempotent(s: string, suf: string, l: nat)
    ensures Truncate(Truncate(s, suf, l), suf, l) == Truncate(s, suf, l)
  {
  }

  /** The string comes back unchanged exactly when it is short, or its tail past `l` already is the suffix. */
  lemma TruncateUnchangedIff(s: string, suf: string, l: nat)
    ensures Truncate(s, suf, l) == s <==> (|s| < l || s[l..] == suf)
  {
  }
}
