/**
 * The saved list of the newer revision (utils.go): one flat list of entries,
 * each tagged with its media type, and the list work inside `insertEntry`,
 * `buildEntryMap` and `removeEntry`. Reading and writing the JSON file around
 * them is not part of this model: each operation takes the list as read and
 * gives back the list that would be written.
 */
module EntryStore {
  import opened Base
  import Uuid

  /** `Entry{ID, Title, Link, ImageURL, Type}`; the parsed image URL is kept as an opaque string. */
  datatype Entry = Entry(ID: string, Title: string, Link: string, ImageURL: string, Type: string)

  // ---------------------------------------------------------------- insertEntry

  /** The list update of `insertEntry`: the old list, untouched, then one new entry with a fresh ID. */
  function InsertEntry(entries: seq<Entry>, random: seq<Byte>, title: string, link: string,
                       imageURL: string, mediaType: string): (r: seq<Entry>)
    requires |random| == 16
    ensures |r| == |entries| + 1 && r[..|entries|] == entries
    ensures r[|entries|] == Entry(Uuid.Format(random), title, link, imageURL, mediaType)
  {
    entries + [Entry(Uuid.Format(random), title, link, imageURL, mediaType)]
  }

  // ---------------------------------------------------------------- buildEntryMap

  /**
   * The entries whose type has the key `k` under `title` (the program uses
   * `strings.Title`, which is a parameter here), in input order.
   */
  function Bucket(entries: seq<Entry>, title: string -> string, k: string): (r: seq<Entry>)
    ensures |r| <= |entries|
  {
    if entries == [] then []
    else
      var last := entries[|entries| - 1];
      Bucket(entries[..|entries| - 1], title, k) + (if title(last.Type) == k then [last] else [])
  }

  function KeysOf(entries: seq<Entry>, title: string -> string): set<string> {
    set e | e in entries :: title(e.Type)
  }

  /** The number of entries held in all buckets together. */
  ghost function TotalSize(m: map<string, seq<Entry>>): nat
    decreases |m.Keys|
  {
    if m.Keys == {} then 0
    else
      var k :| k in m;
      assert (m - {k}).Keys == m.Keys - {k};
      |m[k]| + TotalSize(m - {k})
  }

  lemma {:induction false} TotalSizeRemove(m: map<string, seq<Entry>>, k: string)
    requires k in m
    ensures TotalSize(m) == |m[k]| + TotalSize(m - {k})
    decreases |m.Keys|
  {
    var j :| j in m && TotalSize(m) == |m[j]| + TotalSize(m - {j});
    if j != k {
      var mj, mk := m - {j}, m - {k};
      RemoveTwo(m, j, k);
      TotalSizeRemove(mj, k);
      TotalSizeRemove(mk, j);
    }
  }

  /** Map facts for removing two distinct keys in either order. */
  lemma RemoveTwo(m: map<string, seq<Entry>>, j: string, k: string)
    requires j in m && k in m && j != k
    ensures |(m - {j}).Keys| < |m.Keys| && |(m - {k}).Keys| < |m.Keys|
    ensures k in m - {j} && (m - {j})[k] == m[k]
    ensures j in m - {k} && (m - {k})[j] == m[j]
    ensures m - {j} - {k} == m - {k} - {j}
  {
    assert (m - {j}).Keys == m.Keys - {j};
    assert (m - {k}).Keys == m.Keys - {k};
  }

  /** `m[k] = append(m[k], e)` adds exactly one to the total, whether or not `k` was present. */
  lemma TotalSizeAppend(m: map<string, seq<Entry>>, k: string, e: Entry)
    ensures TotalSize(m[k := (if k in m then m[k] else []) + [e]]) == TotalSize(m) + 1
  {
    var m' := m[k := (if k in m then m[k] else []) + [e]];
    TotalSizeRemove(m', k);
    assert m' - {k} == m - {k};
    if k in m {
      TotalSizeRemove(m, k);
    } else {
      assert m - {k} == m;
    }
  }

  /** `m` holds the buckets of `entries`, one per key that occurs, none empty. */
  ghost predicate Groups(m: map<string, seq<Entry>>, entries: seq<Entry>, title: string -> string) {
    && m.Keys == KeysOf(entries, title)
    && (forall k :: k in m ==> m[k] == Bucket(entries, title, k))
    && (forall k :: k in m ==> m[k] != [])
  }

  lemma GroupsStep(m: map<string, seq<Entry>>, entries: seq<Entry>, i: nat, title: string -> string)
    requires i < |entries| && Groups(m, entries[..i], title)
    ensures var e := entries[i]; var k := title(e.Type);
            Groups(m[k := (if k in m then m[k] else []) + [e]], entries[..i + 1], title)
  {
    assert entries[..i + 1] == entries[..i] + [entries[i]];
    GroupsSnoc(m, entries[..i], entries[i], title);
  }

  /** Appending `e` to its bucket keeps `m` the grouping of the list with `e` at the end. */
  lemma GroupsSnoc(m: map<string, seq<Entry>>, pre: seq<Entry>, e: Entry, title: string -> string)
    requires Groups(m, pre, title)
    ensures var k := title(e.Type);
            Groups(m[k := (if k in m then m[k] else []) + [e]], pre + [e], title)
  {
    var k := title(e.Type);
    var m' := m[k := (if k in m then m[k] else []) + [e]];
    KeysOfSnoc(pre, e, title);
    assert m'.Keys == KeysOf(pre + [e], title);
    forall k' | k' in m' ensures m'[k'] == Bucket(pre + [e], title, k') {
      GroupsStepKey(m, pre, e, title, k');
    }
    forall k' | k' in m' ensures m'[k'] != [] {
      if k' != k {
        assert m'[k'] == m[k'];
      }
    }
  }

  /** One bucket of the map after `m[k] = append(m[k], e)`. */
  lemma GroupsStepKey(m: map<string, seq<Entry>>, pre: seq<Entry>, e: Entry, title: string -> string, k': string)
    requires Groups(m, pre, title)
    requires k' in m || k' == title(e.Type)
    ensures var k := title(e.Type);
            m[k := (if k in m then m[k] else []) + [e]][k'] == Bucket(pre + [e], title, k')
  {
    var k := title(e.Type);
    BucketSnoc(pre, e, title, k');
    if k' == k && k !in m {
      BucketNonEmptyIff(pre, title, k);
    }
  }

  lemma KeysOfSnoc(entries: seq<Entry>, e: Entry, title: string -> string)
    ensures KeysOf(entries + [e], title) == KeysOf(entries, title) + {title(e.Type)}
  {
  }

  lemma BucketSnoc(entries: seq<Entry>, e: Entry, title: string -> string, k: string)
    ensures Bucket(entries + [e], title, k) == Bucket(entries, title, k) + (if title(e.Type) == k then [e] else [])
  {
  }

  /**
   * `buildEntryMap`: groups the entries by the title-cased type. Every key
   * comes from some entry, so no bucket is empty; each bucket keeps input
   * order; and the buckets hold exactly as many entries as the input.
   */
  method BuildEntryMap(entries: seq<Entry>, title: string -> string) returns (m: map<string, seq<Entry>>)
    ensures m.Keys == KeysOf(entries, title)
    ensures forall k :: k in m ==> m[k] == Bucket(entries, title, k)
    ensures forall k :: k in m ==> m[k] != []
    ensures TotalSize(m) == |entries|
  {
    m := map[];
    for i := 0 to |entries|
      invariant Groups(m, entries[..i], title)
      invariant TotalSize(m) == i
    {
      var e := entries[i];
      var k := title(e.Type);
      GroupsStep(m, entries, i, title);
      TotalSizeAppend(m, k, e);
      m := m[k := (if k in m then m[k] else []) + [e]];
    }
    assert entries[..|entries|] == entries;
  }

  /** A bucket is non-empty exactly when some entry has its key. */
  lemma {:induction false} BucketNonEmptyIff(entries: seq<Entry>, title: string -> string, k: string)
    ensures Bucket(entries, title, k) != [] <==> k in KeysOf(entries, title)
  {
    if entries != [] {
      var init := entries[..|entries| - 1];
      var last := entries[|entries| - 1];
      BucketNonEmptyIff(init, title, k);
      assert entries == init + [last];
      assert KeysOf(entries, title) == KeysOf(init, title) + {title(last.Type)};
    }
  }

  /** An entry is in bucket `k` exactly when it is an input entry whose type has key `k`. */
  lemma {:induction false} BucketMembers(entries: seq<Entry>, title: string -> string, k: string, e: Entry)
    ensures e in Bucket(entries, title, k) <==> e in entries && title(e.Type) == k
  {
    if entries != [] {
      var init := entries[..|entries| - 1];
      var last := entries[|entries| - 1];
      BucketMembers(init, title, k, e);
      assert entries == init + [last];
    }
  }

  /** Grouping commutes with concatenation: each bucket lists its entries in input order. */
  lemma {:induction false} BucketAppend(a: seq<Entry>, b: seq<Entry>, title: string -> string, k: string)
    ensures Bucket(a + b, title, k) == Bucket(a, title, k) + Bucket(b, title, k)
    decreases |b|
  {
    if b == [] {
      assert a + b == a;
    } else {
      var init := b[..|b| - 1];
      var last := b[|b| - 1];
      assert (a + b)[..|a + b| - 1] == a + init;
      assert (a + b)[|a + b| - 1] == last;
      BucketAppend(a, init, title, k);
    }
  }

  // ---------------------------------------------------------------- removeEntry

  /** How `removeEntry` ends: with the list to write back, or with a run-time panic. */
  datatype Removal = Removed(entries: seq<Entry>) | Panicked

  /**
   * `append(entries[:i], entries[i+1:]...)` on a backing array `buf` whose
   * live part is `buf[..n]`: the live elements after `i` move down by one
   * place, in place; the slot after the new end keeps its old value.
   */
  function CloseGap(buf: seq<Entry>, i: nat, n: nat): (r: seq<Entry>)
    requires i < n <= |buf|
    ensures |r| == |buf|
    ensures forall j :: 0 <= j < i ==> r[j] == buf[j]
    ensures forall j :: i <= j < n - 1 ==> r[j] == buf[j + 1]
    ensures forall j :: n - 1 <= j < |buf| ==> r[j] == buf[j]
  {
    buf[..i] + buf[i + 1..n] + buf[n - 1..]
  }

  /**
   * The `for i, e := range entries` loop from iteration `i` on. The range
   * runs over the ORIGINAL slice header, so `i` goes up to `|buf|` while the
   * variable `entries` is `buf[..n]` and shrinks with each removal; `e` is
   * read from the shared backing array. Slicing `entries[i+1:]` panics once
   * `i + 1 > n`.
   */
  function RemoveLoop(buf: seq<Entry>, n: nat, i: nat, id: string): Removal
    requires n <= |buf| && i <= |buf|
    decreases |buf| - i
  {
    if i == |buf| then Removed(buf[..n])
    else if buf[i].ID != id then RemoveLoop(buf, n, i + 1, id)
    else if i + 1 > n then Panicked
    else RemoveLoop(CloseGap(buf, i, n), n - 1, i + 1, id)
  }

  /** One iteration of the loop in `removeEntry`. */
  lemma RemoveLoopStep(buf: seq<Entry>, n: nat, i: nat, id: string)
    requires n <= |buf| && i < |buf|
    ensures buf[i].ID != id ==> RemoveLoop(buf, n, i, id) == RemoveLoop(buf, n, i + 1, id)
    ensures buf[i].ID == id && i + 1 <= n ==>
              RemoveLoop(buf, n, i, id) == RemoveLoop(CloseGap(buf, i, n), n - 1, i + 1, id)
    ensures buf[i].ID == id && i + 1 > n ==> RemoveLoop(buf, n, i, id) == Panicked
  {
  }

  /** What `removeEntry(id)` does to the list it read. */
  function RemoveSpec(entries: seq<Entry>, id: string): Removal {
    RemoveLoop(entries, |entries|, 0, id)
  }

  lemma {:induction false} RemoveLoopNoMatch(buf: seq<Entry>, n: nat, i: nat, id: string)
    requires n <= |buf| && i <= |buf|
    requires forall k :: i <= k < |buf| ==> buf[k].ID != id
    ensures RemoveLoop(buf, n, i, id) == Removed(buf[..n])
    decreases |buf| - i
  {
    if i < |buf| {
      RemoveLoopNoMatch(buf, n, i + 1, id);
    }
  }

  lemma {:induction false} RemoveLoopSkip(buf: seq<Entry>, n: nat, i: nat, j: nat, id: string)
    requires n <= |buf| && i <= j <= |buf|
    requires forall k :: i <= k < j ==> buf[k].ID != id
    ensures RemoveLoop(buf, n, i, id) == RemoveLoop(buf, n, j, id)
    decreases j - i
  {
    if i < j {
      RemoveLoopSkip(buf, n, i + 1, j, id);
    }
  }

  /** With no entry carrying `id`, the list is written back unchanged. */
  lemma RemoveNoMatch(entries: seq<Entry>, id: string)
    requires forall k :: 0 <= k < |entries| ==> entries[k].ID != id
    ensures RemoveSpec(entries, id) == Removed(entries)
  {
    RemoveLoopNoMatch(entries, |entries|, 0, id);
  }

  /** After the only match at `j` is removed, the loop finds no match from `j + 1` on, stale slot included. */
  lemma CloseGapLeavesNoMatch(entries: seq<Entry>, id: string, j: nat)
    requires j < |entries|
    requires forall k :: 0 <= k < |entries| && k != j ==> entries[k].ID != id
    ensures forall k :: j + 1 <= k < |entries| ==> CloseGap(entries, j, |entries|)[k].ID != id
  {
  }

  /** With exactly one entry carrying `id`, exactly that entry is removed and the rest keep their order. */
  lemma RemoveUnique(entries: seq<Entry>, id: string, j: nat)
    requires j < |entries| && entries[j].ID == id
    requires forall k :: 0 <= k < |entries| && k != j ==> entries[k].ID != id
    ensures RemoveSpec(entries, id) == Removed(entries[..j] + entries[j + 1..])
    ensures |RemoveSpec(entries, id).entries| == |entries| - 1
  {
    var n := |entries|;
    RemoveLoopSkip(entries, n, 0, j, id);
    var buf := CloseGap(entries, j, n);
    CloseGapLeavesNoMatch(entries, id, j);
    RemoveLoopNoMatch(buf, n - 1, j + 1, id);
    assert buf[..n - 1] == entries[..j] + entries[j + 1..];
  }

  /**
   * Go's loop with two entries that share the ID: the first removal moves the
   * second one down to index 0, the loop goes on at index 1, reads the stale
   * copy left there, and `entries[2:]` on a one-element slice panics.
   */
  lemma DuplicatePairPanics(x: Entry, y: Entry)
    requires x.ID == y.ID
    ensures RemoveSpec([x, y], x.ID) == Panicked
  {
    var buf := CloseGap([x, y], 0, 2);
    assert buf == [y, y];
    assert RemoveLoop([x, y], 2, 0, x.ID) == RemoveLoop(buf, 1, 1, x.ID);
  }

  /** Go's loop skips the element just moved into the removed one's place, so a duplicate survives. */
  lemma DuplicateSurvives(x: Entry, y: Entry, z: Entry)
    requires x.ID == y.ID && z.ID != x.ID
    ensures RemoveSpec([x, y, z], x.ID) == Removed([y, z])
  {
    var buf := CloseGap([x, y, z], 0, 3);
    assert buf == [y, z, z];
    assert RemoveLoop([x, y, z], 3, 0, x.ID) == RemoveLoop(buf, 2, 1, x.ID);
    assert RemoveLoop(buf, 2, 1, x.ID) == RemoveLoop(buf, 2, 2, x.ID);
    assert buf[..2] == [y, z];
  }

  /** The removal the code evidently intends: every entry carrying `id` goes, the rest keep their order. */
  function Without(entries: seq<Entry>, id: string): (r: seq<Entry>)
    ensures |r| <= |entries|
    ensures forall e :: e in r <==> e in entries && e.ID != id
  {
    if entries == [] then []
    else (if entries[0].ID == id then [] else [entries[0]]) + Without(entries[1..], id)
  }

  lemma {:induction false} WithoutAppend(a: seq<Entry>, b: seq<Entry>, id: string)
    ensures Without(a + b, id) == Without(a, id) + Without(b, id)
  {
    if a == [] {
      assert a + b == b;
    } else {
      assert (a + b)[0] == a[0];
      assert (a + b)[1..] == a[1..] + b;
      WithoutAppend(a[1..], b, id);
    }
  }

  lemma {:induction false} WithoutNoMatch(entries: seq<Entry>, id: string)
    requires forall k :: 0 <= k < |entries| ==> entries[k].ID != id
    ensures Without(entries, id) == entries
  {
    if entries != [] {
      WithoutNoMatch(entries[1..], id);
      assert entries == [entries[0]] + entries[1..];
    }
  }

  lemma WithoutUnique(entries: seq<Entry>, id: string, j: nat)
    requires j < |entries| && entries[j].ID == id
    requires forall k :: 0 <= k < |entries| && k != j ==> entries[k].ID != id
    ensures Without(entries, id) == entries[..j] + entries[j + 1..]
  {
    var pre, post := entries[..j], entries[j + 1..];
    assert entries == pre + ([entries[j]] + post);
    WithoutAppend(pre, [entries[j]] + post, id);
    assert Without([entries[j]] + post, id) == Without(post, id);
    WithoutNoMatch(pre, id);
    WithoutNoMatch(post, id);
  }

  /** When at most one entry carries `id` (IDs come from `uuid`), the code as written does the intended removal. */
  lemma RemoveAgreesWhenIdsUnique(entries: seq<Entry>, id: string)
    requires forall a, b :: 0 <= a < b < |entries| && entries[a].ID == id ==> entries[b].ID != id
    ensures RemoveSpec(entries, id) == Removed(Without(entries, id))
  {
    if j :| 0 <= j < |entries| && entries[j].ID == id {
      RemoveUnique(entries, id, j);
      WithoutUnique(entries, id, j);
    } else {
      RemoveNoMatch(entries, id);
      WithoutNoMatch(entries, id);
    }
  }

  /** Removing the ID a save just generated gives back the list as it was before the save. */
  lemma RemoveUndoesInsert(entries: seq<Entry>, random: seq<Byte>, title: string, link: string,
                           imageURL: string, mediaType: string)
    requires |random| == 16
    requires forall k :: 0 <= k < |entries| ==> entries[k].ID != Uuid.Format(random)
    ensures RemoveSpec(InsertEntry(entries, random, title, link, imageURL, mediaType), Uuid.Format(random))
            == Removed(entries)
  {
    var r := InsertEntry(entries, random, title, link, imageURL, mediaType);
    RemoveUnique(r, Uuid.Format(random), |entries|);
    assert r[..|entries|] + r[|entries| + 1..] == entries;
  }

  /** `append` into `entries[:i]` in place: copies `entries[i+1:n]` one place down. */
  method CloseGapInPlace(buf: array<Entry>, i: nat, n: nat)
    requires i < n <= buf.Length
    modifies buf
    ensures buf[..] == CloseGap(old(buf[..]), i, n)
  {
    var k := i;
    while k < n - 1
      invariant i <= k <= n - 1
      invariant forall j :: 0 <= j < k ==> buf[j] == old(if j < i then buf[j] else buf[j + 1])
      invariant forall j :: k <= j < buf.Length ==> buf[j] == old(buf[j])
    {
      buf[k] := buf[k + 1];
      k := k + 1;
    }
    assert buf[..] == CloseGap(old(buf[..]), i, n);
  }

  /**
   * `removeEntry`'s loop over the entries as read, `buf` being the slice's
   * backing array: on return `buf[..n]` is the list written back, unless the
   * loop panicked (`ok` false).
   */
  method RemoveEntry(buf: array<Entry>, id: string) returns (n: nat, ok: bool)
    modifies buf
    ensures n <= buf.Length
    ensures RemoveSpec(old(buf[..]), id) == if ok then Removed(buf[..n]) else Panicked
  {
    n := buf.Length;
    ok := true;
    for i := 0 to buf.Length
      invariant n <= buf.Length
      invariant RemoveLoop(buf[..], n, i, id) == RemoveSpec(old(buf[..]), id)
    {
      ghost var before := buf[..];
      assert before[i] == buf[i];
      RemoveLoopStep(before, n, i, id);
      if buf[i].ID == id {
        if i + 1 > n {
          ok := false;
          return;
        }
        CloseGapInPlace(buf, i, n);
        assert buf[..] == CloseGap(before, i, n);
        n := n - 1;
      }
    }
  }
}
