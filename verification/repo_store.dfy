/** The in-memory store of processed repositories (services/repoStore.ts).

    The store is a value: a sequence of entries in insertion order (the
    iteration order of the source's `Map`, which decides ties when entries
    are sorted by age) with pairwise distinct ids. Every operation takes the
    current time `now` in place of `Date.now()` and returns the new store
    next to its result. */
module RepoStore {
  import opened Wrappers
  import opened Types
  import opened Sorting

  /** How long an entry lives: one hour, in milliseconds. */
  const TTL_MS: int := 60 * 60 * 1000

  /** How many entries eviction leaves at most. */
  const MAX_ENTRIES: nat := 50

  datatype StoredRepo = StoredRepo(repoId: string, repoName: string, chunks: seq<FileChunk>,
                                   summary: RepoSummary, storedAt: int)

  datatype Store = Store(entries: seq<StoredRepo>)

  /** No two entries share an id, as in a map. */
  ghost predicate Valid(s: Store) {
    UniqueIds(s.entries)
  }

  ghost predicate UniqueIds(es: seq<StoredRepo>) {
    forall i, j :: 0 <= i < j < |es| ==> es[i].repoId != es[j].repoId
  }

  /** The store the server starts with. */
  function EmptyStore(): (s: Store)
    ensures Valid(s) && |s.entries| == 0
  {
    Store([])
  }

  /** An entry older than the time to live. An entry exactly one TTL old
      is still alive. */
  predicate Expired(e: StoredRepo, now: int) {
    now - e.storedAt > TTL_MS
  }

  // ---------------------------------------------------------------------
  // Eviction

  /** The first loop of `evict`: delete every expired entry. */
  function DropExpired(es: seq<StoredRepo>, now: int): (r: seq<StoredRepo>)
    ensures |r| <= |es|
    ensures forall e :: e in r <==> e in es && !Expired(e, now)
    ensures UniqueIds(es) ==> UniqueIds(r)
  {
    if es == [] then []
    else
      var rest := DropExpired(es[1..], now);
      assert forall e :: e in es <==> e == es[0] || e in es[1..];
      if Expired(es[0], now) then rest
      else
        var r := [es[0]] + rest;
        assert UniqueIds(es) ==> UniqueIds(r) by {
          if UniqueIds(es) {
            forall i, j | 0 <= i < j < |r| ensures r[i].repoId != r[j].repoId {
              if i == 0 {
                assert r[j] in es[1..];
                var m :| 0 <= m < |es[1..]| && es[1..][m] == r[j];
                assert es[m + 1] == r[j];
              }
            }
          }
        }
        r
  }

  /** An entry together with its position in insertion order. */
  datatype Tagged = Tagged(entry: StoredRepo, pos: nat)

  function Tag(es: seq<StoredRepo>): (ts: seq<Tagged>)
    ensures |ts| == |es| && forall i :: 0 <= i < |es| ==> ts[i] == Tagged(es[i], i)
  {
    seq(|es|, i requires 0 <= i < |es| => Tagged(es[i], i))
  }

  /** The comparison of the capacity sort, `a.storedAt - b.storedAt`, with
      the position breaking ties as a stable sort does. */
  predicate Older(a: Tagged, b: Tagged) {
    a.entry.storedAt < b.entry.storedAt || (a.entry.storedAt == b.entry.storedAt && a.pos < b.pos)
  }

  lemma TagsDistinct(es: seq<StoredRepo>)
    ensures Distinct(Tag(es))
  {
  }

  lemma TagsOrdered(es: seq<StoredRepo>)
    ensures StrictTotalOn(Older, Tag(es))
  {
    var ts := Tag(es);
    forall a, b | a in ts && b in ts && a != b ensures Older(a, b) || Older(b, a) {
      var i :| 0 <= i < |ts| && ts[i] == a;
      var j :| 0 <= j < |ts| && ts[j] == b;
    }
  }

  /** The entries sorted oldest first; equal ages keep insertion order. */
  function OldestFirst(es: seq<StoredRepo>): (r: seq<Tagged>)
    ensures multiset(r) == multiset(Tag(es)) && SortedBy(r, Older)
    ensures |r| == |es|
  {
    TagsDistinct(es);
    TagsOrdered(es);
    var r := Sort(Tag(es), Older);
    assert |r| == |multiset(r)| == |Tag(es)|;
    r
  }

  /** The ids of the entries behind some tags. */
  function IdsOf(ts: seq<Tagged>): set<string> {
    set t | t in ts :: t.entry.repoId
  }

  /** The ids of the `k` oldest entries. */
  function VictimIds(es: seq<StoredRepo>, k: nat): set<string>
    requires k <= |es|
  {
    IdsOf(OldestFirst(es)[..k])
  }

  /** The entries whose ids are not in `ids`, in order. */
  function RemoveIds(es: seq<StoredRepo>, ids: set<string>): (r: seq<StoredRepo>)
    ensures |r| <= |es|
    ensures forall e :: e in r <==> e in es && e.repoId !in ids
    ensures UniqueIds(es) ==> UniqueIds(r)
  {
    if es == [] then []
    else
      var rest := RemoveIds(es[1..], ids);
      assert forall e :: e in es <==> e == es[0] || e in es[1..];
      if es[0].repoId in ids then rest
      else
        var r := [es[0]] + rest;
        assert UniqueIds(es) ==> UniqueIds(r) by {
          if UniqueIds(es) {
            forall i, j | 0 <= i < j < |r| ensures r[i].repoId != r[j].repoId {
              if i == 0 {
                assert r[j] in es[1..];
                var m :| 0 <= m < |es[1..]| && es[1..][m] == r[j];
                assert es[m + 1] == r[j];
              }
            }
          }
        }
        r
  }

  /** The second half of `evict`: while over capacity, delete the oldest
      entries, as many as the store is over. */
  function CapEntries(es: seq<StoredRepo>): (r: seq<StoredRepo>)
    ensures forall e :: e in r ==> e in es
    ensures UniqueIds(es) ==> UniqueIds(r)
  {
    if |es| > MAX_ENTRIES then RemoveIds(es, VictimIds(es, |es| - MAX_ENTRIES)) else es
  }

  /** `evict`. */
  function Evict(s: Store, now: int): Store {
    Store(CapEntries(DropExpired(s.entries, now)))
  }

  // ---------------------------------------------------------------------
  // Counting what capacity eviction removes

  /** The tags of the entries, arranged in some order. */
  ghost predicate Arranges(es: seq<StoredRepo>, sorted: seq<Tagged>) {
    multiset(sorted) == multiset(Tag(es))
  }

  /** A tag of the (unique-id) entries is a victim exactly when its id is. */
  lemma VictimIff(es: seq<StoredRepo>, k: nat, i: nat)
    requires UniqueIds(es) && k <= |es| && i < |es|
    ensures es[i].repoId in VictimIds(es, k) <==> Tagged(es[i], i) in OldestFirst(es)[..k]
  {
    VictimIffOn(es, OldestFirst(es), k, i);
  }

  lemma VictimIffOn(es: seq<StoredRepo>, sorted: seq<Tagged>, k: nat, i: nat)
    requires UniqueIds(es) && Arranges(es, sorted) && k <= |sorted| && i < |es|
    ensures es[i].repoId in IdsOf(sorted[..k]) <==> Tagged(es[i], i) in sorted[..k]
  {
    if es[i].repoId in IdsOf(sorted[..k]) {
      var t :| t in sorted[..k] && t.entry.repoId == es[i].repoId;
      assert t in multiset(sorted);
      assert t in multiset(Tag(es));
      var j :| 0 <= j < |es| && Tag(es)[j] == t;
      assert es[j].repoId == es[i].repoId;
      assert j == i;
    }
  }

  /** How many elements of a duplicate-free sequence lie outside a set. */
  function CountOutside<T>(s: seq<T>, x: set<T>): nat {
    if s == [] then 0 else (if s[0] in x then 0 else 1) + CountOutside(s[1..], x)
  }

  lemma {:induction false} CountOutsideOfDistinct<T>(s: seq<T>, x: set<T>)
    requires Distinct(s) && x <= set t | t in s
    ensures CountOutside(s, x) + |x| == |s|
    decreases |s|
  {
    if s == [] {
      assert x == {};
    } else {
      var rest := s[1..];
      var x' := x - {s[0]};
      assert Distinct(rest);
      assert forall m :: 0 <= m < |rest| ==> rest[m] == s[m + 1];
      assert s[0] !in rest;
      assert x' <= set t | t in rest by {
        forall t | t in x' ensures t in rest {
          var m :| 0 <= m < |s| && s[m] == t;
          assert m != 0;
          assert rest[m - 1] == t;
        }
      }
      CountOutsideOfDistinct(rest, x');
      assert CountOutside(rest, x) == CountOutside(rest, x') by {
        CountOutsideSame(rest, x, x');
      }
    }
  }

  lemma {:induction false} CountOutsideSame<T>(s: seq<T>, x: set<T>, y: set<T>)
    requires forall t :: t in s ==> (t in x <==> t in y)
    ensures CountOutside(s, x) == CountOutside(s, y)
    decreases |s|
  {
    if s != [] {
      CountOutsideSame(s[1..], x, y);
    }
  }

  /** Removing entries by id, counted on positions. */
  lemma {:induction false} RemoveIdsCount(es: seq<StoredRepo>, ids: set<string>, ts: seq<Tagged>, x: set<Tagged>,
                                          off: nat)
    requires |ts| == |es| && forall i :: 0 <= i < |es| ==> ts[i] == Tagged(es[i], off + i)
    requires forall i :: 0 <= i < |es| ==> (es[i].repoId in ids <==> ts[i] in x)
    ensures |RemoveIds(es, ids)| == CountOutside(ts, x)
    decreases |es|
  {
    if es != [] {
      RemoveIdsCount(es[1..], ids, ts[1..], x, off + 1);
    }
  }

  /** The distinct elements of a sequence are as many as its length. */
  lemma {:induction false} DistinctCard<T>(s: seq<T>)
    requires Distinct(s)
    ensures |set t | t in s| == |s|
    decreases |s|
  {
    if s != [] {
      var rest := s[1..];
      assert Distinct(rest);
      DistinctCard(rest);
      assert forall m :: 0 <= m < |rest| ==> rest[m] == s[m + 1];
      assert s[0] !in rest;
      assert (set t | t in s) == {s[0]} + (set t | t in rest);
    }
  }

  /** A sequence sorted by a strict order has no repeated element. */
  lemma SortedDistinct<T>(s: seq<T>, lt: (T, T) -> bool)
    requires SortedBy(s, lt) && forall a :: a in s ==> !lt(a, a)
    ensures Distinct(s)
  {
  }

  /** Capacity eviction removes exactly as many entries as the store is
      over capacity. */
  lemma CapacityCount(es: seq<StoredRepo>)
    requires UniqueIds(es) && |es| > MAX_ENTRIES
    ensures |CapEntries(es)| == MAX_ENTRIES
  {
    var sorted, k := OldestFirst(es), |es| - MAX_ENTRIES;
    CapEntriesOver(es);
    CapacityCountOn(es, sorted, k);
    assert CapEntries(es) == RemoveIds(es, IdsOf(OldestFirst(es)[..|es| - MAX_ENTRIES]));
    assert OldestFirst(es)[..|es| - MAX_ENTRIES] == sorted[..k];
    assert |CapEntries(es)| == |RemoveIds(es, IdsOf(sorted[..k]))|;
  }

  /** Removing the ids of the first `k` tags of an arrangement removes `k`
      entries. */
  lemma CapacityCountOn(es: seq<StoredRepo>, sorted: seq<Tagged>, k: nat)
    requires UniqueIds(es) && Arranges(es, sorted) && SortedBy(sorted, Older) && k <= |sorted|
    ensures |RemoveIds(es, IdsOf(sorted[..k]))| == |es| - k
  {
    assert |sorted| == |multiset(sorted)| == |multiset(Tag(es))| == |es|;
    var ts := Tag(es);
    TagsDistinct(es);
    var victims := sorted[..k];
    var x := set t | t in victims;
    assert x <= set t | t in ts by {
      forall t | t in x ensures t in ts { assert t in multiset(sorted); }
    }
    SortedDistinct(sorted, Older);
    assert Distinct(victims);
    DistinctCard(victims);
    CountOutsideOfDistinct(ts, x);
    forall i | 0 <= i < |es| ensures es[i].repoId in IdsOf(victims) <==> ts[i] in x {
      VictimIffOn(es, sorted, k, i);
    }
    RemoveIdsCount(es, IdsOf(victims), ts, x, 0);
  }

  lemma CapEntriesOver(es: seq<StoredRepo>)
    requires |es| > MAX_ENTRIES
    ensures CapEntries(es) == RemoveIds(es, IdsOf(OldestFirst(es)[..|es| - MAX_ENTRIES]))
  {
  }

  /** Capacity eviction removes only entries no younger than any it keeps. */
  lemma CapacityOldest(es: seq<StoredRepo>, e: StoredRepo, u: StoredRepo)
    requires UniqueIds(es) && |es| > MAX_ENTRIES
    requires e in es && e !in CapEntries(es) && u in CapEntries(es)
    ensures e.storedAt <= u.storedAt
  {
    var sorted, k := OldestFirst(es), |es| - MAX_ENTRIES;
    CapEntriesOver(es);
    assert OldestFirst(es)[..|es| - MAX_ENTRIES] == sorted[..k];
    assert CapEntries(es) == RemoveIds(es, IdsOf(sorted[..k]));
    CapacityOldestOn(es, sorted, k, e, u);
  }

  /** Removing the ids of the first `k` tags of a sorted arrangement removes
      no entry younger than one it keeps. */
  lemma CapacityOldestOn(es: seq<StoredRepo>, sorted: seq<Tagged>, k: nat, e: StoredRepo, u: StoredRepo)
    requires UniqueIds(es) && Arranges(es, sorted) && SortedBy(sorted, Older) && k <= |sorted|
    requires e in es && e !in RemoveIds(es, IdsOf(sorted[..k])) && u in RemoveIds(es, IdsOf(sorted[..k]))
    ensures e.storedAt <= u.storedAt
  {
    var i :| 0 <= i < |es| && es[i] == e;
    var j :| 0 <= j < |es| && es[j] == u;
    VictimIffOn(es, sorted, k, i);
    VictimIffOn(es, sorted, k, j);
    var a := Tagged(e, i);
    var b := Tagged(u, j);
    assert Tag(es)[j] == b && b in multiset(sorted);
    var p :| 0 <= p < k && sorted[p] == a;
    var q :| 0 <= q < |sorted| && sorted[q] == b;
    assert b !in sorted[..k];
    assert q >= k;
    assert Older(a, b);
  }

  /** After eviction nothing is expired, at most `MAX_ENTRIES` remain, ids
      stay unique and the surviving entries are unchanged. */
  lemma EvictBounds(s: Store, now: int)
    requires Valid(s)
    ensures Valid(Evict(s, now))
    ensures |Evict(s, now).entries| <= MAX_ENTRIES
    ensures forall e :: e in Evict(s, now).entries ==> e in s.entries && !Expired(e, now)
  {
    var live := DropExpired(s.entries, now);
    if |live| > MAX_ENTRIES {
      CapacityCount(live);
    }
  }

  /** Eviction does not touch a store that is small and fresh enough. */
  lemma EvictKeepsFresh(s: Store, now: int, e: StoredRepo)
    requires Valid(s) && e in s.entries && !Expired(e, now)
    requires |DropExpired(s.entries, now)| <= MAX_ENTRIES
    ensures e in Evict(s, now).entries
  {
  }

  // ---------------------------------------------------------------------
  // Saving and reading

  /** `store.set(entry.repoId, entry)`: overwrite in place, or append. */
  function Put(es: seq<StoredRepo>, e: StoredRepo): (r: seq<StoredRepo>)
    ensures e in r
    ensures forall u :: u in r && u.repoId != e.repoId <==> u in es && u.repoId != e.repoId
    ensures forall u :: u in r ==> u == e || u in es
    ensures |r| <= |es| + 1
  {
    if es == [] then [e]
    else if es[0].repoId == e.repoId then
      assert forall u :: u in es[1..] ==> u in es;
      [e] + es[1..]
    else
      var rest := Put(es[1..], e);
      assert forall u :: u in es <==> u == es[0] || u in es[1..];
      [es[0]] + rest
  }

  /** Putting keeps ids unique. */
  lemma {:induction false} PutUnique(es: seq<StoredRepo>, e: StoredRepo)
    requires UniqueIds(es)
    ensures UniqueIds(Put(es, e))
    decreases |es|
  {
    if es != [] && es[0].repoId != e.repoId {
      PutUnique(es[1..], e);
      var r := Put(es, e);
      assert r == [es[0]] + Put(es[1..], e);
      forall j | 0 < j < |r| ensures r[0].repoId != r[j].repoId {
        assert r[j] in Put(es[1..], e);
        if r[j] != e {
          var m :| 0 <= m < |es[1..]| && es[1..][m] == r[j];
          assert es[m + 1] == r[j];
        }
      }
    } else if es != [] {
      var r := Put(es, e);
      assert forall j :: 0 < j < |r| ==> r[j] == es[j];
    }
  }

  /** `saveRepo`: evict, then store the entry stamped with `now`. */
  function Save(s: Store, now: int, repoId: string, repoName: string, chunks: seq<FileChunk>,
                summary: RepoSummary): Store
  {
    Store(Put(Evict(s, now).entries, StoredRepo(repoId, repoName, chunks, summary, now)))
  }

  /** The entry with the given id, if any. */
  function Lookup(s: Store, repoId: string): (r: Option<StoredRepo>)
    ensures r.Some? ==> r.value in s.entries && r.value.repoId == repoId
    ensures r.None? ==> forall e :: e in s.entries ==> e.repoId != repoId
    decreases |s.entries|
  {
    if s.entries == [] then None
    else if s.entries[0].repoId == repoId then Some(s.entries[0])
    else
      var r := Lookup(Store(s.entries[1..]), repoId);
      assert forall e :: e in s.entries ==> e == s.entries[0] || e in s.entries[1..];
      r
  }

  /** In a valid store an id names at most one entry. */
  lemma LookupUnique(s: Store, e: StoredRepo)
    requires Valid(s) && e in s.entries
    ensures Lookup(s, e.repoId) == Some(e)
  {
    var r := Lookup(s, e.repoId);
    var i :| 0 <= i < |s.entries| && s.entries[i] == e;
    var j :| 0 <= j < |s.entries| && s.entries[j] == r.value;
  }

  /** `store.delete(repoId)`. */
  function Delete(s: Store, repoId: string): (r: Store)
    ensures forall e :: e in r.entries <==> e in s.entries && e.repoId != repoId
    ensures Valid(s) ==> Valid(r)
  {
    Store(RemoveIds(s.entries, {repoId}))
  }

  /** What a read returns, and the store after it. */
  datatype Read<T> = Read(value: Option<T>, store: Store)

  /** The shared body of `getChunks` and `getSummary`: absent ids read as
      nothing; an expired entry reads as nothing and is deleted; any other
      entry is returned and the store is left as it was. */
  function Get(s: Store, now: int, repoId: string): (r: Read<StoredRepo>)
    ensures (forall e :: e in s.entries ==> e.repoId != repoId) ==> r == Read(None, s)
    ensures forall e :: e in s.entries && e.repoId == repoId && Expired(e, now) && Valid(s) ==>
              r == Read(None, Delete(s, repoId))
    ensures forall e :: e in s.entries && e.repoId == repoId && !Expired(e, now) && Valid(s) ==>
              r == Read(Some(e), s)
  {
    assert forall e :: e in s.entries && e.repoId == repoId && Valid(s) ==> Lookup(s, repoId) == Some(e) by {
      forall e | e in s.entries && e.repoId == repoId && Valid(s) ensures Lookup(s, repoId) == Some(e) {
        LookupUnique(s, e);
      }
    }
    match Lookup(s, repoId)
    case None => Read(None, s)
    case Some(e) => if Expired(e, now) then Read(None, Delete(s, repoId)) else Read(Some(e), s)
  }

  /** `getChunks`. */
  function GetChunks(s: Store, now: int, repoId: string): Read<seq<FileChunk>> {
    var r := Get(s, now, repoId);
    Read(if r.value.Some? then Some(r.value.value.chunks) else None, r.store)
  }

  /** `getSummary`. */
  function GetSummary(s: Store, now: int, repoId: string): Read<RepoSummary> {
    var r := Get(s, now, repoId);
    Read(if r.value.Some? then Some(r.value.value.summary) else None, r.store)
  }

  /** `hasRepo`: whether `getChunks` finds the id, with its side effect. */
  function HasRepo(s: Store, now: int, repoId: string): (r: (bool, Store))
    ensures r.0 <==> GetChunks(s, now, repoId).value.Some?
    ensures r.1 == GetChunks(s, now, repoId).store
  {
    var c := GetChunks(s, now, repoId);
    (c.value.Some?, c.store)
  }

  /** Saving keeps the store valid and at most one entry over capacity. */
  lemma SaveBounds(s: Store, now: int, repoId: string, repoName: string, chunks: seq<FileChunk>,
                   summary: RepoSummary)
    requires Valid(s)
    ensures Valid(Save(s, now, repoId, repoName, chunks, summary))
    ensures |Save(s, now, repoId, repoName, chunks, summary).entries| <= MAX_ENTRIES + 1
  {
    EvictBounds(s, now);
    PutUnique(Evict(s, now).entries, StoredRepo(repoId, repoName, chunks, summary, now));
  }

  /** A read right after a save, at the same time, returns what was saved
      and leaves the store as it is. */
  lemma {:induction false} SaveThenGet(s: Store, now: int, repoId: string, repoName: string,
                                       chunks: seq<FileChunk>, summary: RepoSummary)
    requires Valid(s)
    ensures var t := Save(s, now, repoId, repoName, chunks, summary);
            && GetChunks(t, now, repoId) == Read(Some(chunks), t)
            && GetSummary(t, now, repoId) == Read(Some(summary), t)
            && HasRepo(t, now, repoId) == (true, t)
  {
    SaveBounds(s, now, repoId, repoName, chunks, summary);
    var t := Save(s, now, repoId, repoName, chunks, summary);
    var e := StoredRepo(repoId, repoName, chunks, summary, now);
    assert e in t.entries && !Expired(e, now);
    LookupUnique(t, e);
  }

  /** Saving changes no other entry except through eviction: the entries
      with other ids after the save are exactly those left by eviction. */
  lemma SaveKeepsOthers(s: Store, now: int, repoId: string, repoName: string, chunks: seq<FileChunk>,
                        summary: RepoSummary, u: StoredRepo)
    requires u.repoId != repoId
    ensures u in Save(s, now, repoId, repoName, chunks, summary).entries <==> u in Evict(s, now).entries
  {
  }

  /** An entry exactly one TTL old is still returned; one a millisecond
      older is gone. */
  lemma ExpiryBoundary(s: Store, e: StoredRepo)
    requires Valid(s) && e in s.entries
    ensures GetChunks(s, e.storedAt + TTL_MS, e.repoId) == Read(Some(e.chunks), s)
    ensures GetChunks(s, e.storedAt + TTL_MS + 1, e.repoId) == Read(None, Delete(s, e.repoId))
  {
  }
}
