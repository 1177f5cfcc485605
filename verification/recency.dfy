/**
 * The dependency orderer behind `sortDeps`: a dependency list is put in
 * newest-first order of modification time, in place.
 */
module Recency {
  import opened Basics
  import opened Timestamps

  /**
   * A JavaScript array of paths. It is an object: the cache keeps the very
   * array a caller hands to `set`, and `save` sorts that array in place, so
   * both sides see every change.
   */
  class DepList {
    var items: seq<Path>

    constructor (items: seq<Path>)
      ensures this.items == items
    {
      this.items := items;
    }
  }

  /** Every path of `s` has a time in `times`. */
  predicate Covers(times: map<Path, Stamp>, s: seq<Path>) {
    forall p :: p in s ==> p in times
  }

  /** `s` is in non-increasing order of the times in `times`. */
  predicate NewestFirstBy(times: map<Path, Stamp>, s: seq<Path>)
    requires Covers(times, s)
  {
    forall i, j :: 0 <= i < j < |s| ==> times[s[i]].ms >= times[s[j]].ms
  }

  /** `s` is in non-increasing order of the times its paths resolve to on disk. */
  predicate NewestFirst(fs: Fs, now: int, s: seq<Path>) {
    forall i, j :: 0 <= i < j < |s| ==> FreshStamp(fs, now, s[i]).ms >= FreshStamp(fs, now, s[j]).ms
  }

  /** The times a fresh memo holds once every path of `s` has been resolved. */
  function FreshStamps(fs: Fs, now: int, s: seq<Path>): (times: map<Path, Stamp>)
    ensures Covers(times, s)
  {
    map p | p in s :: FreshStamp(fs, now, p)
  }

  /**
   * Inserts `p` into `s` after every element at least as recent, so that
   * elements with equal times keep their order.
   */
  function Insert(p: Path, s: seq<Path>, times: map<Path, Stamp>): (r: seq<Path>)
    requires p in times && Covers(times, s)
    ensures Covers(times, r)
    ensures multiset(r) == multiset(s) + multiset{p}
    decreases |s|
  {
    if s == [] then [p]
    else
      var last := s[|s| - 1];
      assert s == s[..|s| - 1] + [last];
      if times[last].ms < times[p].ms then Insert(p, s[..|s| - 1], times) + [last]
      else s + [p]
  }

  /**
   * The order `deps.sort((a, b) => times[b] - times[a])` produces: a stable
   * sort, newest first (an insertion sort is the reference definition).
   */
  function SortByRecency(s: seq<Path>, times: map<Path, Stamp>): (r: seq<Path>)
    requires Covers(times, s)
    ensures Covers(times, r)
    ensures multiset(r) == multiset(s)
    decreases |s|
  {
    if s == [] then []
    else
      var prefix := s[..|s| - 1];
      assert s == prefix + [s[|s| - 1]];
      Insert(s[|s| - 1], SortByRecency(prefix, times), times)
  }

  /** The elements of `s` whose time is exactly `t`, in their order in `s`. */
  function WithTime(s: seq<Path>, times: map<Path, Stamp>, t: int): seq<Path>
    requires Covers(times, s)
    decreases |s|
  {
    if s == [] then []
    else
      var last := s[|s| - 1];
      WithTime(s[..|s| - 1], times, t) + (if times[last].ms == t then [last] else [])
  }

  /** Inserting a path no older than `floor` into paths no older than `floor` keeps them so. */
  lemma InsertKeepsFloor(p: Path, s: seq<Path>, times: map<Path, Stamp>, floor: int)
    requires p in times && Covers(times, s) && times[p].ms >= floor
    requires forall i :: 0 <= i < |s| ==> times[s[i]].ms >= floor
    ensures forall q :: q in Insert(p, s, times) ==> times[q].ms >= floor
  {
    var r := Insert(p, s, times);
    forall q | q in r ensures times[q].ms >= floor {
      assert q in multiset(r);
      if q != p {
        assert q in multiset(s);
        var i :| 0 <= i < |s| && s[i] == q;
      }
    }
  }

  lemma {:induction false} InsertNewestFirst(p: Path, s: seq<Path>, times: map<Path, Stamp>)
    requires p in times && Covers(times, s) && NewestFirstBy(times, s)
    ensures NewestFirstBy(times, Insert(p, s, times))
    decreases |s|
  {
    if s != [] {
      var last := s[|s| - 1];
      var prefix := s[..|s| - 1];
      if times[last].ms < times[p].ms {
        InsertNewestFirst(p, prefix, times);
        assert forall i :: 0 <= i < |prefix| ==> prefix[i] == s[i];
        InsertKeepsFloor(p, prefix, times, times[last].ms);
        var r := Insert(p, prefix, times);
        var r' := r + [last];
        assert Insert(p, s, times) == r';
        forall i, j | 0 <= i < j < |r'| ensures times[r'[i]].ms >= times[r'[j]].ms {
          if j == |r| { assert r'[i] in r; } else { assert r'[i] == r[i] && r'[j] == r[j]; }
        }
      } else {
        var r' := s + [p];
        forall i, j | 0 <= i < j < |r'| ensures times[r'[i]].ms >= times[r'[j]].ms {
          if j == |s| { assert times[s[i]].ms >= times[last].ms || i == |s| - 1; } else { assert r'[i] == s[i] && r'[j] == s[j]; }
        }
      }
    }
  }

  /** The sort puts newer paths first. */
  lemma {:induction false} SortNewestFirst(s: seq<Path>, times: map<Path, Stamp>)
    requires Covers(times, s)
    ensures NewestFirstBy(times, SortByRecency(s, times))
    decreases |s|
  {
    if s != [] {
      var prefix := s[..|s| - 1];
      assert s == prefix + [s[|s| - 1]];
      SortNewestFirst(prefix, times);
      InsertNewestFirst(s[|s| - 1], SortByRecency(prefix, times), times);
    }
  }

  lemma WithTimeAppend(s: seq<Path>, p: Path, times: map<Path, Stamp>, t: int)
    requires p in times && Covers(times, s)
    ensures WithTime(s + [p], times, t) == WithTime(s, times, t) + (if times[p].ms == t then [p] else [])
  {
    assert (s + [p])[..|s|] == s;
  }

  lemma {:induction false} InsertStable(p: Path, s: seq<Path>, times: map<Path, Stamp>, t: int)
    requires p in times && Covers(times, s)
    ensures WithTime(Insert(p, s, times), times, t) == WithTime(s, times, t) + (if times[p].ms == t then [p] else [])
    decreases |s|
  {
    if s == [] {
      WithTimeAppend([], p, times, t);
    } else if times[s[|s| - 1]].ms < times[p].ms {
      var last, prefix := s[|s| - 1], s[..|s| - 1];
      var inserted := Insert(p, prefix, times);
      InsertStable(p, prefix, times, t);
      WithTimeAppend(inserted, last, times, t);
      if times[p].ms == t {
        assert WithTime(s, times, t) == WithTime(prefix, times, t);
      } else {
        assert WithTime(inserted, times, t) == WithTime(prefix, times, t);
      }
    } else {
      WithTimeAppend(s, p, times, t);
    }
  }

  /** The sort is stable: paths with equal times keep their relative order. */
  lemma {:induction false} SortStable(s: seq<Path>, times: map<Path, Stamp>, t: int)
    requires Covers(times, s)
    ensures WithTime(SortByRecency(s, times), times, t) == WithTime(s, times, t)
    decreases |s|
  {
    if s != [] {
      var prefix := s[..|s| - 1];
      assert s == prefix + [s[|s| - 1]];
      SortStable(prefix, times, t);
      InsertStable(s[|s| - 1], SortByRecency(prefix, times), times, t);
    }
  }

  /**
   * `sortDeps`: resolves every dependency once into a memo local to this call
   * (a missing file counts as `now`), then sorts the array in place, newest first.
   */
  method SortDeps(deps: DepList, fs: Fs, now: int)
    modifies deps
    ensures deps.items == SortByRecency(old(deps.items), FreshStamps(fs, now, old(deps.items)))
    ensures multiset(deps.items) == multiset(old(deps.items))
    ensures NewestFirst(fs, now, deps.items)
  {
    var memo: map<Path, Stamp> := map[];
    for i := 0 to |deps.items|
      invariant forall p :: p in memo <==> p in deps.items[..i]
      invariant forall p :: p in memo ==> memo[p] == FreshStamp(fs, now, p)
    {
      var p := deps.items[i];
      if p in memo && Truthy(memo[p]) {
        continue;
      }
      memo := memo[p := FreshStamp(fs, now, p)];
    }
    assert deps.items[..|deps.items|] == deps.items;
    assert memo == FreshStamps(fs, now, deps.items);
    SortNewestFirst(deps.items, memo);
    deps.items := SortByRecency(deps.items, memo);
    forall p | p in deps.items ensures p in memo {
      assert p in multiset(deps.items);
    }
  }
}
