/**
 * The validity decision of `check`: a record is stale when some dependency
 * resolves to a time strictly after the moment the record was cached.
 */
module Validity {
  import opened Basics
  import opened Timestamps

  /** What the dependency loop of `check` yields: whether it found a newer dependency, and the memo it leaves. */
  datatype ScanResult = ScanResult(stale: bool, memo: map<Path, Stamp>)

  /**
   * The dependency loop of `check`, in list order: each dependency is looked
   * up (and remembered when resolved afresh); the loop stops at the first one
   * newer than `lastModified`.
   */
  function Scan(deps: seq<Path>, lastModified: int, memo: map<Path, Stamp>, fs: Fs, now: int): ScanResult
    decreases |deps|
  {
    if deps == [] then ScanResult(false, memo)
    else
      var mtime := Lookup(memo, fs, now, deps[0]);
      var memo' := Remember(memo, fs, now, deps[0]);
      if mtime.ms - lastModified > 0 then ScanResult(true, memo')
      else Scan(deps[1..], lastModified, memo', fs, now)
  }

  /** The reference staleness condition: some dependency resolves to a time after `lastModified`. */
  predicate Stale(deps: seq<Path>, lastModified: int, memo: map<Path, Stamp>, fs: Fs, now: int) {
    exists i :: 0 <= i < |deps| && Lookup(memo, fs, now, deps[i]).ms > lastModified
  }

  /** The loop reports staleness exactly when some dependency is newer than the record. */
  lemma {:induction false} ScanDecidesStale(deps: seq<Path>, lastModified: int, memo: map<Path, Stamp>, fs: Fs, now: int)
    ensures Scan(deps, lastModified, memo, fs, now).stale <==> Stale(deps, lastModified, memo, fs, now)
    decreases |deps|
  {
    if deps != [] {
      var memo' := Remember(memo, fs, now, deps[0]);
      if Lookup(memo, fs, now, deps[0]).ms - lastModified <= 0 {
        ScanDecidesStale(deps[1..], lastModified, memo', fs, now);
        RememberKeepsLookups(memo, fs, now, deps[0]);
        if Stale(deps, lastModified, memo, fs, now) {
          var i :| 0 <= i < |deps| && Lookup(memo, fs, now, deps[i]).ms > lastModified;
          assert deps[1..][i - 1] == deps[i];
        }
        if Stale(deps[1..], lastModified, memo', fs, now) {
          var i :| 0 <= i < |deps[1..]| && Lookup(memo', fs, now, deps[1..][i]).ms > lastModified;
          assert deps[i + 1] == deps[1..][i];
        }
      }
    }
  }

  /**
   * The memo only grows: a truthy entry is never replaced, every entry is
   * either kept or a fresh resolution of a dependency, and every lookup it
   * answers is the one the old memo answered.
   */
  lemma {:induction false} ScanMemoGrows(deps: seq<Path>, lastModified: int, memo: map<Path, Stamp>, fs: Fs, now: int)
    ensures var memo' := Scan(deps, lastModified, memo, fs, now).memo;
      && memo.Keys <= memo'.Keys
      && (forall p :: p in memo && Truthy(memo[p]) ==> memo'[p] == memo[p])
      && (forall p :: p in memo' ==> (p in memo && memo'[p] == memo[p]) || (p in deps && memo'[p] == FreshStamp(fs, now, p)))
      && (forall p :: Lookup(memo', fs, now, p) == Lookup(memo, fs, now, p))
    decreases |deps|
  {
    if deps != [] {
      var memo' := Remember(memo, fs, now, deps[0]);
      RememberKeepsLookups(memo, fs, now, deps[0]);
      if Lookup(memo, fs, now, deps[0]).ms - lastModified <= 0 {
        ScanMemoGrows(deps[1..], lastModified, memo', fs, now);
        var memo'' := Scan(deps, lastModified, memo, fs, now).memo;
        forall p | p in memo''
          ensures (p in memo && memo''[p] == memo[p]) || (p in deps && memo''[p] == FreshStamp(fs, now, p))
        {
          if !(p in memo' && memo''[p] == memo'[p]) {
            assert p in deps[1..];
          }
        }
      }
    }
  }

  /** When nothing is stale, every dependency has been resolved into the memo. */
  lemma {:induction false} ScanResolvesEveryDep(deps: seq<Path>, lastModified: int, memo: map<Path, Stamp>, fs: Fs, now: int)
    requires !Scan(deps, lastModified, memo, fs, now).stale
    ensures forall p :: p in deps ==> p in Scan(deps, lastModified, memo, fs, now).memo
    decreases |deps|
  {
    if deps != [] {
      var memo' := Remember(memo, fs, now, deps[0]);
      ScanResolvesEveryDep(deps[1..], lastModified, memo', fs, now);
      ScanMemoGrows(deps[1..], lastModified, memo', fs, now);
      forall p | p in deps ensures p in Scan(deps, lastModified, memo, fs, now).memo {
        if p != deps[0] { assert p in deps[1..]; }
      }
    }
  }

  /** The loop exits early: nothing after the first newer dependency `deps[k]` is resolved. */
  lemma {:induction false} ScanStopsAtNewer(deps: seq<Path>, lastModified: int, memo: map<Path, Stamp>, fs: Fs, now: int, k: nat)
    requires k < |deps| && Lookup(memo, fs, now, deps[k]).ms > lastModified
    ensures forall p :: p in Scan(deps, lastModified, memo, fs, now).memo && p !in memo ==> p in deps[..k + 1]
    decreases k
  {
    var memo' := Remember(memo, fs, now, deps[0]);
    if k > 0 && Lookup(memo, fs, now, deps[0]).ms - lastModified <= 0 {
      RememberKeepsLookups(memo, fs, now, deps[0]);
      assert deps[1..][k - 1] == deps[k];
      ScanStopsAtNewer(deps[1..], lastModified, memo', fs, now, k - 1);
      forall p | p in Scan(deps, lastModified, memo, fs, now).memo && p !in memo ensures p in deps[..k + 1] {
        if p != deps[0] {
          assert p in deps[1..][..k];
          assert deps[1..][..k] == deps[1..k + 1];
        }
      }
    }
  }

  /** The source path is in its own dependency list, so a change to the source alone invalidates it. */
  lemma {:induction false} SelfInvalidation(p: Path, deps: seq<Path>, lastModified: int, memo: map<Path, Stamp>, fs: Fs, now: int)
    requires p in deps && Lookup(memo, fs, now, p).ms > lastModified
    ensures Scan(deps, lastModified, memo, fs, now).stale
  {
    ScanDecidesStale(deps, lastModified, memo, fs, now);
    var i :| 0 <= i < |deps| && deps[i] == p;
  }

  /** A dependency that vanished from disk, and has no truthy memo entry, resolves to now and invalidates. */
  lemma {:induction false} VanishedDependencyInvalidates(d: Path, deps: seq<Path>, lastModified: int, memo: map<Path, Stamp>, fs: Fs, now: int)
    requires d in deps && d !in fs && !(d in memo && Truthy(memo[d]))
    requires now > lastModified
    ensures Scan(deps, lastModified, memo, fs, now).stale
  {
    SelfInvalidation(d, deps, lastModified, memo, fs, now);
  }
}
