/**
 * The timestamp resolver: how a dependency's modification time is found on
 * disk, and how the memo of resolved times is consulted.
 */
module Timestamps {
  import opened Basics

  /** The source file system: the paths that exist, each with its modification time in milliseconds. */
  type Fs = map<Path, int>

  /**
   * A resolved time as the program holds it: the `mtime` Date object of a
   * stat, or the number the clock returned for a missing file.
   */
  datatype Stamp = StatTime(ms: int) | ClockTime(ms: int)

  /** JavaScript truthiness of a memo value: a Date object is always truthy, the number 0 is not. */
  predicate Truthy(s: Stamp) {
    s.StatTime? || s.ms != 0
  }

  /** Resolving a path on disk: its stat time when it exists, the current time when it does not. */
  function FreshStamp(fs: Fs, now: int, p: Path): Stamp {
    if p in fs then StatTime(fs[p]) else ClockTime(now)
  }

  /** The time a memo lookup yields: a truthy memo entry is reused, anything else is resolved afresh. */
  function Lookup(memo: map<Path, Stamp>, fs: Fs, now: int, p: Path): Stamp {
    if p in memo && Truthy(memo[p]) then memo[p] else FreshStamp(fs, now, p)
  }

  /** The memo after a lookup of `p`: a resolved-afresh time is stored, a reused one is left alone. */
  function Remember(memo: map<Path, Stamp>, fs: Fs, now: int, p: Path): (memo': map<Path, Stamp>)
    ensures p in memo' && memo'[p] == Lookup(memo, fs, now, p)
    ensures memo.Keys <= memo'.Keys
    ensures forall q :: q in memo && q != p ==> memo'[q] == memo[q]
    ensures forall q :: q in memo' && q != p ==> q in memo
  {
    if p in memo && Truthy(memo[p]) then memo else memo[p := FreshStamp(fs, now, p)]
  }

  /** Remembering a lookup changes no later lookup made with the same disk and clock. */
  lemma RememberKeepsLookups(memo: map<Path, Stamp>, fs: Fs, now: int, p: Path)
    ensures forall q :: Lookup(Remember(memo, fs, now, p), fs, now, q) == Lookup(memo, fs, now, q)
  {
    var memo' := Remember(memo, fs, now, p);
    forall q ensures Lookup(memo', fs, now, q) == Lookup(memo, fs, now, q) {
      if q == p && !(p in memo && Truthy(memo[p])) {
        assert memo'[p] == FreshStamp(fs, now, p);
      }
    }
  }
}
