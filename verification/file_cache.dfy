/**
 * The cache module itself: the index of cached records, the timestamp memo,
 * the active cache directory, and the directories on disk that `load`,
 * `save` and `get` read and write.
 */
module Cache {
  import opened Basics
  import opened CacheNames
  import opened Timestamps
  import opened Recency
  import opened Validity

  /**
   * One cached record: when it was cached, the dependency array it was cached
   * with, and the compiled body while it is still only in memory.
   */
  datatype Record = Record(lastModified: int, deps: DepList, content: Option<string>)

  /** A record as the index file holds it: content is never written there. */
  datatype Entry = Entry(lastModified: int, deps: seq<Path>)

  /** A cache directory: content bodies by cache name, and the index file when there is one. */
  datatype Directory = Directory(bodies: map<string, string>, info: Option<map<Path, Entry>>)

  /** The bodies stored in directory `dir`, none when the directory does not exist. */
  function BodiesIn(dirs: map<Path, Directory>, dir: Path): map<string, string> {
    if dir in dirs then dirs[dir].bodies else map[]
  }

  /** The staged contents of records that all still hold one. */
  function Contents(records: map<Path, Record>): (contents: map<Path, string>)
    requires forall p :: p in records ==> records[p].content.Some?
    ensures contents.Keys == records.Keys
  {
    map p | p in records :: records[p].content.value
  }

  /** The names a set of paths are stored under. */
  function NamesOf(paths: set<Path>, nameOf: Path -> string): set<string> {
    set p | p in paths :: nameOf(p)
  }

  /** No other path of `paths` is stored under `p`'s name. */
  predicate NameIsUnique(p: Path, paths: set<Path>, nameOf: Path -> string) {
    forall q :: q in paths && nameOf(q) == nameOf(p) ==> q == p
  }

  /**
   * `bodies` is what writing the contents of the paths in `done`, one after
   * another in some order, can leave in a directory that held `before`.
   * `writer` records, for each name written, which path's content it holds:
   * a path with that name. Every name nobody wrote is as it was.
   */
  ghost predicate BodiesWritten(bodies: map<string, string>, before: map<string, string>, contents: map<Path, string>,
                                done: set<Path>, nameOf: Path -> string, writer: map<string, Path>)
    requires done <= contents.Keys
  {
    && (forall n :: n in before ==> n in bodies)
    && (forall q :: q in done ==> nameOf(q) in writer)
    && (forall n :: n in writer ==>
          writer[n] in done && nameOf(writer[n]) == n && n in bodies && bodies[n] == contents[writer[n]])
    && (forall n :: n in bodies && n !in writer ==> n in before && bodies[n] == before[n])
  }

  /** Writing one more content body keeps the directory described by `BodiesWritten`. */
  lemma WriteBody(bodies: map<string, string>, before: map<string, string>, contents: map<Path, string>,
                  done: set<Path>, nameOf: Path -> string, writer: map<string, Path>, k: Path)
    requires done <= contents.Keys && k in contents
    requires BodiesWritten(bodies, before, contents, done, nameOf, writer)
    ensures BodiesWritten(bodies[nameOf(k) := contents[k]], before, contents, done + {k}, nameOf, writer[nameOf(k) := k])
  {
  }

  /** The cache directory after writing the contents of `order`, one after another, over `before`. */
  function WriteAll(before: map<string, string>, contents: map<Path, string>, order: seq<Path>,
                    nameOf: Path -> string): (bodies: map<string, string>)
    requires forall i :: 0 <= i < |order| ==> order[i] in contents
    ensures before.Keys <= bodies.Keys
  {
    if order == [] then before
    else
      var last := order[|order| - 1];
      WriteAll(before, contents, order[..|order| - 1], nameOf)[nameOf(last) := contents[last]]
  }

  /** Writing one more path is one more map update. */
  lemma WriteAllStep(before: map<string, string>, contents: map<Path, string>, order: seq<Path>,
                     nameOf: Path -> string, k: Path)
    requires forall i :: 0 <= i < |order| ==> order[i] in contents
    requires k in contents
    ensures forall i :: 0 <= i < |order + [k]| ==> (order + [k])[i] in contents
    ensures WriteAll(before, contents, order + [k], nameOf) == WriteAll(before, contents, order, nameOf)[nameOf(k) := contents[k]]
  {
    assert (order + [k])[..|order|] == order;
  }

  /** For each name written by `order`, the last path that wrote it. */
  ghost function LastWriter(order: seq<Path>, nameOf: Path -> string): map<string, Path> {
    if order == [] then map[]
    else
      var last := order[|order| - 1];
      LastWriter(order[..|order| - 1], nameOf)[nameOf(last) := last]
  }

  /** Writing the contents of `order` leaves the directory `BodiesWritten` describes, with `LastWriter` as witness. */
  lemma {:induction false} WriteAllWritten(before: map<string, string>, contents: map<Path, string>,
                                           order: seq<Path>, nameOf: Path -> string)
    requires forall i :: 0 <= i < |order| ==> order[i] in contents
    ensures (set q | q in order) <= contents.Keys
    ensures BodiesWritten(WriteAll(before, contents, order, nameOf), before, contents, (set q | q in order),
                          nameOf, LastWriter(order, nameOf))
  {
    if order != [] {
      var prefix, last := order[..|order| - 1], order[|order| - 1];
      assert order == prefix + [last];
      assert (set q | q in order) == (set q | q in prefix) + {last};
      WriteAllWritten(before, contents, prefix, nameOf);
      WriteBody(WriteAll(before, contents, prefix, nameOf), before, contents, (set q | q in prefix),
                nameOf, LastWriter(prefix, nameOf), last);
    }
  }

  /** After writing every path, each path's name holds the content of some path with that name. */
  lemma {:induction false} WriteAllByNamesake(before: map<string, string>, contents: map<Path, string>, order: seq<Path>,
                           nameOf: Path -> string, p: Path)
    requires forall i :: 0 <= i < |order| ==> order[i] in contents
    requires p in contents && p in order
    ensures nameOf(p) in WriteAll(before, contents, order, nameOf)
    ensures exists w :: w in contents && nameOf(w) == nameOf(p) && WriteAll(before, contents, order, nameOf)[nameOf(p)] == contents[w]
  {
    WriteAllWritten(before, contents, order, nameOf);
    var bodies, done, writer := WriteAll(before, contents, order, nameOf), (set q | q in order), LastWriter(order, nameOf);
    var w := writer[nameOf(p)];
    assert w in contents && nameOf(w) == nameOf(p) && bodies[nameOf(p)] == contents[w];
  }

  /** After writing every path, a path that shares its name with no other holds its own content. */
  lemma {:induction false} WriteAllUnique(before: map<string, string>, contents: map<Path, string>, order: seq<Path>,
                       nameOf: Path -> string, p: Path)
    requires forall i :: 0 <= i < |order| ==> order[i] in contents
    requires p in contents && p in order && NameIsUnique(p, contents.Keys, nameOf)
    ensures nameOf(p) in WriteAll(before, contents, order, nameOf)
    ensures WriteAll(before, contents, order, nameOf)[nameOf(p)] == contents[p]
  {
    WriteAllWritten(before, contents, order, nameOf);
    assert LastWriter(order, nameOf)[nameOf(p)] == p;
  }

  /** A name that no written path has is left as it was. */
  lemma {:induction false} WriteAllUntouched(before: map<string, string>, contents: map<Path, string>, order: seq<Path>,
                          nameOf: Path -> string, n: string)
    requires forall i :: 0 <= i < |order| ==> order[i] in contents
    requires n in WriteAll(before, contents, order, nameOf) && n !in NamesOf(contents.Keys, nameOf)
    ensures n in before && WriteAll(before, contents, order, nameOf)[n] == before[n]
  {
    WriteAllWritten(before, contents, order, nameOf);
  }

  /** No path occurs twice in `s`. */
  predicate Distinct(s: seq<Path>)
    decreases |s|
  {
    s == [] || (s[|s| - 1] !in s[..|s| - 1] && Distinct(s[..|s| - 1]))
  }

  /** Appending a path not yet in `s` keeps it free of repeats. */
  lemma DistinctAppend(s: seq<Path>, k: Path)
    requires Distinct(s) && k !in s
    ensures Distinct(s + [k])
  {
    assert (s + [k])[..|s|] == s;
  }

  /** A sequence without repeats has different paths at different positions. */
  lemma {:induction false} DistinctPositions(s: seq<Path>)
    requires Distinct(s)
    ensures forall i, j :: 0 <= i < j < |s| ==> s[i] != s[j]
    decreases |s|
  {
    if s != [] {
      var prefix := s[..|s| - 1];
      DistinctPositions(prefix);
      forall i, j | 0 <= i < j < |s| ensures s[i] != s[j] {
        if j == |s| - 1 {
          assert s[i] == prefix[i];
        } else {
          assert s[i] == prefix[i] && s[j] == prefix[j];
        }
      }
    }
  }

  /** `records` once every record outside `kept` has dropped its content. */
  function Dropped(records: map<Path, Record>, kept: set<Path>): (r: map<Path, Record>)
    ensures r.Keys == records.Keys
  {
    map q | q in records :: if q in kept then records[q] else records[q].(content := None)
  }

  /** Dropping one more record's content is one map update. */
  lemma DroppedStep(records: map<Path, Record>, kept: set<Path>, k: Path)
    requires k in kept && k in records
    ensures Dropped(records, kept)[k := records[k].(content := None)] == Dropped(records, kept - {k})
  {
  }

  /** The dependency arrays that some record holds. */
  function Arrays(records: map<Path, Record>): (arrays: set<DepList>)
    ensures forall q :: q in records ==> records[q].deps in arrays
  {
    set q | q in records :: records[q].deps
  }

  /**
   * Progress of `save`'s loop, on values: `items` maps each dependency array
   * to its contents now, `items0` to its contents before the loop. Every
   * array keeps its elements, an array outside `held` (which holds every
   * record's array) is untouched, and the array of every record outside
   * `pending` is sorted newest first.
   */
  ghost predicate SortedSoFar(records: map<Path, Record>, pending: set<Path>, held: set<DepList>,
                              items0: map<DepList, seq<Path>>, items: map<DepList, seq<Path>>, fs: Fs, now: int)
  {
    && items.Keys == items0.Keys
    && (forall q :: q in records ==> records[q].deps in items && records[q].deps in held)
    && (forall l :: l in items ==> multiset(items[l]) == multiset(items0[l]))
    && (forall l :: l in items && l !in held ==> items[l] == items0[l])
    && (forall q :: q in records && q !in pending ==> NewestFirst(fs, now, items[records[q].deps]))
  }

  /** Sorting the array of one more record keeps `SortedSoFar`, even when records share arrays. */
  lemma SortedStep(records: map<Path, Record>, pending: set<Path>, held: set<DepList>, items0: map<DepList, seq<Path>>,
                   items: map<DepList, seq<Path>>, fs: Fs, now: int, k: Path, sorted: seq<Path>)
    requires SortedSoFar(records, pending, held, items0, items, fs, now) && k in pending && k in records
    requires multiset(sorted) == multiset(items[records[k].deps]) && NewestFirst(fs, now, sorted)
    ensures SortedSoFar(records, pending - {k}, held, items0, items[records[k].deps := sorted], fs, now)
  {
  }

  class FileCache {
    /** The records by source path (`cachedFiles`). */
    var cachedFiles: map<Path, Record>
    /** Resolved modification times, kept for the life of the cache (`modifiedTimes`). */
    var modifiedTimes: map<Path, Stamp>
    /** The active cache directory (`cacheDir`): none until `load` or `save` sets it. */
    var cacheDir: Option<Path>
    /** The cache directories on disk, by path. */
    var dirs: map<Path, Directory>
    /** The dependency arrays the records may refer to. */
    ghost var Repr: set<DepList>

    ghost predicate Valid()
      reads this`cachedFiles, this`Repr
    {
      forall p :: p in cachedFiles ==> cachedFiles[p].deps in Repr
    }

    /** What the index file holds after a `save`: every record without its content. */
    function Index(): (index: map<Path, Entry>)
      reads this`cachedFiles, this`Repr, Repr
      requires Valid()
      ensures index.Keys == cachedFiles.Keys
    {
      map p | p in cachedFiles :: Entry(cachedFiles[p].lastModified, cachedFiles[p].deps.items)
    }

    /** The module's state when it is first required: nothing cached, nothing memoized, no directory chosen. */
    constructor (disk: map<Path, Directory>)
      ensures Valid() && Repr == {}
      ensures cachedFiles == map[] && modifiedTimes == map[] && cacheDir == None && dirs == disk
    {
      cachedFiles, modifiedTimes, cacheDir, dirs := map[], map[], None, disk;
      Repr := {};
    }

    /**
     * `get`: the body stored under `p`'s cache name in the active directory,
     * or none when there is no such file.
     */
    function Get(p: Path): (r: Option<string>)
      reads this
      requires cacheDir.Some?
      ensures r.Some? <==> CacheName(p) in BodiesIn(dirs, cacheDir.value)
      ensures r.Some? ==> r.value == BodiesIn(dirs, cacheDir.value)[CacheName(p)]
    {
      var bodies := BodiesIn(dirs, cacheDir.value);
      if CacheName(p) in bodies then Some(bodies[CacheName(p)]) else None
    }

    /**
     * `set`: stages `content` for `p` in memory. `p` is pushed onto the
     * caller's own array (a fresh one when none is given), which the record
     * then shares, and the record is stamped with the current time.
     */
    method Set(p: Path, deps: DepList?, content: string, now: int)
      requires Valid()
      modifies this, deps
      ensures cachedFiles.Keys == old(cachedFiles).Keys + {p}
      ensures Valid() && Repr == old(Repr) + {cachedFiles[p].deps}
      ensures forall q :: q in old(cachedFiles) && q != p ==> cachedFiles[q] == old(cachedFiles)[q]
      ensures cachedFiles[p].lastModified == now && cachedFiles[p].content == Some(content)
      ensures deps != null ==> cachedFiles[p].deps == deps && deps.items == old(deps.items) + [p]
      ensures deps == null ==> fresh(cachedFiles[p].deps) && cachedFiles[p].deps.items == [p]
      ensures p in cachedFiles[p].deps.items
      ensures modifiedTimes == old(modifiedTimes) && cacheDir == old(cacheDir) && dirs == old(dirs)
    {
      var list := deps;
      if list == null {
        list := new DepList([]);
      }
      list.items := list.items + [p];
      cachedFiles := cachedFiles[p := Record(now, list, Some(content))];
      Repr := Repr + {list};
    }

    /**
     * `check`: none when `p` has no record or some dependency is newer than
     * the record; otherwise what `get` finds. Dependencies are resolved
     * through the memo, which keeps what it learns.
     */
    method Check(p: Path, fs: Fs, now: int) returns (r: Option<string>)
      requires Valid()
      requires cacheDir.Some? || p !in cachedFiles ||
        Stale(cachedFiles[p].deps.items, cachedFiles[p].lastModified, modifiedTimes, fs, now)
      modifies this`modifiedTimes
      ensures p !in cachedFiles ==> r == None && modifiedTimes == old(modifiedTimes)
      ensures p in cachedFiles ==>
        var record := cachedFiles[p];
        && r == (if Stale(record.deps.items, record.lastModified, old(modifiedTimes), fs, now) then None else Get(p))
        && modifiedTimes == Scan(record.deps.items, record.lastModified, old(modifiedTimes), fs, now).memo
    {
      if p !in cachedFiles {
        return None;
      }
      var cached := cachedFiles[p];
      var lastModified := cached.lastModified;
      var deps := cached.deps.items;
      ScanDecidesStale(deps, lastModified, modifiedTimes, fs, now);
      for i := 0 to |deps|
        invariant Scan(deps[i..], lastModified, modifiedTimes, fs, now) == Scan(deps, lastModified, old(modifiedTimes), fs, now)
      {
        var mtime: Stamp;
        if deps[i] in modifiedTimes && Truthy(modifiedTimes[deps[i]]) {
          mtime := modifiedTimes[deps[i]];
        } else {
          mtime := FreshStamp(fs, now, deps[i]);
          modifiedTimes := modifiedTimes[deps[i] := mtime];
        }
        if mtime.ms - lastModified > 0 {
          return None;
        }
        assert deps[i..][1..] == deps[i + 1..];
      }
      return Get(p);
    }
    /**
     * The step `save` takes for one record: sort its dependency array in
     * place, hand back the file name and body to write for it, and drop the
     * content from memory. `items` tracks what each array holds.
     */
    method SaveRecord(k: Path, fs: Fs, now: int, ghost items: map<DepList, seq<Path>>)
      returns (name: string, body: string, ghost sorted: map<DepList, seq<Path>>)
      requires k in cachedFiles && cachedFiles[k].content.Some?
      requires forall l :: l in items ==> l.items == items[l]
      requires cachedFiles[k].deps in items
      modifies this`cachedFiles, cachedFiles[k].deps
      ensures name == CacheName(k) && body == old(cachedFiles)[k].content.value
      ensures cachedFiles == old(cachedFiles)[k := old(cachedFiles)[k].(content := None)]
      ensures sorted == items[cachedFiles[k].deps := cachedFiles[k].deps.items]
      ensures sorted.Keys == items.Keys
      ensures forall l :: l in sorted ==> l.items == sorted[l]
      ensures multiset(sorted[cachedFiles[k].deps]) == multiset(items[cachedFiles[k].deps])
      ensures NewestFirst(fs, now, sorted[cachedFiles[k].deps])
    {
      var list := cachedFiles[k].deps;
      SortDeps(list, fs, now);
      sorted := items[list := list.items];
      name := CacheName(k);
      body := cachedFiles[k].content.value;
      cachedFiles := cachedFiles[k := cachedFiles[k].(content := None)];
    }

    /**
     * The loop of `save`: every record, taken in any order (`order`), has its
     * dependency array sorted in place, its content written over `before`
     * and dropped from memory. `items` is what each array holds afterwards.
     */
    method SaveEach(before: map<string, string>, fs: Fs, now: int)
      returns (bodies: map<string, string>, ghost order: seq<Path>, ghost items: map<DepList, seq<Path>>)
      requires Valid()
      requires forall p :: p in cachedFiles ==> cachedFiles[p].content.Some?
      modifies this`cachedFiles, Repr
      ensures cachedFiles == Dropped(old(cachedFiles), {})
      ensures forall l :: l in items ==> l.items == items[l]
      ensures SortedSoFar(old(cachedFiles), {}, Arrays(old(cachedFiles)), old(map l | l in Repr :: l.items), items, fs, now)
      ensures forall i :: 0 <= i < |order| ==> order[i] in old(cachedFiles)
      ensures forall p :: p in old(cachedFiles) ==> p in order
      ensures Distinct(order)
      ensures bodies == WriteAll(before, Contents(old(cachedFiles)), order, CacheName)
    {
      // The dependency arrays are never the cache object itself.
      assert forall l :: l in Repr ==> l as object != this as object;
      bodies := before;
      ghost var records := cachedFiles;
      ghost var contents := Contents(records);
      var pending := cachedFiles.Keys;
      order := [];
      ghost var items0: map<DepList, seq<Path>> := map l | l in Repr :: l.items;
      items := items0;
      ghost var held := Arrays(records);
      while pending != {}
        invariant pending <= records.Keys
        invariant cachedFiles == Dropped(records, pending)
        invariant forall l :: l in items ==> l.items == items[l]
        invariant SortedSoFar(records, pending, held, items0, items, fs, now)
        invariant forall i :: 0 <= i < |order| ==> order[i] in contents
        invariant forall q :: q in records && q !in pending ==> q in order
        invariant forall q :: q in order ==> q !in pending
        invariant Distinct(order)
        invariant bodies == WriteAll(before, contents, order, CacheName)
        decreases pending
      {
        var k :| k in pending;
        ghost var list := records[k].deps;
        assert k in contents && contents[k] == records[k].content.value;
        ghost var unsorted := items;
        var name, body;
        name, body, items := SaveRecord(k, fs, now, items);
        bodies := bodies[name := body];
        SortedStep(records, pending, held, items0, unsorted, fs, now, k, items[list]);
        DroppedStep(records, pending, k);
        pending := pending - {k};
        WriteAllStep(before, contents, order, CacheName, k);
        DistinctAppend(order, k);
        order := order + [k];
      }
    }

    /**
     * What `save`'s loop leaves in memory and on disk, record by record:
     * the same records without content, each dependency array a permutation
     * of what it held and sorted newest first, and every record's content
     * written in `order`.
     */
    method SaveAll(before: map<string, string>, fs: Fs, now: int) returns (bodies: map<string, string>, ghost order: seq<Path>)
      requires Valid()
      requires forall p :: p in cachedFiles ==> cachedFiles[p].content.Some?
      modifies this`cachedFiles, Repr
      ensures Valid() && Repr == old(Repr)
      ensures cachedFiles.Keys == old(cachedFiles).Keys
      ensures forall p :: p in cachedFiles ==> cachedFiles[p] == old(cachedFiles)[p].(content := None)
      ensures forall p :: p in cachedFiles ==>
        && multiset(cachedFiles[p].deps.items) == old(multiset(cachedFiles[p].deps.items))
        && NewestFirst(fs, now, cachedFiles[p].deps.items)
      ensures forall l :: l in old(Repr) && l !in Arrays(old(cachedFiles)) ==> l.items == old(l.items)
      ensures forall i :: 0 <= i < |order| ==> order[i] in old(cachedFiles)
      ensures forall p :: p in old(cachedFiles) ==> p in order
      ensures Distinct(order)
      ensures bodies == WriteAll(before, Contents(old(cachedFiles)), order, CacheName)
    {
      // The dependency arrays are never the cache object itself.
      assert forall l :: l in Repr ==> l as object != this as object;
      ghost var records := cachedFiles;
      ghost var items;
      bodies, order, items := SaveEach(before, fs, now);
      forall p | p in cachedFiles
        ensures multiset(cachedFiles[p].deps.items) == old(multiset(cachedFiles[p].deps.items))
        ensures NewestFirst(fs, now, cachedFiles[p].deps.items)
      {
        assert cachedFiles[p].deps == records[p].deps;
      }
      forall l | l in old(Repr) && l !in Arrays(old(cachedFiles))
        ensures l.items == old(l.items)
      {
        assert l in items;
      }
    }

    /**
     * `save`: chooses `dir` when it is non-empty, creates the directory when
     * it is missing, then saves every record (`SaveAll`) and finally writes
     * the index. `order` is the order the records were taken in.
     */
    method Save(dir: Path, fs: Fs, now: int) returns (ghost order: seq<Path>, index: map<Path, Entry>)
      requires Valid()
      requires dir != "" || cacheDir.Some?
      requires forall p :: p in cachedFiles ==> cachedFiles[p].content.Some?
      modifies this`cacheDir, this`cachedFiles, this`dirs, Repr
      ensures cacheDir == (if dir != "" then Some(dir) else old(cacheDir))
      ensures Valid() && Repr == old(Repr) && modifiedTimes == old(modifiedTimes)
      ensures cachedFiles.Keys == old(cachedFiles).Keys
      ensures forall p :: p in cachedFiles ==> cachedFiles[p] == old(cachedFiles)[p].(content := None)
      ensures forall p :: p in cachedFiles ==>
        && multiset(cachedFiles[p].deps.items) == old(multiset(cachedFiles[p].deps.items))
        && NewestFirst(fs, now, cachedFiles[p].deps.items)
      ensures forall l :: l in old(Repr) && l !in Arrays(old(cachedFiles)) ==> l.items == old(l.items)
      ensures forall i :: 0 <= i < |order| ==> order[i] in old(cachedFiles)
      ensures forall p :: p in old(cachedFiles) ==> p in order
      ensures Distinct(order)
      ensures index.Keys == cachedFiles.Keys
      ensures forall p :: p in index ==> index[p] == Entry(cachedFiles[p].lastModified, cachedFiles[p].deps.items)
      ensures dirs == old(dirs)[cacheDir.value := Directory(
        WriteAll(BodiesIn(old(dirs), cacheDir.value), Contents(old(cachedFiles)), order, CacheName), Some(index))]
    {
      // The dependency arrays are never the cache object itself.
      assert forall l :: l in Repr ==> l as object != this as object;
      var d := if dir != "" then dir else cacheDir.value;
      var bodies;
      bodies, order := SaveAll(BodiesIn(dirs, d), fs, now);
      index := Index();
      cacheDir := Some(d);
      dirs := dirs[d := Directory(bodies, Some(index))];
    }

    /**
     * What `get` finds in a directory `save` wrote: the staged content of
     * a path whose cache name no other staged path shares.
     */
    lemma GetAfterSave(before: map<string, string>, contents: map<Path, string>, order: seq<Path>, p: Path)
      requires cacheDir.Some? && cacheDir.value in dirs
      requires forall i :: 0 <= i < |order| ==> order[i] in contents
      requires dirs[cacheDir.value].bodies == WriteAll(before, contents, order, CacheName)
      requires p in contents && p in order && NameIsUnique(p, contents.Keys, CacheName)
      ensures Get(p) == Some(contents[p])
    {
      WriteAllUnique(before, contents, order, CacheName, p);
    }

    /**
     * `load`: makes `dir` the active directory. A missing directory is
     * created and nothing else happens; an existing index file replaces every
     * record, each with a new dependency array and no content.
     */
    method Load(dir: Path)
      requires Valid() && dir != ""
      modifies this
      ensures Valid() && cacheDir == Some(dir) && modifiedTimes == old(modifiedTimes)
      ensures dir !in old(dirs) ==>
        dirs == old(dirs)[dir := Directory(map[], None)] && cachedFiles == old(cachedFiles) && Repr == old(Repr)
      ensures dir in old(dirs) ==> dirs == old(dirs)
      ensures dir in old(dirs) && old(dirs)[dir].info.None? ==> cachedFiles == old(cachedFiles) && Repr == old(Repr)
      ensures dir in old(dirs) && old(dirs)[dir].info.Some? ==>
        && Index() == old(dirs)[dir].info.value
        && (forall p :: p in cachedFiles ==> cachedFiles[p].content == None && fresh(cachedFiles[p].deps))
        && (forall p, q :: p in cachedFiles && q in cachedFiles && p != q ==> cachedFiles[p].deps != cachedFiles[q].deps)
    {
      cacheDir := Some(dir);
      if dir !in dirs {
        dirs := dirs[dir := Directory(map[], None)];
        return;
      }
      if dirs[dir].info.Some? {
        var index := dirs[dir].info.value;
        var loaded: map<Path, Record> := map[];
        ghost var lists: set<DepList> := {};
        var keys := index.Keys;
        while keys != {}
          invariant keys <= index.Keys
          invariant cacheDir == Some(dir) && dirs == old(dirs) && modifiedTimes == old(modifiedTimes)
          invariant loaded.Keys == index.Keys - keys
          invariant forall q :: q in loaded ==>
            && loaded[q].lastModified == index[q].lastModified && loaded[q].content == None
            && loaded[q].deps in lists && fresh(loaded[q].deps) && loaded[q].deps.items == index[q].deps
          invariant forall q, q' :: q in loaded && q' in loaded && q != q' ==> loaded[q].deps != loaded[q'].deps
          decreases keys
        {
          var q :| q in keys;
          var list := new DepList(index[q].deps);
          loaded := loaded[q := Record(index[q].lastModified, list, None)];
          lists := lists + {list};
          keys := keys - {q};
        }
        cachedFiles := loaded;
        Repr := lists;
      }
    }
  }
}
