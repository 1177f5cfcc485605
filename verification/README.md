# edp-build file cache, modelled in Dafny

This project models `lib/filecache.js`, the dependency-aware cache that
edp-build uses for compiled files such as less or stylus output. The cache
keeps each compiled body on disk under a sanitised name. Each record holds:

- the time it was cached;
- the list of files it depends on, which always includes the source itself;
- the compiled content, while the record is staged in memory and not yet saved.

A lookup (`check`) fails when any dependency changed after the record was
cached. Otherwise it returns the stored body (`get`).

The environment is made explicit:

- The source file system is a map from path to modification time in
  milliseconds (`Timestamps.Fs`). A path that is absent from the map is a
  missing file.
- Cache directories are a map from directory path to a `Directory`: the
  content bodies by file name, and the index file (`info.json`) when there
  is one.
- The clock is a `now: int` parameter.

The module state (`cachedFiles`, `modifiedTimes`, `cacheDir`) lives in the
fields of the class `Cache.FileCache`, together with the directories on disk.

The model has six modules:

- `Basics` (`basics.dfy`): paths as strings, and the `Option` type.
- `CacheNames` (`cache_names.dfy`): `getCacheName`, the `[^\w.]` → `_`
  sanitiser.
- `Timestamps` (`timestamps.dfy`): how a dependency's time is resolved, and
  the memo with JavaScript truthiness. A `statSync().mtime` is a `Date`
  object, which is always truthy. A `Date.now()` number is falsy when it is
  0, so such a memo entry is resolved again.
- `Recency` (`recency.dfy`): `sortDeps`. A dependency array is a JavaScript
  array object (`DepList`), because the cache shares the very array the
  caller hands to `set`, and `save` sorts that array in place. `SortDeps`
  is proved against `SortByRecency`, an insertion sort used as the reference
  for the stable `Array.prototype.sort` with comparator `t[b] - t[a]`.
- `Validity` (`validity.dfy`): the dependency loop of `check`, as the
  function `Scan`. `Scan` is proved against the plain staleness condition
  `Stale`, and its memo behaviour is proved too.
- `Cache` (`file_cache.dfy`): the class `FileCache` with `Set`, `Check`,
  `Get`, `Save` and `Load`, and the directory writes of `save`
  (`WriteAll`) with their properties.

`save` walks the records in `Object.keys` order. The model takes them in an
arbitrary order: `Save` returns that order as a ghost value, and its
contract holds for every order.

## Model

| member | source | states |
|---|---|---|
| CacheNames.CacheName | lib/filecache.js:47-49 | the cache name has exactly the length of the path |
| CacheNames.CacheNameChars | lib/filecache.js:47-49 | every character of a cache name is in `[A-Za-z0-9_.]`; a path character in that class is kept at its position; any other becomes `_` |
| CacheNames.CacheNameFixedPoint | lib/filecache.js:48 | a name is its own cache name if and only if all its characters are in `[A-Za-z0-9_.]` |
| CacheNames.CacheNameIdempotent | lib/filecache.js:48 | sanitising a cache name again leaves it unchanged |
| CacheNames.CacheNamesCollide | lib/filecache.js:47-49 | two distinct paths (`a/b`, `a_b`) share one cache name, so their bodies share one file |
| Timestamps.FreshStamp | lib/filecache.js:133-139 | definition: a path that exists resolves to its stat time, a missing one to the clock reading |
| Timestamps.Lookup | lib/filecache.js:131-139 | definition: a truthy memo entry is reused, anything else is resolved afresh; its properties are stated by `Remember` and `RememberKeepsLookups` |
| Timestamps.Remember | lib/filecache.js:131-141 | after a lookup of `p` the memo holds `p` with the time that lookup yields; other entries are kept; the only key that can be new is `p` |
| Timestamps.RememberKeepsLookups | lib/filecache.js:131-141 | remembering a lookup changes the answer of no later lookup made with the same disk and clock |
| Validity.Scan | lib/filecache.js:130-146 | definition of the dependency loop; its properties are the `Scan…` lemmas below and `SelfInvalidation` |
| Validity.ScanDecidesStale | lib/filecache.js:130-146 | the dependency loop reports a stale record exactly when some dependency resolves to a time strictly after `lastModified` |
| Validity.ScanMemoGrows | lib/filecache.js:131-141 | the loop never removes a memo entry and never replaces a truthy one; every entry is kept or a fresh resolution of a dependency; no lookup's answer changes |
| Validity.ScanResolvesEveryDep | lib/filecache.js:130-146 | when nothing is stale, every dependency is in the memo afterwards |
| Validity.ScanStopsAtNewer | lib/filecache.js:143-145 | the loop exits at the first newer dependency: nothing after it is added to the memo |
| Validity.SelfInvalidation | lib/filecache.js:143-145 | a record whose own source is in its dependency list, and whose source is newer than the record, is stale |
| Validity.VanishedDependencyInvalidates | lib/filecache.js:133-136 | a dependency that no longer exists and has no truthy memo entry resolves to now, so the record is stale whenever now is after `lastModified` |
| Recency.DepList.constructor | lib/filecache.js:159-163 | a new array holds exactly the given paths; the record keeps the array object itself, not a copy |
| Recency.SortByRecency | lib/filecache.js:35-37 | the sorted list is a permutation of the input, and every path in it has a time |
| Recency.SortNewestFirst | lib/filecache.js:35-37 | the sorted list is in non-increasing order of time |
| Recency.SortStable | lib/filecache.js:35-37 | for every time `t`, the paths with time `t` keep their relative order |
| Recency.SortDeps | lib/filecache.js:19-39 | the array afterwards is the reference sort of its old contents by freshly resolved times, where a missing file counts as now; it is a permutation of the old contents and is newest first |
| Cache.WriteAll | lib/filecache.js:88-95 | writing content bodies never removes a file that was in the directory |
| Cache.WriteAllByNamesake | lib/filecache.js:92-93 | after every record is written, each record's cache name holds the content of some record with that name |
| Cache.WriteAllUnique | lib/filecache.js:92-93 | a record whose cache name no other record shares finds its own content under that name |
| Cache.WriteAllUntouched | lib/filecache.js:92-93 | a file whose name is no record's cache name keeps its old body |
| Cache.SortedStep | lib/filecache.js:88-89 | sorting one more record's array keeps every array a permutation of what it held, leaves every array no record holds as it was, and keeps sorted the array of every record already visited, even when records share an array |
| Cache.DistinctAppend | lib/filecache.js:88 | appending a path not yet visited keeps the visiting order free of repeats |
| Cache.DistinctPositions | lib/filecache.js:88 | an order free of repeats has different paths at different positions, so each record is visited exactly once |
| Cache.FileCache.constructor | lib/filecache.js:9-12 | the cache starts with no records, an empty memo and no directory |
| Cache.FileCache.Index | lib/filecache.js:97-98 | the index has one entry per record |
| Cache.FileCache.Get | lib/filecache.js:108-111 | a body is found exactly when the active directory has a file under the path's cache name, and it is that file's body |
| Cache.FileCache.Set | lib/filecache.js:158-166 | the record for `p` is stamped `now` and holds the content; `p` is appended to the caller's own array, or to a new array when there is none, and the record shares that array; `p` is in its own dependency list; every other record, the memo and the disk are unchanged |
| Cache.FileCache.Check | lib/filecache.js:119-149 | no record: nothing is found and the memo is unchanged; otherwise nothing is found if the record is `Stale`, else what `Get` finds; the memo becomes what the dependency loop leaves; a directory is needed only when the record is not stale |
| Cache.FileCache.SaveRecord | lib/filecache.js:89-94 | one record's array is sorted newest first as a permutation, its cache name and content are returned for writing, and its content is dropped |
| Cache.FileCache.SaveEach | lib/filecache.js:88-95 | every record is visited exactly once, in some order without repeats; each array is a permutation of what it held, the array of every record is sorted, and an array no record holds is untouched; the directory is the contents written in that order; every content is dropped |
| Cache.FileCache.SaveAll | lib/filecache.js:88-95 | the records keep their keys, times and arrays and lose their content; each record's array is a permutation of its old contents and is newest first; an array no record holds keeps its contents; every record is visited exactly once; the bodies are every content written in the visiting order |
| Cache.FileCache.Save | lib/filecache.js:79-99 | the directory becomes `dir` when one is given; its bodies are the staged contents written over what was there (a missing directory starts empty); the index file is replaced by every record without content; each record's array is sorted newest first as a permutation, and an array no record holds keeps its contents; every record is visited exactly once; the memo is unchanged |
| Cache.FileCache.GetAfterSave | lib/filecache.js:108-111 | in a directory `save` wrote, `get` returns the staged content of a path whose cache name is unique |
| Cache.FileCache.Load | lib/filecache.js:59-71 | the directory becomes active; a missing directory is created empty and nothing else changes; an existing index file replaces every record, each with a new array of its own, the saved time and no content; without an index file the records are kept |

## Left out

- File system calls (`existsSync`, `statSync`, `readFileSync`, `writeFileSync`, `mkdirSync`) are replaced by the maps described above. Their failures (permissions, a failing `mkdirSync`) are not modelled.
- `path.join` is not modelled. A cache file is the directory's entry under its cache name. A name of `.` or `..`, or a cache name equal to `info.json`, is kept as an ordinary entry, although the real path would then point elsewhere or at the index file.
- `Date.now()` and `Date` objects are replaced by the `now` parameter and by integer milliseconds.
- Cache.FileCache.Save: takes one clock reading for the whole save, where the source reads the clock once per `sortDeps` call.
- JSON (de)serialisation of `info.json`: the index is stored as a map of entries. Malformed index files are not modelled.
- `Object.keys` order and object-key details (prototype keys such as `constructor`) are not modelled. `save` visits records in an arbitrary order.
- Cache.FileCache.Save: requires every record to hold content. After a `save`, or after a `load`, records have none, and line 93 would then write `undefined`; a second save is therefore not modelled.
- Cache.FileCache.Save: requires a directory, either `dir` or an earlier one. Without one, the source calls `mkdirSync(undefined)`, which throws.
- Cache.FileCache.Load: requires a non-empty directory path. An empty or missing `config.dir` makes `mkdirSync` throw.
- Cache.FileCache.Get: requires an active directory. Without one, `path.join(undefined, …)` throws.
- Cache.FileCache.Check: requires an active directory only when the record exists and is not stale, because only then does line 148 call `get`, which needs one.
- Cache.WriteAllByNamesake: for paths that share a cache name, the model states only that the file holds one of their contents, not which one. Which record wins depends on `Object.keys` order.
- Cache.FileCache.Set: a `deps` argument that is falsy but not null (`0`, `""`) also becomes a new array in the source. The model only takes an array or null. A truthy non-array, on which `push` throws, is not modelled.
- On these points the model follows the code:
  - A memo entry equal to the number 0 is falsy. `check` and `sortDeps` resolve it again and overwrite it.
  - `\w` without the `u` flag is ASCII only.
- CacheNames.CacheName: a path is a sequence of Unicode scalar values, while a JavaScript string is a sequence of UTF-16 code units. A character outside the Basic Multilingual Plane becomes two `_` in the source and one `_` in the model.
- Concurrency, crash safety and partial writes of `save` are out of scope. The model writes all bodies and then the index in one step.
