/**
 * The sanitiser behind `getCacheName`: the name under which a source path's
 * compiled body is stored in the cache directory.
 */
module CacheNames {

  /** The characters of the regular-expression class `[\w.]` (without the `u` flag `\w` is ASCII only). */
  predicate IsNameChar(c: char) {
    ('a' <= c <= 'z') || ('A' <= c <= 'Z') || ('0' <= c <= '9') || c == '_' || c == '.'
  }

  /**
   * Every character outside `[\w.]` becomes `_`; everything else is kept in
   * place (see `CacheNameChars`).
   */
  function CacheName(path: string): (name: string)
    ensures |name| == |path|
  {
    if path == [] then []
    else
      var last := path[|path| - 1];
      CacheName(path[..|path| - 1]) + [if IsNameChar(last) then last else '_']
  }

  /** A cache name is made of `[\w.]` only: kept characters stay in place, any other becomes `_`. */
  lemma {:induction false} CacheNameChars(path: string)
    ensures forall i :: 0 <= i < |path| ==> IsNameChar(CacheName(path)[i])
    ensures forall i :: 0 <= i < |path| && IsNameChar(path[i]) ==> CacheName(path)[i] == path[i]
    ensures forall i :: 0 <= i < |path| && !IsNameChar(path[i]) ==> CacheName(path)[i] == '_'
  {
    if path != [] {
      var prefix, last := path[..|path| - 1], path[|path| - 1];
      CacheNameChars(prefix);
      assert forall i :: 0 <= i < |prefix| ==> path[i] == prefix[i];
    }
  }

  /** A name made only of kept characters is its own cache name, and only such a name is. */
  lemma {:induction false} CacheNameFixedPoint(path: string)
    ensures CacheName(path) == path <==> forall i :: 0 <= i < |path| ==> IsNameChar(path[i])
  {
    var name := CacheName(path);
    CacheNameChars(path);
    if forall i :: 0 <= i < |path| ==> IsNameChar(path[i]) {
      assert forall i :: 0 <= i < |path| ==> name[i] == path[i];
    }
  }

  /** Sanitising twice is sanitising once. */
  lemma {:induction false} CacheNameIdempotent(path: string)
    ensures CacheName(CacheName(path)) == CacheName(path)
  {
    CacheNameChars(path);
    CacheNameFixedPoint(CacheName(path));
  }

  /** Two distinct paths can share a cache name, so their bodies share one file. */
  lemma CacheNamesCollide()
    ensures "a/b" != "a_b" && CacheName("a/b") == CacheName("a_b")
  {
    var n1, n2 := CacheName("a/b"), CacheName("a_b");
    CacheNameChars("a/b");
    CacheNameChars("a_b");
    assert n1[1] == '_' && n2[1] == '_';
    assert n1 == n2;
  }
}
