/**
 * `bsp/FastpassTargetListCache`: a map from a file to the pending list of its
 * targets, filled by `computeIfAbsent`. The fetcher (`availableTargetsIn`) is
 * a parameter of the cache, its result an opaque value. The fetcher runs an
 * outside process, so its answer may differ from call to call: the model
 * passes it the number of calls made before, and records the calls in a log.
 */
module BspTargetListCache {

  class FastpassTargetListCache<File(==,!new), Targets> {
    /** The fetcher, `FastpassUtils::availableTargetsIn`. */
    const fetch: (File, nat) -> Targets
    /** The `cache` map. */
    var cache: map<File, Targets>
    /** The keys the fetcher was called with, in call order. */
    var fetchLog: seq<File>

    /**
     * Each key was fetched exactly once, the entries are the keys fetched,
     * and each entry holds what the fetcher returned on the call for its key.
     */
    ghost predicate Valid()
      reads this
    {
      && (forall i, j :: 0 <= i < j < |fetchLog| ==> fetchLog[i] != fetchLog[j])
      && (forall f :: f in cache <==> f in fetchLog)
      && (forall i :: 0 <= i < |fetchLog| ==> fetchLog[i] in cache && cache[fetchLog[i]] == fetch(fetchLog[i], i))
    }

    constructor (fetch: (File, nat) -> Targets)
      ensures Valid()
      ensures this.fetch == fetch && cache == map[] && fetchLog == []
    {
      this.fetch := fetch;
      cache := map[];
      fetchLog := [];
    }

    /**
     * `getTargetsList`: a hit returns the stored value and calls nothing; a
     * miss calls the fetcher once, stores its result and returns it. No entry
     * is removed or replaced.
     */
    method GetTargetsList(file: File) returns (r: Targets)
      requires Valid()
      modifies this
      ensures Valid()
      ensures file in cache && r == cache[file]
      ensures old(file in cache) ==> r == old(cache)[file] && cache == old(cache) && fetchLog == old(fetchLog)
      ensures old(file !in cache) ==>
        && r == fetch(file, |old(fetchLog)|)
        && cache == old(cache)[file := r]
        && fetchLog == old(fetchLog) + [file]
      ensures forall f :: f in old(cache) ==> f in cache && cache[f] == old(cache)[f]
    {
      if file !in cache {
        var fetched := fetch(file, |fetchLog|);
        cache := cache[file := fetched];
        fetchLog := fetchLog + [file];
      }
      r := cache[file];
    }
  }
}
