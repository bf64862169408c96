/**
 * `compiler/actions/FastpassTargetListCache`: the same cache written as
 * `get`, a `null` test, then `put`. Called one at a time it behaves as the
 * `computeIfAbsent` version.
 */
module ActionsTargetListCache {
  import opened Wrappers

  class FastpassTargetListCache<File(==,!new), Targets> {
    /** The fetcher, `FastpassUtils.availableTargetsIn`. */
    const fetch: (File, nat) -> Targets
    /** The `cache` map. */
    var cache: map<File, Targets>
    /** The keys the fetcher was called with, in call order. */
    var fetchLog: seq<File>

    ghost predicate Valid()
      reads this
    {
      && (forall i, j :: 0 <= i < j < |fetchLog| ==> fetchLog[i] != fetchLog[j])
      && (forall f :: f in cache <==> f in fetchLog)
      && (forall i :: 0 <= i < |fetchLog| ==> fetchLog[i] in cache && cache[fetchLog[i]] == fetch(fetchLog[i], i))
    }

    constructor (fetch: (File, nat) -> Targets)
      ensures Valid()
      ensures this.fetch == fetch && cache == map[] && fetchLog == []
    {
      this.fetch := fetch;
      cache := map[];
      fetchLog := [];
    }

    /** `cache.get(file)`: the stored value, or `null` (`None`) when absent. */
    function Get(file: File): (r: Option<Targets>)
      reads this
      ensures r.Some? <==> file in cache
      ensures r.Some? ==> r.value == cache[file]
    {
      if file in cache then Some(cache[file]) else None
    }

    /**
     * `getTargetsList`: a stored value is returned unchanged; otherwise the
     * fetcher's result is put under `file` and that same value returned.
     * No entry is removed and no other key changes.
     */
    method GetTargetsList(file: File) returns (r: Targets)
      requires Valid()
      modifies this
      ensures Valid()
      ensures file in cache && r == cache[file]
      ensures old(file in cache) ==> r == old(cache)[file] && cache == old(cache) && fetchLog == old(fetchLog)
      ensures old(file !in cache) ==>
        && r == fetch(file, |old(fetchLog)|)
        && cache == old(cache)[file := r]
        && fetchLog == old(fetchLog) + [file]
      ensures forall f :: f in old(cache) ==> f in cache && cache[f] == old(cache)[f]
    {
      var match_ := Get(file);
      if match_.None? {
        var result := fetch(file, |fetchLog|);
        cache := cache[file := result];
        fetchLog := fetchLog + [file];
        r := result;
      } else {
        r := match_.value;
      }
    }
  }
}
