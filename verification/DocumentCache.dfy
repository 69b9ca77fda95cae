/** internal/index/index.go: the cache of rendered documents, each held against the moment
    its package last changed. */
module DocumentCache {
  import opened Wrappers

  datatype Cached<D> = Cached(modified: int, document: D)

  /** The entries a store may evict: none below the limit, and at it just enough to make room
      for one, whichever they are. */
  predicate Evictable<D>(entries: map<string, Cached<D>>, limit: nat, victims: set<string>) {
    && victims <= entries.Keys
    && |entries| - |victims| == if |entries| < limit then |entries| else limit - 1
  }

  /** What the cache holds once room is made and the entry is in. */
  function Stored<D>(entries: map<string, Cached<D>>, victims: set<string>, key: string, entry: Cached<D>)
    : map<string, Cached<D>>
  {
    (entries - victims)[key := entry]
  }

  /** Whatever is evicted, the limit holds and the new entry is there. */
  lemma StoringKeepsLimit<D>(entries: map<string, Cached<D>>, limit: nat, victims: set<string>, key: string,
      entry: Cached<D>)
    requires limit >= 1 && |entries| <= limit && Evictable(entries, limit, victims)
    ensures |Stored(entries, victims, key, entry)| <= limit && |victims| <= 1
    ensures |entries| < limit ==> Stored(entries, victims, key, entry) == entries[key := entry]
    ensures key in Stored(entries, victims, key, entry) && Stored(entries, victims, key, entry)[key] == entry
    ensures forall k | k in Stored(entries, victims, key, entry) && k != key ::
              k in entries && Stored(entries, victims, key, entry)[k] == entries[k]
  {
    var kept := entries - victims;
    assert kept.Keys == entries.Keys - victims;
    assert |kept| == |kept.Keys| == |entries.Keys| - |victims|;
    var after := Stored(entries, victims, key, entry);
    assert after.Keys == kept.Keys + {key};
    assert |after| == |after.Keys| <= |kept.Keys| + 1;
  }

  class Cache<D> {
    const limit: nat
    var entries: map<string, Cached<D>>

    ghost predicate Valid()
      reads this
    {
      limit >= 1 && |entries| <= limit
    }

    constructor (limit: int)
      ensures Valid() && entries == map[] && this.limit == if limit < 1 then 1 else limit
    {
      this.limit := if limit < 1 then 1 else limit;
      this.entries := map[];
    }

    /** Answers the document held for key, only if it was built at exactly that moment. */
    method Lookup(key: string, modified: int) returns (r: Option<D>)
      ensures r.Some? <==> key in entries && entries[key].modified == modified
      ensures r.Some? ==> r.value == entries[key].document
    {
      if key !in entries || entries[key].modified != modified {
        return None;
      }
      return Some(entries[key].document);
    }

    method Store(key: string, modified: int, document: D)
      requires Valid()
      modifies this
      ensures Valid()
      ensures exists victims :: Evictable(old(entries), limit, victims)
                                && entries == Stored(old(entries), victims, key, Cached(modified, document))
    {
      ghost var victims: set<string> := {};
      assert entries - {} == entries;
      while |entries| >= limit
        invariant victims <= old(entries).Keys && entries == old(entries) - victims
        invariant |entries| == |old(entries)| - |victims|
        invariant |entries| <= limit
        invariant victims != {} ==> |entries| == limit - 1
        decreases |entries|
      {
        assert |entries| == |entries.Keys|;
        var victim :| victim in entries.Keys;
        EvictOne(old(entries), victims, victim);
        entries := entries - {victim};
        victims := victims + {victim};
      }
      assert Evictable(old(entries), limit, victims);
      StoringKeepsLimit(old(entries), limit, victims, key, Cached(modified, document));
      entries := entries[key := Cached(modified, document)];
    }
  }

  lemma EvictOne<D>(entries: map<string, Cached<D>>, victims: set<string>, victim: string)
    requires victims <= entries.Keys && victim in entries - victims
    ensures victims + {victim} <= entries.Keys && |victims + {victim}| == |victims| + 1
    ensures entries - victims - {victim} == entries - (victims + {victim})
    ensures |entries - (victims + {victim})| == |entries - victims| - 1
  {
    var kept, left := entries - victims, entries - (victims + {victim});
    assert left.Keys == kept.Keys - {victim};
    assert |left| == |left.Keys| && |kept| == |kept.Keys|;
  }
}
