/** The other two name caches of the older generation: the per-request
    HashMap cache, registered in a per-thread cache under one key, and the
    no-op fallback used when no cache is bound. */
module LegacyNameCaches {
  import opened Refs
  import RS = RefStore

  /** PerThreadRefByNameCache: a HashMap from `identifier$ref` to an
      Optional ref. */
  class PerThreadNameCache {
    var refByName: map<string, Option<Ref>>

    /** A new instance holds no entries. */
    constructor()
      ensures refByName == map[]
    {
      refByName := map[];
    }

    /** computeIfAbsent(identifier, refName, loader): `loader` is what the
        loader would produce and `loaded` tells whether it ran. It runs only
        for an absent key; its value is stored, and any failure is caught
        and stored as empty, so it stays until evicted. The answer is the
        stored value (null for empty). */
    method ComputeIfAbsent(identifier: string, name: string, loader: Result<Option<Ref>>)
      returns (r: Option<Ref>, loaded: bool)
      modifies this
      ensures var key := UniqueName(identifier, name);
        && (loaded <==> key !in old(refByName))
        && (!loaded ==> r == old(refByName)[key] && refByName == old(refByName))
        && (loaded ==> r == (if loader.Ok? then loader.value else None) && refByName == old(refByName)[key := r])
    {
      var key := UniqueName(identifier, name);
      if key in refByName {
        return refByName[key], false;
      }
      r := if loader.Ok? then loader.value else None;
      refByName := refByName[key := r];
      loaded := true;
    }

    /** evict(identifier, ref): remove exactly that key. */
    method Evict(identifier: string, name: string)
      modifies this
      ensures refByName == old(refByName) - {UniqueName(identifier, name)}
    {
      refByName := refByName - {UniqueName(identifier, name)};
    }
  }

  /** The per-thread cache, holding the value stored under REF_CACHE_KEY. */
  class PerThreadCache {
    var slot: Option<PerThreadNameCache>

    constructor()
      ensures slot == None
    {
      slot := None;
    }

    /** PerThreadRefByNameCache.get(perThreadCache): the instance already
        registered, or a new empty one, registered for later calls. */
    method Get() returns (c: PerThreadNameCache)
      modifies this
      ensures old(slot).Some? ==> c == old(slot).value && slot == old(slot)
      ensures old(slot).None? ==> fresh(c) && c.refByName == map[] && slot == Some(c)
    {
      if slot.Some? {
        return slot.value;
      }
      c := new PerThreadNameCache();
      slot := Some(c);
    }
  }

  /** A failed load is cached as empty: after a failure, a later call for
      the same key answers null without running its loader. */
  method FailureStaysCached(c: PerThreadNameCache, identifier: string, name: string, e: Exception, later: Result<Option<Ref>>)
    returns (first: Option<Ref>, second: Option<Ref>, secondLoaded: bool)
    requires UniqueName(identifier, name) !in c.refByName
    modifies c
    ensures first == None && second == None && !secondLoaded
  {
    var l1;
    first, l1 := c.ComputeIfAbsent(identifier, name, Fail(e));
    second, secondLoaded := c.ComputeIfAbsent(identifier, name, later);
  }

  // ---------------------------------------------------------------------
  // NoOpRefByNameCache
  // ---------------------------------------------------------------------

  /** computeIfAbsent: the loader runs on every call; its value is the
      answer, and a failure answers null. Nothing is kept. */
  function NoOpComputeIfAbsent(identifier: string, name: string, loader: Result<Option<Ref>>): (r: Option<Ref>)
    ensures r.Some? <==> loader.Ok? && loader.value.Some?
    ensures r.Some? ==> loader == Ok(r)
  {
    match loader
    case Ok(v) => v
    case Fail(_) => None
  }

  /** all(identifier): always empty. */
  function NoOpAll(identifier: string): (refs: seq<Ref>)
    ensures |refs| == 0
  {
    []
  }

  /** hasRefs(identifier): always false. */
  function NoOpHasRefs(identifier: string): (b: bool)
    ensures !b
  {
    false
  }

  /** refsByObjectId(identifier): a new, empty multimap. */
  function NoOpRefsByObjectId(identifier: string): (m: map<ObjectId, set<Ref>>)
    ensures forall id :: id !in m
  {
    map[]
  }

  /** Without a cache nothing is memoised: exactRef's loader runs on every
      call, so each answer is the store's current ref of the name (null when
      the store cannot be read), whatever earlier calls answered. */
  lemma NoOpAnswersStore(identifier: string, name: string, store: RS.RefStore)
    ensures NoOpComputeIfAbsent(identifier, name, RS.ExactRef(store, name)) ==
      if store.readable then RS.Find(store.refs, name) else None
  {
  }
}
