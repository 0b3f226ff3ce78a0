/** RefsByObjectIdCacheImpl: a loading cache from object id to the set of
    refs pointing at it, loaded by RefByObjectIdLoader from the name cache. */
module RefsByObjectIdCache {
  import opened Refs
  import RefByObjectIdLoader

  /** A key as Guava's invalidate(Object) receives it: the cache stores
      ObjectId keys, but evict passes a String, which equals no ObjectId. */
  datatype CacheKey = IdKey(id: ObjectId) | StringKey(name: string)

  /** Invalidating a String key removes nothing from a map of ObjectId keys. */
  lemma {:induction false} InvalidateStringKeyRemovesNothing(entries: map<CacheKey, set<Ref>>, objectId: string)
    requires forall k :: k in entries ==> k.IdKey?
    ensures entries - {StringKey(objectId)} == entries
  {
    assert StringKey(objectId) !in entries;
  }

  /** Evicting by the id's hexadecimal name leaves the id's entry cached. */
  lemma EvictByNameKeepsEntry(entries: map<CacheKey, set<Ref>>, id: ObjectId)
    requires IdKey(id) in entries
    ensures IdKey(id) in entries - {StringKey(id.name)}
    ensures (entries - {StringKey(id.name)})[IdKey(id)] == entries[IdKey(id)]
  {
  }

  class ObjectIdCache {
    var entries: map<CacheKey, set<Ref>>

    /** Only ObjectId keys are ever stored. */
    predicate Valid()
      reads this
    {
      forall k :: k in entries ==> k.IdKey?
    }

    constructor()
      ensures Valid() && entries == map[]
    {
      entries := map[];
    }

    /** get(id) with the name cache holding `cached`: a cached set is
        returned as is; otherwise the loader runs and its set is stored. A
        checked load failure returns null; the loader's NullPointerException
        is unchecked and propagates. Nothing is stored on failure. */
    method Get(id: ObjectId, cached: set<Ref>) returns (r: Result<Option<set<Ref>>>)
      requires Valid()
      modifies this
      ensures Valid()
      ensures IdKey(id) in old(entries) ==> r == Ok(Some(old(entries)[IdKey(id)])) && entries == old(entries)
      ensures IdKey(id) !in old(entries) ==>
        match RefByObjectIdLoader.Load(id, cached)
        case Ok(s) => r == Ok(Some(s)) && entries == old(entries)[IdKey(id) := s]
        case Fail(e) => r == (if Checked(e) then Ok(None) else Fail(e)) && entries == old(entries)
    {
      if IdKey(id) in entries {
        return Ok(Some(entries[IdKey(id)]));
      }
      match RefByObjectIdLoader.Load(id, cached) {
        case Ok(s) =>
          entries := entries[IdKey(id) := s];
          r := Ok(Some(s));
        case Fail(e) =>
          r := if Checked(e) then Ok(None) else Fail(e);
      }
    }

    /** put(id, ref): the bucket becomes exactly {ref}. */
    method Put(id: ObjectId, ref: Ref)
      requires Valid()
      modifies this
      ensures Valid()
      ensures entries == old(entries)[IdKey(id) := {ref}]
    {
      entries := entries[IdKey(id) := {ref}];
    }

    /** evict(objectId) as written: it invalidates the String key, which is
        never stored, so the cache keeps every entry. */
    method Evict(objectId: string)
      requires Valid()
      modifies this
      ensures Valid()
      ensures entries == old(entries)
    {
      InvalidateStringKeyRemovesNothing(entries, objectId);
      entries := entries - {StringKey(objectId)};
    }

    /** evict as evidently intended: invalidate the entry of that object id,
        so that the next get reloads it. */
    method EvictId(id: ObjectId)
      requires Valid()
      modifies this
      ensures Valid()
      ensures IdKey(id) !in entries
      ensures forall k :: k in entries <==> k in old(entries) && k != IdKey(id)
      ensures forall k :: k in entries ==> entries[k] == old(entries)[k]
    {
      entries := entries - {IdKey(id)};
    }
  }
}
