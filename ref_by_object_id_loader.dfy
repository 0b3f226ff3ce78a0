/** RefByObjectIdLoader.load: the reverse lookup from an object id to the
    refs pointing at it, computed from the refs the name cache holds. */
module RefByObjectIdLoader {
  import opened Refs

  /** load(key) over the name cache's present refs `cached`. The filter
      calls getObjectId().equals(key) on every ref, so one unborn ref (a
      null object id) makes the load throw NullPointerException. */
  function Load(key: ObjectId, cached: set<Ref>): (r: Result<set<Ref>>)
    ensures r.Fail? <==> exists x :: x in cached && ObjectIdOf(x).None?
    ensures r.Fail? ==> r.error == NullPointerException
    ensures r.Ok? ==> r.value <= cached
    ensures r.Ok? ==> forall x :: x in r.value ==> ObjectIdOf(x) == Some(key)
    ensures r.Ok? ==> forall x :: x in cached && ObjectIdOf(x) == Some(key) ==> x in r.value
  {
    if exists x :: x in cached && ObjectIdOf(x).None? then Fail(NullPointerException)
    else Ok(set x | x in cached && ObjectIdOf(x) == Some(key))
  }

  /** Loads of different ids never share a ref, and together they cover
      every cached ref. */
  lemma LoadPartitions(k1: ObjectId, k2: ObjectId, cached: set<Ref>, x: Ref)
    requires Load(k1, cached).Ok?
    ensures Load(k2, cached).Ok?
    ensures k1 != k2 ==> x !in Load(k1, cached).value || x !in Load(k2, cached).value
    ensures x in cached ==> x in Load(ObjectIdOf(x).value, cached).value
  {
  }

  /** Loading is monotone in the name cache's contents: more cached refs
      can only add refs to a successful load. */
  lemma LoadMonotone(key: ObjectId, small: set<Ref>, large: set<Ref>)
    requires small <= large && Load(key, large).Ok?
    ensures Load(key, small).Ok? && Load(key, small).value <= Load(key, large).value
  {
  }
}
