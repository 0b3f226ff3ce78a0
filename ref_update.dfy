/** RefUpdateWithCacheUpdate: a JGit RefUpdate that lets the backing update
    run, returns its result code unchanged, and only after a successful code
    brings the cache up to date. */
module RefUpdateWithCacheUpdate {
  import opened Refs
  import opened RefStore
  import opened PrefixTree
  import opened RefDatabaseCacheSpec
  import RefDatabaseCacheImpl

  /** The public mutators of RefUpdate. */
  datatype Mutation =
    | ForceUpdate
    | Update
    | UpdateWithWalk
    | Link(target: string)
    | Delete
    | DeleteWithWalk

  predicate IsDelete(m: Mutation)
  {
    m == Delete || m == DeleteWithWalk
  }

  /** refreshCachesOnSuccessfulUpdate(r): on success re-read `name` from the
      store into the prefix tree, then refresh the old and the new id's
      buckets. A cache ExecutionException becomes IOException. */
  function Refresh(s: CacheState, project: string, name: string, code: UpdateResult,
                   oldId: Option<ObjectId>, newId: Option<ObjectId>, store: RefStore): (st: Step<UpdateResult>)
    ensures st.result.Ok? ==> st.result.value == code
    ensures code !in SuccessfulUpdates ==> st == Step(s, Ok(code))
    ensures st.result.Fail? ==> st.result.error != ExecutionException
  {
    if code !in SuccessfulUpdates then Step(s, Ok(code))
    else
      var u := UpdateRef(s, project, name, store);
      match u.result
      case Fail(e) => Step(u.state, Fail(if e == ExecutionException then IOException else e))
      case Ok(_) => Step(EvictObjectIdCache(EvictObjectIdCache(u.state, project, oldId), project, newId), Ok(code))
  }

  /** evictCacheOnSuccessfulUpdate(r): on success evict `name` from the
      prefix tree and invalidate the old id's bucket. */
  function EvictOnSuccess(s: CacheState, project: string, name: string, code: UpdateResult,
                          oldId: Option<ObjectId>, store: RefStore): (st: Step<UpdateResult>)
    ensures st.result.Ok? ==> st.result.value == code
    ensures code !in SuccessfulUpdates ==> st == Step(s, Ok(code))
    ensures st.result.Fail? ==> st.result.error == IOException && st.state == s
  {
    if code !in SuccessfulUpdates then Step(s, Ok(code))
    else
      var e := Evict(s, project, name, store);
      match e.result
      case Fail(_) => Step(e.state, Fail(IOException))
      case Ok(_) => Step(EvictObjectIdCache(e.state, project, oldId), Ok(code))
  }

  /** One mutator: the backing update reported `code` and left the store as
      `store`; the delete mutators evict, the others refresh. */
  function Run(s: CacheState, project: string, name: string, m: Mutation, code: UpdateResult,
               oldId: Option<ObjectId>, newId: Option<ObjectId>, store: RefStore): Step<UpdateResult>
  {
    if IsDelete(m) then EvictOnSuccess(s, project, name, code, oldId, store)
    else Refresh(s, project, name, code, oldId, newId, store)
  }

  /** tryLock, unlock, doUpdate, doDelete and doLink. */
  datatype LowLevelOp = TryLock | Unlock | DoUpdate | DoDelete | DoLink

  /** The low-level hooks are never meant to run: each throws. */
  function LowLevel(op: LowLevelOp): (r: Result<UpdateResult>)
    ensures r.Fail? && r.error == UnsupportedOperationException
  {
    Fail(UnsupportedOperationException)
  }

  // ---------------------------------------------------------------------
  // What a successful mutator leaves in the cache
  // ---------------------------------------------------------------------

  /** After a successful update or link the name's entry is the store's ref,
      every other name is unchanged, and the old and new ids' buckets are
      gone. */
  lemma RefreshMakesEntryCurrent(s: CacheState, project: string, name: string, code: UpdateResult,
                                 oldId: Option<ObjectId>, newId: Option<ObjectId>, store: RefStore, n: string)
    requires code in SuccessfulUpdates
    requires Refresh(s, project, name, code, oldId, newId, store).result.Ok?
    ensures var st := Refresh(s, project, name, code, oldId, newId, store);
      && project in st.state.trees
      && View(st.state, project, store, n) == (if n == name then Find(store.refs, n) else View(s, project, store, n))
      && (oldId.Some? && oldId != Some(ZeroId) ==> BucketKey(project, oldId.value) !in st.state.buckets)
      && (newId.Some? && newId != Some(ZeroId) ==> BucketKey(project, newId.value) !in st.state.buckets)
  {
    UpdateRefView(s, project, name, store, n);
  }

  /** After a successful delete the name is gone from the cache, every other
      name is unchanged, and the old id's bucket is gone. */
  lemma EvictOnSuccessRemovesEntry(s: CacheState, project: string, name: string, code: UpdateResult,
                                   oldId: Option<ObjectId>, store: RefStore, n: string)
    requires code in SuccessfulUpdates
    requires EvictOnSuccess(s, project, name, code, oldId, store).result.Ok?
    ensures var st := EvictOnSuccess(s, project, name, code, oldId, store);
      && project in st.state.trees
      && View(st.state, project, store, n) == (if n == name then None else View(s, project, store, n))
      && (oldId.Some? && oldId != Some(ZeroId) ==> BucketKey(project, oldId.value) !in st.state.buckets)
  {
    EvictView(s, project, name, store, n);
  }

  /** A cache coherent with the store before the update is coherent with the
      store after it, once the mutator returns normally; for a delete the
      store no longer holds the name. */
  lemma RunKeepsCoherence(s: CacheState, project: string, name: string, m: Mutation, code: UpdateResult,
                          oldId: Option<ObjectId>, newId: Option<ObjectId>, before: RefStore, after: RefStore)
    requires Coherent(s, project, before) && AgreeOutside(before, after, {name})
    requires IsDelete(m) && code in SuccessfulUpdates ==> Find(after.refs, name).None?
    requires code !in SuccessfulUpdates ==> before == after
    requires Run(s, project, name, m, code, oldId, newId, after).result.Ok?
    ensures Coherent(Run(s, project, name, m, code, oldId, newId, after).state, project, after)
  {
    var st := Run(s, project, name, m, code, oldId, newId, after);
    if code in SuccessfulUpdates {
      forall n ensures View(st.state, project, after, n) == Find(after.refs, n) {
        if IsDelete(m) {
          EvictView(s, project, name, after, n);
        } else {
          UpdateRefView(s, project, name, after, n);
        }
      }
      CoherentIffView(st.state, project, after);
    }
  }

  /** After a successful delete of a ref the store no longer holds, exactRef
      answers null and a prefix listing no longer contains the name. */
  lemma DeleteHidesName(s: CacheState, project: string, name: string, code: UpdateResult,
                        oldId: Option<ObjectId>, store: RefStore, prefixes: seq<string>)
    requires code in SuccessfulUpdates
    requires EvictOnSuccess(s, project, name, code, oldId, store).result.Ok?
    ensures var st := EvictOnSuccess(s, project, name, code, oldId, store).state;
      && Get(st, project, name, store).result == Ok(None)
      && AllByPrefixes(st, project, prefixes, store).result.Ok?
      && forall x :: x in AllByPrefixes(st, project, prefixes, store).result.value ==> x.name != name
  {
    var st := EvictOnSuccess(s, project, name, code, oldId, store).state;
    EvictView(s, project, name, store, name);
    GetAnswersView(st, project, name, store);
    forall x | x in AllByPrefixes(st, project, prefixes, store).result.value ensures x.name != name {
      AllByPrefixesSound(st, project, prefixes, store, x);
    }
  }

  class RefUpdateWithCacheUpdate {
    const cache: RefDatabaseCacheImpl.Cache
    const project: string
    /** getName() of the wrapped update. */
    const name: string

    constructor(cache: RefDatabaseCacheImpl.Cache, project: string, name: string)
      ensures this.cache == cache && this.project == project && this.name == name
    {
      this.cache := cache;
      this.project := project;
      this.name := name;
    }

    /** refreshCachesOnSuccessfulUpdate */
    method RefreshCachesOnSuccessfulUpdate(code: UpdateResult, oldId: Option<ObjectId>, newId: Option<ObjectId>,
                                           store: RefStore) returns (r: Result<UpdateResult>)
      modifies cache
      ensures Step(cache.State(), r) == Refresh(old(cache.State()), project, name, code, oldId, newId, store)
    {
      if code !in SuccessfulUpdates {
        return Ok(code);
      }
      var u := cache.UpdateRef(project, name, store);
      if u.Fail? {
        return Fail(if u.error == ExecutionException then IOException else u.error);
      }
      cache.EvictObjectIdCache(project, oldId);
      cache.EvictObjectIdCache(project, newId);
      r := Ok(code);
    }

    /** evictCacheOnSuccessfulUpdate */
    method EvictCacheOnSuccessfulUpdate(code: UpdateResult, oldId: Option<ObjectId>, store: RefStore)
      returns (r: Result<UpdateResult>)
      modifies cache
      ensures Step(cache.State(), r) == EvictOnSuccess(old(cache.State()), project, name, code, oldId, store)
    {
      if code !in SuccessfulUpdates {
        return Ok(code);
      }
      var e := cache.Evict(project, name, store);
      if e.Fail? {
        return Fail(IOException);
      }
      cache.EvictObjectIdCache(project, oldId);
      r := Ok(code);
    }

    /** update(), forceUpdate(), update(walk), link(target), delete() and
        delete(walk): the backing mutator reported `code`, left the store as
        `store`, and its getOldObjectId/getNewObjectId are `oldId`/`newId`. */
    method Mutate(m: Mutation, code: UpdateResult, oldId: Option<ObjectId>, newId: Option<ObjectId>,
                  store: RefStore) returns (r: Result<UpdateResult>)
      modifies cache
      ensures Step(cache.State(), r) == Run(old(cache.State()), project, name, m, code, oldId, newId, store)
    {
      if IsDelete(m) {
        r := EvictCacheOnSuccessfulUpdate(code, oldId, store);
      } else {
        r := RefreshCachesOnSuccessfulUpdate(code, oldId, newId, store);
      }
    }
  }
}
