/** PassThroughRefDatabase: the strategy used when caching is disabled. It
    holds no state: reads go to the repository and writes do nothing. */
module PassThroughRefDatabase {
  import opened Refs
  import opened RefStore
  import opened PrefixTree
  import RefDatabaseCacheSpec

  /** get(identifier, ref, delegate): delegate.exactRef(ref), an IOException
      propagating. */
  function Get(identifier: string, name: string, store: RefStore): (r: Result<Option<Ref>>)
    ensures r.Ok? <==> store.readable
    ensures r.Fail? ==> r.error == IOException
    ensures r.Ok? && r.value.Some? ==> r.value.value in store.refs && r.value.value.name == name
    ensures r.Ok? && r.value.None? ==> forall x :: x in store.refs ==> x.name != name
  {
    ExactRef(store, name)
  }

  /** containsKey: nothing is ever cached. */
  function ContainsKey(identifier: string, name: string): (b: bool)
    ensures !b
  {
    false
  }

  /** allByPrefixes(projectName, prefixes, delegate):
      delegate.getRefsByPrefix(prefixes), an IOException rewrapped as
      ExecutionException. */
  function AllByPrefixes(projectName: string, prefixes: seq<string>, store: RefStore): (r: Result<seq<Ref>>)
    ensures r.Ok? <==> store.readable
    ensures r.Fail? ==> r.error == ExecutionException
    ensures r.Ok? ==> forall x :: x in r.value <==> x in store.refs && exists p :: p in prefixes && StartsWith(x.name, p)
  {
    match GetRefsByPrefixes(store, prefixes)
    case Ok(refs) => Ok(refs)
    case Fail(_) => Fail(ExecutionException)
  }

  /** all(projectName, delegate): delegate.getRefs(), an IOException
      rewrapped as ExecutionException. */
  function All(projectName: string, store: RefStore): (r: Result<seq<Ref>>)
    ensures r.Ok? <==> store.readable
    ensures r.Ok? ==> r.value == store.refs
    ensures r.Fail? ==> r.error == ExecutionException
  {
    match GetRefs(store)
    case Ok(refs) => Ok(refs)
    case Fail(_) => Fail(ExecutionException)
  }

  /** The cache writes of the strategy interface. */
  datatype Write =
    | Put(identifier: string, ref: Ref)
    | Evict(identifier: string, refName: string)
    | RenameRef(identifier: string, src: Ref, dst: Ref)
    | UpdateRef(identifier: string, refName: string)
    | UpdateObjectIdCache(identifier: string, id: ObjectId)

  /** put, evict, renameRef, updateRef and updateObjectIdCache have empty
      bodies: they complete normally and leave the repository as it was. */
  function Apply(w: Write, store: RefStore): (r: Step)
    ensures r.store == store && r.result == Ok(())
  {
    Step(store, Ok(()))
  }

  /** What a write leaves behind: the repository and the outcome. */
  datatype Step = Step(store: RefStore, result: Result<()>)

  /** getRefsByObjectId: always the empty set. */
  function GetRefsByObjectId(identifier: string, id: ObjectId): (refs: set<Ref>)
    ensures refs == {}
  {
    {}
  }

  // ---------------------------------------------------------------------
  // The two strategies agree on a coherent cache
  // ---------------------------------------------------------------------

  /** While the project's cached tree is coherent with the repository, the
      caching strategy's get answers as the pass-through one. */
  lemma CachedGetAgrees(s: RefDatabaseCacheSpec.CacheState, project: string, name: string, store: RefStore)
    requires RefDatabaseCacheSpec.Coherent(s, project, store) && store.readable
    ensures RefDatabaseCacheSpec.Get(s, project, name, store).result == Get(project, name, store)
  {
    if project !in s.trees {
      RefDatabaseCacheSpec.GetFreshMatchesStore(s, project, name, store);
    }
  }

  /** Under the same conditions, and with a repository holding one ref per
      name, the cached listing for a set of prefixes lists only refs the
      pass-through lists; with the corrected prefix pass both list the same
      refs. */
  lemma CachedListingAgrees(s: RefDatabaseCacheSpec.CacheState, project: string, prefixes: seq<string>, store: RefStore, x: Ref)
    requires RefDatabaseCacheSpec.ValidState(s) && RefDatabaseCacheSpec.Coherent(s, project, store)
    requires store.readable && UniqueNames(store.refs)
    ensures RefDatabaseCacheSpec.AllByPrefixes(s, project, prefixes, store).result.Ok?
    ensures x in RefDatabaseCacheSpec.AllByPrefixes(s, project, prefixes, store).result.value ==>
      x in AllByPrefixes(project, prefixes, store).value
    ensures RefDatabaseCacheSpec.AllByPrefixesCorrected(s, project, prefixes, store).result.Ok?
    ensures x in RefDatabaseCacheSpec.AllByPrefixesCorrected(s, project, prefixes, store).result.value <==>
      x in AllByPrefixes(project, prefixes, store).value
  {
    var l := RefDatabaseCacheSpec.Load(s, project, store);
    RefDatabaseCacheSpec.LoadCoherent(s, project, store);
    var t := l.state.trees[project];
    RefDatabaseCacheSpec.AllByPrefixesCorrectedMembers(s, project, prefixes, store, x);
    if x in RefDatabaseCacheSpec.AllByPrefixes(s, project, prefixes, store).result.value {
      RefDatabaseCacheSpec.AllByPrefixesSound(s, project, prefixes, store, x);
    }
    MemberIffLookup(t, x);
    if x in store.refs {
      FindListed(store.refs, x);
    }
  }
}
