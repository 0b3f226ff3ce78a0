/** RefDatabaseCacheImpl of the current generation: the per-project prefix
    trees (the ref_names_by_project loading cache) and the object-id buckets
    (the ref_names_by_object_id cache), updated in place. Each method
    performs the step that RefDatabaseCacheSpec states for it. */
module RefDatabaseCacheImpl {
  import opened Refs
  import opened RefStore
  import opened PrefixTree
  import opened RefDatabaseCacheSpec
  import PrefixPolicies

  class Cache {
    var trees: map<string, Tree>
    var buckets: map<string, set<Ref>>

    function State(): CacheState
      reads this
    {
      CacheState(trees, buckets)
    }

    constructor()
      ensures State() == CacheState(map[], map[])
    {
      trees := map[];
      buckets := map[];
    }

    /** refNamesByProject.get(project), running RefNamesByProjectLoader.load
        on a miss: one pass over the store's refs inserts each into a new
        tree and groups those with an object id by bucket key, then each
        group is stored unless its key already has a bucket. */
    method LoadProject(project: string, store: RefStore) returns (r: Result<Tree>)
      modifies this
      ensures Step(State(), r) == Load(old(State()), project, store)
    {
      if project in trees {
        return Ok(trees[project]);
      }
      if !store.readable {
        return Fail(ExecutionException);
      }
      var tree, byObjectId := ScanRefs(project, store.refs);
      StoreBuckets(byObjectId);
      trees := trees[project := tree];
      r := Ok(tree);
    }

    /** The loader's second pass: each group is put under its key unless
        the key already has a bucket. */
    method StoreBuckets(byObjectId: map<string, set<Ref>>)
      modifies this
      ensures buckets == StoreIfAbsent(old(buckets), byObjectId)
      ensures trees == old(trees)
    {
      var pending := byObjectId.Keys;
      while pending != {}
        invariant pending <= byObjectId.Keys
        invariant buckets == (map k | k in byObjectId.Keys - pending :: byObjectId[k]) + old(buckets)
        invariant trees == old(trees)
        decreases pending
      {
        var k :| k in pending;
        if k !in buckets {
          buckets := buckets[k := byObjectId[k]];
        }
        pending := pending - {k};
      }
      assert (map k | k in byObjectId.Keys - {} :: byObjectId[k]) == byObjectId;
    }

    /** get(project, ref, delegate) */
    method Get(project: string, name: string, store: RefStore) returns (r: Result<Option<Ref>>)
      modifies this
      ensures Step(State(), r) == RefDatabaseCacheSpec.Get(old(State()), project, name, store)
    {
      var t := LoadProject(project, store);
      match t {
        case Ok(tree) => r := Ok(Lookup(tree, name));
        case Fail(_) => r := Fail(IllegalStateException);
      }
    }

    /** containsKey(project, ref) */
    method ContainsKey(project: string, name: string, store: RefStore) returns (r: Result<bool>)
      modifies this
      ensures Step(State(), r) == RefDatabaseCacheSpec.ContainsKey(old(State()), project, name, store)
    {
      var t := LoadProject(project, store);
      match t {
        case Ok(tree) => r := Ok(Lookup(tree, name).Some?);
        case Fail(_) => r := Fail(IllegalStateException);
      }
    }

    /** allByPrefixes(project, prefixes, delegate) */
    method AllByPrefixes(project: string, prefixes: seq<string>, store: RefStore) returns (r: Result<seq<Ref>>)
      modifies this
      ensures Step(State(), r) == RefDatabaseCacheSpec.AllByPrefixes(old(State()), project, prefixes, store)
    {
      var t := LoadProject(project, store);
      match t {
        case Ok(tree) => r := Ok(ValuesWithPrefixes(tree, PrefixPolicies.QueriedPrefixesAsWritten(prefixes)));
        case Fail(e) => r := Fail(e);
      }
    }

    /** all(project, delegate) */
    method All(project: string, store: RefStore) returns (r: Result<seq<Ref>>)
      modifies this
      ensures Step(State(), r) == RefDatabaseCacheSpec.All(old(State()), project, store)
    {
      var t := LoadProject(project, store);
      match t {
        case Ok(tree) => r := Ok(AllValues(tree));
        case Fail(e) => r := Fail(e);
      }
    }

    /** updateRefInPrefixesByProjectCache(project, ref) */
    method UpdateRefInPrefixesByProjectCache(project: string, ref: Option<Ref>, store: RefStore) returns (r: Result<()>)
      modifies this
      ensures Step(State(), r) == InsertRef(old(State()), project, ref, store)
    {
      var t := LoadProject(project, store);
      match t {
        case Fail(e) => r := Fail(e);
        case Ok(tree) =>
          match ref {
            case None => r := Fail(NullPointerException);
            case Some(x) =>
              trees := trees[project := Insert(tree, x)];
              r := Ok(());
          }
      }
    }

    /** put(project, ref) */
    method Put(project: string, ref: Ref, store: RefStore) returns (r: Result<()>)
      modifies this
      ensures Step(State(), r) == RefDatabaseCacheSpec.Put(old(State()), project, ref, store)
    {
      r := UpdateRefInPrefixesByProjectCache(project, Some(ref), store);
      if r.Fail? {
        r := Fail(IOException);
      }
    }

    /** updateRef(project, refName, delegate): re-read, then insert. */
    method UpdateRef(project: string, name: string, store: RefStore) returns (r: Result<()>)
      modifies this
      ensures Step(State(), r) == RefDatabaseCacheSpec.UpdateRef(old(State()), project, name, store)
    {
      var current := ExactRef(store, name);
      if current.Fail? {
        return Fail(current.error);
      }
      r := UpdateRefInPrefixesByProjectCache(project, current.value, store);
      if r.Fail? && r.error == ExecutionException {
        r := Fail(IOException);
      }
    }

    /** evict(project, refName), through deleteRefInPrefixesByProjectCache. */
    method Evict(project: string, name: string, store: RefStore) returns (r: Result<()>)
      modifies this
      ensures Step(State(), r) == RefDatabaseCacheSpec.Evict(old(State()), project, name, store)
    {
      var t := LoadProject(project, store);
      match t {
        case Fail(e) => r := Fail(e);
        case Ok(tree) =>
          trees := trees[project := Delete(tree, name)];
          r := Ok(());
      }
    }

    /** renameRef(project, srcRef, destRef) */
    method RenameRef(project: string, src: Ref, dst: Ref, store: RefStore) returns (r: Result<()>)
      modifies this
      ensures Step(State(), r) == RefDatabaseCacheSpec.RenameRef(old(State()), project, src, dst, store)
    {
      var t := LoadProject(project, store);
      match t {
        case Fail(e) => r := Fail(e);
        case Ok(tree) =>
          var moved := Delete(tree, src.name);
          moved := Insert(moved, dst);
          trees := trees[project := moved];
          r := Ok(());
      }
    }

    /** getRefsByObjectId(project, id, delegate) */
    method GetRefsByObjectId(project: string, id: ObjectId, store: RefStore) returns (r: Option<set<Ref>>)
      modifies this
      ensures Step(State(), Ok(r)) == RefDatabaseCacheSpec.GetRefsByObjectId(old(State()), project, id, store)
    {
      var k := BucketKey(project, id);
      if k in buckets {
        return Some(buckets[k]);
      }
      var tips := GetTipsWithSha1(store, id);
      match tips {
        case Ok(found) =>
          buckets := buckets[k := found];
          r := Some(found);
        case Fail(_) =>
          r := None;
      }
    }

    /** evictObjectIdCache(identifier, id) */
    method EvictObjectIdCache(identifier: string, id: Option<ObjectId>)
      modifies this
      ensures State() == RefDatabaseCacheSpec.EvictObjectIdCache(old(State()), identifier, id)
    {
      if id.Some? && id.value != ZeroId {
        buckets := buckets - {BucketKey(identifier, id.value)};
      }
    }
  }

  /** The loader's first pass over the store's refs: each ref is inserted
      into a new tree, and those with an object id are grouped by bucket
      key. */
  method ScanRefs(project: string, refs: seq<Ref>) returns (tree: Tree, byObjectId: map<string, set<Ref>>)
    ensures tree == SeedTree(refs) && byObjectId == Group(project, refs)
  {
    tree := [];
    byObjectId := map[];
    var i := 0;
    while i < |refs|
      invariant 0 <= i <= |refs|
      invariant tree == SeedTree(refs[..i])
      invariant byObjectId == Group(project, refs[..i])
    {
      var ref := refs[i];
      assert refs[..i + 1][..i] == refs[..i];
      tree := Insert(tree, ref);
      match ObjectIdOf(ref) {
        case Some(oid) =>
          var k := BucketKey(project, oid);
          byObjectId := byObjectId[k := (if k in byObjectId then byObjectId[k] else {}) + {ref}];
        case None =>
      }
      i := i + 1;
    }
    assert refs[..|refs|] == refs;
  }
}
