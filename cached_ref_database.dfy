/** CachedRefDatabase of the current generation: the RefDatabase a cached
    repository hands out. Exact-name and prefix reads go to the cache,
    getRefs seeds the cache, a few reads are forwarded to the store, and
    every write object it creates is a cache-updating interceptor. */
module CachedRefDatabase {
  import opened Refs
  import opened RefStore
  import opened PrefixTree
  import opened PrefixPolicies
  import opened RefDatabaseCacheSpec
  import RS = RefStore
  import RefDatabaseCacheImpl
  import RefUpdateWithCacheUpdate
  import RefRenameWithCacheUpdate
  import BatchRefUpdateWithCacheUpdate

  // ---------------------------------------------------------------------
  // getRefs(): list from the store, seeding the names the cache lacks
  // ---------------------------------------------------------------------

  /** One ref of getRefs: put it unless the cache already has its name. */
  function SeedOne(s: CacheState, project: string, ref: Ref, store: RefStore): Step<()>
  {
    var c := ContainsKey(s, project, ref.name, store);
    match c.result
    case Fail(e) => Step(c.state, Fail(e))
    case Ok(present) => if present then Step(c.state, Ok(())) else Put(c.state, project, ref, store)
  }

  /** The getRefs loop over `refs`, in list order, stopping at the first
      failure. */
  function SeedMissing(s: CacheState, project: string, refs: seq<Ref>, store: RefStore): Step<()>
  {
    if refs == [] then Step(s, Ok(()))
    else
      var st := SeedMissing(s, project, refs[..|refs| - 1], store);
      if st.result.Fail? then st else SeedOne(st.state, project, refs[|refs| - 1], store)
  }

  /** getRefs(): the store's list, returned as it is once the cache has been
      seeded with it. */
  function GetRefsStep(s: CacheState, project: string, store: RefStore): (st: Step<seq<Ref>>)
    ensures st.result.Ok? ==> store.readable && st.result.value == store.refs
    ensures !store.readable ==> st == Step(s, Fail(IOException))
  {
    match RS.GetRefs(store)
    case Fail(e) => Step(s, Fail(e))
    case Ok(refs) =>
      var seeded := SeedMissing(s, project, refs, store);
      Step(seeded.state, if seeded.result.Ok? then Ok(refs) else Fail(seeded.result.error))
  }

  /** Loading changes no answer of get. */
  lemma LoadKeepsView(s: CacheState, project: string, store: RefStore, n: string)
    requires Load(s, project, store).result.Ok?
    ensures View(Load(s, project, store).state, project, store, n) == View(s, project, store, n)
  {
    if project !in s.trees {
      SeedTreeFinds(store.refs, n);
    }
  }

  /** One seeding step gives the ref's name the ref, if it had no entry. */
  lemma SeedOneView(s: CacheState, project: string, ref: Ref, store: RefStore, n: string)
    requires SeedOne(s, project, ref, store).result.Ok?
    ensures View(SeedOne(s, project, ref, store).state, project, store, n) ==
      if n == ref.name && View(s, project, store, ref.name).None? then Some(ref) else View(s, project, store, n)
  {
    var l := Load(s, project, store);
    LoadKeepsView(s, project, store, n);
    LoadKeepsView(s, project, store, ref.name);
    var c := ContainsKey(s, project, ref.name, store);
    if !c.result.value {
      PutOverwritesOneName(c.state, project, ref, store, n, project);
    }
  }

  /** After getRefs over a list with one ref per name, a name the cache
      already answered keeps its entry, and every other name answers the
      listed ref. */
  lemma {:induction false} SeedMissingView(s: CacheState, project: string, refs: seq<Ref>, store: RefStore, n: string)
    requires UniqueNames(refs)
    requires SeedMissing(s, project, refs, store).result.Ok?
    ensures View(SeedMissing(s, project, refs, store).state, project, store, n) ==
      if View(s, project, store, n).Some? then View(s, project, store, n) else Find(refs, n)
  {
    if refs != [] {
      var front := refs[..|refs| - 1];
      var last := refs[|refs| - 1];
      assert UniqueNames(front);
      var st := SeedMissing(s, project, front, store);
      assert st.result.Ok?;
      SeedMissingView(s, project, front, store, n);
      SeedMissingView(s, project, front, store, last.name);
      SeedOneView(st.state, project, last, store, n);
    }
  }

  // ---------------------------------------------------------------------
  // getRefsByPrefix
  // ---------------------------------------------------------------------

  /** getRefsByPrefix(prefix): ALL ("") asks the cache for all refs, any
      other prefix for that prefix's refs (allByPrefixes with that one
      prefix); a cache ExecutionException falls
      back to the store's answer for the same prefix. */
  function ByPrefix(s: CacheState, project: string, prefix: string, store: RefStore): (st: Step<seq<Ref>>)
    ensures st.state == Load(s, project, store).state
  {
    var c := if prefix == "" then All(s, project, store) else AllByPrefixes(s, project, [prefix], store);
    match c.result
    case Ok(_) => c
    case Fail(e) => if e == ExecutionException then Step(c.state, RS.GetRefsByPrefix(store, prefix)) else c
  }

  /** The per-prefix listings of `prefixes` concatenated, in order,
      stopping at the first failure. */
  function ByPrefixes(s: CacheState, project: string, prefixes: seq<string>, store: RefStore): Step<seq<Ref>>
  {
    if prefixes == [] then Step(s, Ok([]))
    else
      var st := ByPrefixes(s, project, prefixes[..|prefixes| - 1], store);
      if st.result.Fail? then st
      else
        var one := ByPrefix(st.state, project, prefixes[|prefixes| - 1], store);
        match one.result
        case Fail(e) => Step(one.state, Fail(e))
        case Ok(refs) => Step(one.state, Ok(st.result.value + refs))
  }

  /** With a coherent cache, or when the store can be read, a prefix
      listing holds exactly the store's refs under the prefix. */
  lemma ByPrefixAnswersAsStore(s: CacheState, project: string, prefix: string, store: RefStore, x: Ref)
    requires ValidState(s) && Coherent(s, project, store) && UniqueNames(store.refs)
    requires project in s.trees || store.readable
    ensures var st := ByPrefix(s, project, prefix, store);
      && st.result.Ok?
      && ValidState(st.state) && Coherent(st.state, project, store) && project in st.state.trees
      && (x in st.result.value <==> x in store.refs && StartsWith(x.name, prefix))
  {
    var l := Load(s, project, store);
    LoadCoherent(s, project, store);
    CoherentTreeHoldsStore(l.state, project, store, x);
    if prefix == "" {
      assert x.name[..0] == prefix;
    } else {
      AllByPrefixMembers(s, project, prefix, store, x);
    }
  }

  /** The same for a sequence of prefixes. */
  lemma {:induction false} ByPrefixesAnswersAsStore(s: CacheState, project: string, prefixes: seq<string>, store: RefStore, x: Ref)
    requires ValidState(s) && Coherent(s, project, store) && UniqueNames(store.refs)
    requires project in s.trees || store.readable
    ensures var st := ByPrefixes(s, project, prefixes, store);
      && st.result.Ok?
      && ValidState(st.state) && Coherent(st.state, project, store) && (project in st.state.trees || store.readable)
      && (x in st.result.value <==> x in store.refs && exists p :: p in prefixes && StartsWith(x.name, p))
  {
    if prefixes != [] {
      var front := prefixes[..|prefixes| - 1];
      var last := prefixes[|prefixes| - 1];
      assert prefixes == front + [last];
      ByPrefixesAnswersAsStore(s, project, front, store, x);
      var st := ByPrefixes(s, project, front, store);
      ByPrefixAnswersAsStore(st.state, project, last, store, x);
      assert (exists p :: p in prefixes && StartsWith(x.name, p)) <==>
        (exists p :: p in front && StartsWith(x.name, p)) || StartsWith(x.name, last);
    }
  }

  /** getRefsByPrefix(String...): with a coherent cache, the refs listed
      are exactly the store's refs under a non-null, non-blank prefix. */
  lemma GetRefsByPrefixesAnswersAsStore(s: CacheState, project: string, prefixes: seq<Option<string>>, store: RefStore, x: Ref)
    requires ValidState(s) && Coherent(s, project, store) && UniqueNames(store.refs)
    requires project in s.trees || store.readable
    ensures var st := ByPrefixes(s, project, UniqueUsable(prefixes), store);
      && st.result.Ok?
      && (x in st.result.value <==> x in store.refs && exists p :: Some(p) in prefixes && !IsBlank(p) && StartsWith(x.name, p))
  {
    ByPrefixesAnswersAsStore(s, project, UniqueUsable(prefixes), store, x);
  }

  /** The LinkedHashSet pass of getRefsByPrefix(String...): non-null,
      non-blank prefixes, each once, in order of first occurrence. */
  method UniquePrefixes(prefixes: seq<Option<string>>) returns (u: seq<string>)
    ensures u == UniqueUsable(prefixes)
  {
    u := [];
    var i := 0;
    while i < |prefixes|
      invariant 0 <= i <= |prefixes|
      invariant u == UniqueUsable(prefixes[..i])
    {
      assert prefixes[..i + 1][..i] == prefixes[..i];
      var p := prefixes[i];
      if p.Some? && !IsBlank(p.value) && p.value !in u {
        u := u + [p.value];
      }
      i := i + 1;
    }
    assert prefixes[..|prefixes|] == prefixes;
  }

  class CachedRefDatabase {
    /** refDbCache, read as the RefDatabaseCacheImpl it stands for: its
        get, containsKey, all and allByPrefix(prefix) are that class's get,
        containsKey, all and allByPrefixes with the one prefix. */
    const cache: RefDatabaseCacheImpl.Cache
    /** repo.getProjectName() */
    const project: string

    constructor(cache: RefDatabaseCacheImpl.Cache, project: string)
      ensures this.cache == cache && this.project == project
    {
      this.cache := cache;
      this.project := project;
    }

    /** exactRef(name): the cache's get for (project, name). */
    method ExactRef(name: string, store: RefStore) returns (r: Result<Option<Ref>>)
      modifies cache
      ensures Step(cache.State(), r) == Get(old(cache.State()), project, name, store)
    {
      r := cache.Get(project, name, store);
    }

    /** getRefs() */
    method GetRefs(store: RefStore) returns (r: Result<seq<Ref>>)
      modifies cache
      ensures Step(cache.State(), r) == GetRefsStep(old(cache.State()), project, store)
    {
      var all := RS.GetRefs(store);
      if all.Fail? {
        return Fail(all.error);
      }
      var refs := all.value;
      var i := 0;
      while i < |refs|
        invariant 0 <= i <= |refs|
        invariant SeedMissing(old(cache.State()), project, refs[..i], store) == Step(cache.State(), Ok(()))
      {
        assert refs[..i + 1][..i] == refs[..i];
        var c := cache.ContainsKey(project, refs[i].name, store);
        if !c.value {
          var p := cache.Put(project, refs[i], store);
        }
        i := i + 1;
      }
      assert refs[..|refs|] == refs;
      r := Ok(refs);
    }

    /** getRefsByPrefix(prefix) */
    method GetRefsByPrefix(prefix: string, store: RefStore) returns (r: Result<seq<Ref>>)
      modifies cache
      ensures Step(cache.State(), r) == ByPrefix(old(cache.State()), project, prefix, store)
    {
      if prefix == "" {
        r := cache.All(project, store);
      } else {
        r := cache.AllByPrefixes(project, [prefix], store);
      }
      if r.Fail? && r.error == ExecutionException {
        r := RS.GetRefsByPrefix(store, prefix);
      }
    }

    /** getRefsByPrefix(String...) */
    method GetRefsByPrefixes(prefixes: seq<Option<string>>, store: RefStore) returns (r: Result<seq<Ref>>)
      modifies cache
      ensures Step(cache.State(), r) == ByPrefixes(old(cache.State()), project, UniqueUsable(prefixes), store)
    {
      var unique := UniquePrefixes(prefixes);
      var result: seq<Ref> := [];
      var i := 0;
      while i < |unique|
        invariant 0 <= i <= |unique|
        invariant ByPrefixes(old(cache.State()), project, unique[..i], store) == Step(cache.State(), Ok(result))
      {
        assert unique[..i + 1][..i] == unique[..i];
        ghost var mid := cache.State();
        var one := GetRefsByPrefix(unique[i], store);
        assert Step(cache.State(), one) == ByPrefix(mid, project, unique[i], store);
        if one.Fail? {
          ByPrefixesStops(old(cache.State()), project, unique, store, i + 1);
          return Fail(one.error);
        }
        result := result + one.value;
        i := i + 1;
      }
      assert unique[..|unique|] == unique;
      r := Ok(result);
    }

    /** exactRef(String...): forwarded to the store. */
    function ExactRefs(names: seq<string>, store: RefStore): (r: Result<map<string, Ref>>)
      ensures r.Ok? <==> store.readable
      ensures r.Fail? ==> r.error == IOException
      ensures r.Ok? ==> forall n :: n in r.value <==> n in names && Find(store.refs, n).Some?
      ensures r.Ok? ==> forall n :: n in r.value ==> r.value[n] in store.refs && r.value[n].name == n
    {
      RS.ExactRefs(store, names)
    }

    /** firstExactRef(String...): forwarded to the store. */
    function FirstExactRef(names: seq<string>, store: RefStore): (r: Result<Option<Ref>>)
      ensures r.Ok? <==> store.readable
      ensures r.Fail? ==> r.error == IOException
      ensures r.Ok? && r.value.Some? ==> r.value.value in store.refs && r.value.value.name in names
      ensures r.Ok? && r.value.None? ==> forall n :: n in names ==> Find(store.refs, n).None?
      ensures r.Ok? ==> r.value == RS.First(store.refs, names)
    {
      RS.FirstExactRef(store, names)
    }

    /** getTipsWithSha1(id): forwarded to the store. */
    function GetTipsWithSha1(id: ObjectId, store: RefStore): (r: Result<set<Ref>>)
      ensures r.Ok? <==> store.readable
      ensures r.Fail? ==> r.error == IOException
      ensures r.Ok? ==> forall x :: x in r.value <==> x in store.refs && ObjectIdOf(x) == Some(id)
    {
      RS.GetTipsWithSha1(store, id)
    }

    /** hasRefs(): forwarded to the store. */
    function HasRefs(store: RefStore): (r: Result<bool>)
      ensures r.Ok? <==> store.readable
      ensures r.Fail? ==> r.error == IOException
      ensures r.Ok? ==> (r.value <==> store.refs != [])
    {
      RS.HasRefs(store)
    }

    /** newUpdate(name, detach): the store's update wrapped in an
        interceptor on this database's cache and project. */
    method NewUpdate(name: string) returns (u: RefUpdateWithCacheUpdate.RefUpdateWithCacheUpdate)
      ensures fresh(u) && u.cache == cache && u.project == project && u.name == name
    {
      u := new RefUpdateWithCacheUpdate.RefUpdateWithCacheUpdate(cache, project, name);
    }

    /** newRename(fromName, toName); `message` is the reflog message the
        JGit superclass constructor sets. */
    method NewRename(fromName: string, toName: string, message: string)
      returns (r: RefRenameWithCacheUpdate.RefRenameWithCacheUpdate)
      ensures fresh(r) && r.cache == cache && r.project == project && r.src == fromName && r.dst == toName
    {
      r := new RefRenameWithCacheUpdate.RefRenameWithCacheUpdate(cache, project, fromName, toName, message);
    }

    /** newBatchUpdate() */
    method NewBatchUpdate() returns (b: BatchRefUpdateWithCacheUpdate.BatchRefUpdateWithCacheUpdate)
      ensures fresh(b) && b.cache == cache && b.project == project
    {
      b := new BatchRefUpdateWithCacheUpdate.BatchRefUpdateWithCacheUpdate(cache, project);
    }
  }

  /** Once a prefix listing fails, the remaining prefixes are not listed. */
  lemma {:induction false} ByPrefixesStops(s: CacheState, project: string, prefixes: seq<string>, store: RefStore, k: nat)
    requires k <= |prefixes| && ByPrefixes(s, project, prefixes[..k], store).result.Fail?
    ensures ByPrefixes(s, project, prefixes, store) == ByPrefixes(s, project, prefixes[..k], store)
    decreases |prefixes| - k
  {
    if k < |prefixes| {
      var front := prefixes[..|prefixes| - 1];
      assert front[..k] == prefixes[..k];
      ByPrefixesStops(s, project, front, store, k);
    } else {
      assert prefixes[..k] == prefixes;
    }
  }
}
