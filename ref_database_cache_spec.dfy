/** What each operation of the current generation's ref database cache does
    to the cache's state: per project a prefix tree of refs, and per
    "project$sha" key a bucket of the refs pointing at that object id. The
    class in RefDatabaseCacheImpl performs these steps in place; this module
    states them as functions of the state before, and proves what they mean.

    `store` is the project's repository as both the loader and the caller's
    delegate see it. */
module RefDatabaseCacheSpec {
  import opened Refs
  import opened RefStore
  import opened PrefixTree
  import PrefixPolicies

  datatype CacheState = CacheState(trees: map<string, Tree>, buckets: map<string, set<Ref>>)

  /** The state after an operation, and what it returned or threw. */
  datatype Step<T> = Step(state: CacheState, result: Result<T>)

  /** Every cached tree is a well-formed prefix tree. */
  predicate ValidState(s: CacheState)
  {
    forall p :: p in s.trees ==> PrefixTree.Valid(s.trees[p])
  }

  // ---------------------------------------------------------------------
  // RefNamesByProjectLoader.load
  // ---------------------------------------------------------------------

  /** The tree after inserting the listed refs one by one, in list order. */
  function SeedTree(refs: seq<Ref>): (t: Tree)
    ensures PrefixTree.Valid(t)
  {
    if refs == [] then []
    else
      var t := SeedTree(refs[..|refs| - 1]);
      InsertValid(t, refs[|refs| - 1]);
      Insert(t, refs[|refs| - 1])
  }

  /** Seeding files every listed ref under its own name: the tree answers
      each name as the store's exactRef does. */
  lemma {:induction false} SeedTreeFinds(refs: seq<Ref>, name: string)
    ensures Lookup(SeedTree(refs), name) == Find(refs, name)
  {
    if refs != [] {
      SeedTreeFinds(refs[..|refs| - 1], name);
      LookupInsert(SeedTree(refs[..|refs| - 1]), refs[|refs| - 1], name);
    }
  }

  /** getUniqueName(project, id.name()): the key of an object id's bucket. */
  function BucketKey(project: string, id: ObjectId): string
  {
    UniqueName(project, id.name)
  }

  /** The byObjectId map the loader builds: refs with an object id, grouped
      by bucket key. */
  function Group(project: string, refs: seq<Ref>): map<string, set<Ref>>
  {
    if refs == [] then map[]
    else
      var g := Group(project, refs[..|refs| - 1]);
      var r := refs[|refs| - 1];
      match ObjectIdOf(r)
      case None => g
      case Some(id) =>
        var k := BucketKey(project, id);
        g[k := (if k in g then g[k] else {}) + {r}]
  }

  /** A ref lies in a group exactly when it is listed and its object id keys
      that group; no group is empty. */
  lemma {:induction false} GroupMembers(project: string, refs: seq<Ref>, k: string, r: Ref)
    ensures (k in Group(project, refs) && r in Group(project, refs)[k])
      <==> r in refs && ObjectIdOf(r).Some? && k == BucketKey(project, ObjectIdOf(r).value)
    ensures k in Group(project, refs) ==> Group(project, refs)[k] != {}
  {
    if refs != [] {
      var front := refs[..|refs| - 1];
      GroupMembers(project, front, k, r);
      assert refs == front + [refs[|refs| - 1]];
    }
  }

  /** The buckets after the loader's store-if-absent pass: a key already
      present keeps its bucket; only absent keys receive the new group. */
  function StoreIfAbsent(buckets: map<string, set<Ref>>, groups: map<string, set<Ref>>): (r: map<string, set<Ref>>)
    ensures forall k :: k in r <==> k in buckets || k in groups
    ensures forall k :: k in buckets ==> r[k] == buckets[k]
    ensures forall k :: k in groups && k !in buckets ==> r[k] == groups[k]
  {
    groups + buckets
  }

  /** refNamesByProject.get(project): the cached tree, or else the loader's
      tree, which is stored along with the buckets it builds. A failed load
      (no such repository, or getRefs fails) throws ExecutionException and
      stores nothing. */
  function Load(s: CacheState, project: string, store: RefStore): (st: Step<Tree>)
    ensures ValidState(s) ==> ValidState(st.state)
    ensures st.result.Ok? <==> project in s.trees || store.readable
    ensures st.result.Ok? ==> project in st.state.trees && st.state.trees[project] == st.result.value
    ensures st.result.Fail? ==> st.state == s && st.result.error == ExecutionException
    ensures forall q :: q in s.trees ==> q in st.state.trees && st.state.trees[q] == s.trees[q]
    ensures forall q :: q in st.state.trees && q != project ==> q in s.trees
    ensures forall k :: k in s.buckets ==> k in st.state.buckets && st.state.buckets[k] == s.buckets[k]
  {
    if project in s.trees then Step(s, Ok(s.trees[project]))
    else if !store.readable then Step(s, Fail(ExecutionException))
    else
      var t := SeedTree(store.refs);
      Step(CacheState(s.trees[project := t], StoreIfAbsent(s.buckets, Group(project, store.refs))), Ok(t))
  }

  /** A project loaded for the first time answers every name as the store
      does, and every bucket it adds holds exactly the store's refs for that
      key. */
  lemma LoadFresh(s: CacheState, project: string, store: RefStore, name: string, k: string, r: Ref)
    requires project !in s.trees && store.readable
    ensures Lookup(Load(s, project, store).result.value, name) == Find(store.refs, name)
    ensures k !in s.buckets && k in Load(s, project, store).state.buckets ==>
      (r in Load(s, project, store).state.buckets[k] <==>
         r in store.refs && ObjectIdOf(r).Some? && k == BucketKey(project, ObjectIdOf(r).value))
  {
    SeedTreeFinds(store.refs, name);
    GroupMembers(project, store.refs, k, r);
  }

  // ---------------------------------------------------------------------
  // Reads
  // ---------------------------------------------------------------------

  /** get(project, ref, delegate): exact-name lookup in the project's tree;
      a failed load becomes IllegalStateException. */
  function Get(s: CacheState, project: string, name: string, store: RefStore): (st: Step<Option<Ref>>)
    ensures st.state == Load(s, project, store).state
    ensures st.result.Ok? <==> Load(s, project, store).result.Ok?
    ensures st.result.Fail? ==> st.result.error == IllegalStateException
  {
    var l := Load(s, project, store);
    match l.result
    case Ok(t) => Step(l.state, Ok(Lookup(t, name)))
    case Fail(_) => Step(l.state, Fail(IllegalStateException))
  }

  /** Once the project is loaded, get answers from its tree alone: which
      store the caller passes makes no difference, and a missing name is
      null with no fallback. */
  lemma GetIgnoresStoreOnceLoaded(s: CacheState, project: string, name: string, store1: RefStore, store2: RefStore)
    requires project in s.trees
    ensures Get(s, project, name, store1) == Get(s, project, name, store2)
    ensures Get(s, project, name, store1) == Step(s, Ok(Lookup(s.trees[project], name)))
  {
  }

  /** On a project not yet loaded, get answers as the store's exactRef. */
  lemma GetFreshMatchesStore(s: CacheState, project: string, name: string, store: RefStore)
    requires project !in s.trees
    ensures Get(s, project, name, store).result ==
      if store.readable then Ok(Find(store.refs, name)) else Fail(IllegalStateException)
  {
    if store.readable {
      LoadFresh(s, project, store, name, "", Direct("", None));
    }
  }

  /** containsKey(project, ref) */
  function ContainsKey(s: CacheState, project: string, name: string, store: RefStore): (st: Step<bool>)
    ensures st.state == Load(s, project, store).state
  {
    var l := Load(s, project, store);
    match l.result
    case Ok(t) => Step(l.state, Ok(Lookup(t, name).Some?))
    case Fail(_) => Step(l.state, Fail(IllegalStateException))
  }

  /** containsKey is true exactly when get finds a ref, and both fail
      together. */
  lemma ContainsKeyIffGet(s: CacheState, project: string, name: string, store: RefStore)
    ensures ContainsKey(s, project, name, store).result.Ok? <==> Get(s, project, name, store).result.Ok?
    ensures ContainsKey(s, project, name, store).result == Ok(true)
      <==> Get(s, project, name, store).result.Ok? && Get(s, project, name, store).result.value.Some?
  {
  }

  /** allByPrefixes(project, prefixes, delegate), with isDuplicated as
      written: a sorted prefix that contains the last kept one is skipped. */
  function AllByPrefixes(s: CacheState, project: string, prefixes: seq<string>, store: RefStore): (st: Step<seq<Ref>>)
    ensures st.state == Load(s, project, store).state
    ensures st.result.Fail? ==> st.result.error == ExecutionException
  {
    var l := Load(s, project, store);
    match l.result
    case Ok(t) => Step(l.state, Ok(ValuesWithPrefixes(t, PrefixPolicies.QueriedPrefixesAsWritten(prefixes))))
    case Fail(e) => Step(l.state, Fail(e))
  }

  /** allByPrefixes lists only cached refs of the project that match one of
      the prefixes. */
  lemma AllByPrefixesSound(s: CacheState, project: string, prefixes: seq<string>, store: RefStore, x: Ref)
    requires AllByPrefixes(s, project, prefixes, store).result.Ok?
    requires x in AllByPrefixes(s, project, prefixes, store).result.value
    ensures x in AllByPrefixes(s, project, prefixes, store).state.trees[project]
    ensures exists p :: p in prefixes && StartsWith(x.name, p)
  {
    PrefixPolicies.AllByPrefixesAsWrittenSound(Load(s, project, store).result.value, prefixes, x);
  }

  /** allByPrefixes lists every cached ref under a prefix that contains no
      other requested prefix. */
  lemma AllByPrefixesKeeps(s: CacheState, project: string, prefixes: seq<string>, store: RefStore, x: Ref, p: string)
    requires AllByPrefixes(s, project, prefixes, store).result.Ok?
    requires x in AllByPrefixes(s, project, prefixes, store).state.trees[project]
    requires p in prefixes && StartsWith(x.name, p)
    requires forall q :: q in prefixes && q != p ==> !Contains(p, q)
    ensures x in AllByPrefixes(s, project, prefixes, store).result.value
  {
    PrefixPolicies.AllByPrefixesAsWrittenKeeps(Load(s, project, store).result.value, prefixes, x, p);
  }

  /** With a single prefix nothing is skipped: allByPrefixes lists exactly the
      cached refs of the project under it. */
  lemma AllByPrefixMembers(s: CacheState, project: string, prefix: string, store: RefStore, x: Ref)
    requires AllByPrefixes(s, project, [prefix], store).result.Ok?
    ensures var st := AllByPrefixes(s, project, [prefix], store);
      x in st.result.value <==> x in st.state.trees[project] && StartsWith(x.name, prefix)
  {
    var st := AllByPrefixes(s, project, [prefix], store);
    if x in st.result.value {
      AllByPrefixesSound(s, project, [prefix], store, x);
    }
    if x in st.state.trees[project] && StartsWith(x.name, prefix) {
      AllByPrefixesKeeps(s, project, [prefix], store, x, prefix);
    }
  }

  /** allByPrefixes with the prefix pass corrected to drop only prefixes that
      extend the last kept one. */
  function AllByPrefixesCorrected(s: CacheState, project: string, prefixes: seq<string>, store: RefStore): (st: Step<seq<Ref>>)
    ensures st.state == Load(s, project, store).state
    ensures st.result.Fail? ==> st.result.error == ExecutionException
  {
    var l := Load(s, project, store);
    match l.result
    case Ok(t) => Step(l.state, Ok(ValuesWithPrefixes(t, PrefixPolicies.QueriedPrefixes(prefixes))))
    case Fail(e) => Step(l.state, Fail(e))
  }

  /** Corrected, allByPrefixes lists exactly the cached refs of the project
      that match one of the prefixes. */
  lemma AllByPrefixesCorrectedMembers(s: CacheState, project: string, prefixes: seq<string>, store: RefStore, x: Ref)
    requires AllByPrefixesCorrected(s, project, prefixes, store).result.Ok?
    ensures var st := AllByPrefixesCorrected(s, project, prefixes, store);
      x in st.result.value <==> x in st.state.trees[project] && exists p :: p in prefixes && StartsWith(x.name, p)
  {
    PrefixPolicies.AllByPrefixesComplete(Load(s, project, store).result.value, prefixes, x);
  }

  /** all(project, delegate): every cached ref of the project, by name. */
  function All(s: CacheState, project: string, store: RefStore): (st: Step<seq<Ref>>)
    ensures st.state == Load(s, project, store).state
    ensures st.result.Ok? <==> Load(s, project, store).result.Ok?
    ensures st.result.Ok? ==> st.result.value == st.state.trees[project]
    ensures st.result.Fail? ==> st.result.error == ExecutionException
  {
    var l := Load(s, project, store);
    match l.result
    case Ok(t) => Step(l.state, Ok(AllValues(t)))
    case Fail(e) => Step(l.state, Fail(e))
  }

  // ---------------------------------------------------------------------
  // Writes to the prefix trees
  // ---------------------------------------------------------------------

  /** updateRefInPrefixesByProjectCache(project, ref): insert or overwrite
      the entry of the ref's name; a null ref throws NullPointerException
      after the tree has been loaded. */
  function InsertRef(s: CacheState, project: string, ref: Option<Ref>, store: RefStore): (st: Step<()>)
    ensures st.result.Ok? <==> Load(s, project, store).result.Ok? && ref.Some?
    ensures st.result.Fail? && Load(s, project, store).result.Ok? ==> st.result.error == NullPointerException
    ensures st.result.Fail? && Load(s, project, store).result.Fail? ==> st.result.error == ExecutionException
  {
    var l := Load(s, project, store);
    match l.result
    case Fail(e) => Step(l.state, Fail(e))
    case Ok(t) =>
      match ref
      case None => Step(l.state, Fail(NullPointerException))
      case Some(r) =>
        Step(CacheState(l.state.trees[project := Insert(t, r)], l.state.buckets), Ok(()))
  }

  /** put(project, ref): InsertRef, a failed load rethrown as IOException. */
  function Put(s: CacheState, project: string, ref: Ref, store: RefStore): (st: Step<()>)
    ensures st.state == InsertRef(s, project, Some(ref), store).state
    ensures st.result.Fail? ==> st.result.error == IOException
  {
    var i := InsertRef(s, project, Some(ref), store);
    if i.result.Fail? then Step(i.state, Fail(IOException)) else i
  }

  /** updateRef(project, refName, delegate): the ref is re-read from the
      store first (an IOException propagates), then inserted; a name the
      store does not hold reaches the insert as null. */
  function UpdateRef(s: CacheState, project: string, name: string, store: RefStore): (st: Step<()>)
    ensures st.state == if store.readable then InsertRef(s, project, Find(store.refs, name), store).state else s
    ensures st.result.Ok? <==> store.readable && Find(store.refs, name).Some?
  {
    match ExactRef(store, name)
    case Fail(e) => Step(s, Fail(e))
    case Ok(r) =>
      var i := InsertRef(s, project, r, store);
      if i.result.Fail? && i.result.error == ExecutionException then Step(i.state, Fail(IOException)) else i
  }

  /** evict(project, refName) / deleteRefInPrefixesByProjectCache: remove
      that one name from the project's tree. */
  function Evict(s: CacheState, project: string, name: string, store: RefStore): (st: Step<()>)
    ensures st.result.Fail? ==> st.result.error == ExecutionException && st.state == s
  {
    var l := Load(s, project, store);
    match l.result
    case Fail(e) => Step(l.state, Fail(e))
    case Ok(t) =>
      Step(CacheState(l.state.trees[project := Delete(t, name)], l.state.buckets), Ok(()))
  }

  /** renameRef(project, srcRef, destRef): delete the source name, then
      insert the destination, as one step under the tree's write lock. */
  function RenameRef(s: CacheState, project: string, src: Ref, dst: Ref, store: RefStore): (st: Step<()>)
    ensures st.result.Fail? ==> st.result.error == ExecutionException && st.state == s
  {
    var l := Load(s, project, store);
    match l.result
    case Fail(e) => Step(l.state, Fail(e))
    case Ok(t) =>
      Step(CacheState(l.state.trees[project := Insert(Delete(t, src.name), dst)], l.state.buckets), Ok(()))
  }

  /** The writes keep every cached tree well formed. */
  lemma InsertRefKeepsTreesValid(s: CacheState, project: string, ref: Option<Ref>, store: RefStore)
    requires ValidState(s)
    ensures ValidState(InsertRef(s, project, ref, store).state)
  {
    var l := Load(s, project, store);
    if l.result.Ok? && ref.Some? {
      InsertValid(l.result.value, ref.value);
    }
  }

  lemma EvictKeepsTreesValid(s: CacheState, project: string, name: string, store: RefStore)
    requires ValidState(s)
    ensures ValidState(Evict(s, project, name, store).state)
  {
    var l := Load(s, project, store);
    if l.result.Ok? {
      DeleteValid(l.result.value, name);
    }
  }

  lemma RenameRefKeepsTreesValid(s: CacheState, project: string, src: Ref, dst: Ref, store: RefStore)
    requires ValidState(s)
    ensures ValidState(RenameRef(s, project, src, dst, store).state)
  {
    var l := Load(s, project, store);
    if l.result.Ok? {
      DeleteValid(l.result.value, src.name);
      InsertValid(Delete(l.result.value, src.name), dst);
    }
  }

  /** Put and UpdateRef overwrite exactly the entry of one name: it now maps
      to the given ref (UpdateRef: the store's ref), and every other name
      and project keeps its loaded entry. */
  lemma PutOverwritesOneName(s: CacheState, project: string, ref: Ref, store: RefStore, name: string, q: string)
    requires Put(s, project, ref, store).result.Ok?
    ensures var st := Put(s, project, ref, store);
      var before := Load(s, project, store).result.value;
      && Lookup(st.state.trees[project], name) == (if name == ref.name then Some(ref) else Lookup(before, name))
      && (q != project && q in s.trees ==> st.state.trees[q] == s.trees[q])
      && st.state.buckets == Load(s, project, store).state.buckets
  {
    LookupInsert(Load(s, project, store).result.value, ref, name);
  }

  lemma UpdateRefReadsStore(s: CacheState, project: string, name: string, store: RefStore, other: string)
    requires UpdateRef(s, project, name, store).result.Ok?
    ensures var st := UpdateRef(s, project, name, store);
      var before := Load(s, project, store).result.value;
      && Lookup(st.state.trees[project], name) == Find(store.refs, name)
      && (other != name ==> Lookup(st.state.trees[project], other) == Lookup(before, other))
  {
    var r := Find(store.refs, name).value;
    LookupInsert(Load(s, project, store).result.value, r, name);
    LookupInsert(Load(s, project, store).result.value, r, other);
  }

  /** Evict removes exactly one name. */
  lemma EvictRemovesOneName(s: CacheState, project: string, name: string, store: RefStore, other: string)
    requires Evict(s, project, name, store).result.Ok?
    ensures var st := Evict(s, project, name, store);
      var before := Load(s, project, store).result.value;
      Lookup(st.state.trees[project], other) == if other == name then None else Lookup(before, other)
  {
    LookupDelete(Load(s, project, store).result.value, name, other);
  }

  /** After renameRef the destination maps to destRef, the source is gone
      when the names differ, and every other name is unchanged. */
  lemma RenameRefMoves(s: CacheState, project: string, src: Ref, dst: Ref, store: RefStore, other: string)
    requires RenameRef(s, project, src, dst, store).result.Ok?
    ensures var st := RenameRef(s, project, src, dst, store);
      var before := Load(s, project, store).result.value;
      var after := st.state.trees[project];
      && Lookup(after, dst.name) == Some(dst)
      && (src.name != dst.name ==> Lookup(after, src.name) == None)
      && (other != src.name && other != dst.name ==> Lookup(after, other) == Lookup(before, other))
  {
    var t := Load(s, project, store).result.value;
    LookupInsert(Delete(t, src.name), dst, dst.name);
    LookupInsert(Delete(t, src.name), dst, src.name);
    LookupInsert(Delete(t, src.name), dst, other);
    LookupDelete(t, src.name, src.name);
    LookupDelete(t, src.name, other);
  }

  // ---------------------------------------------------------------------
  // The object-id buckets
  // ---------------------------------------------------------------------

  /** getRefsByObjectId(project, id, delegate): get-or-load of the bucket
      "project$sha" from the store's getTipsWithSha1; a failed load returns
      null and stores nothing. */
  function GetRefsByObjectId(s: CacheState, project: string, id: ObjectId, store: RefStore): (st: Step<Option<set<Ref>>>)
    ensures st.result.Ok?
    ensures st.state.trees == s.trees
    ensures st.result.value.None? ==> st.state == s
  {
    var k := BucketKey(project, id);
    if k in s.buckets then Step(s, Ok(Some(s.buckets[k])))
    else match GetTipsWithSha1(store, id)
      case Ok(tips) => Step(CacheState(s.trees, s.buckets[k := tips]), Ok(Some(tips)))
      case Fail(_) => Step(s, Ok(None))
  }

  /** A bucket is loaded once: a cached bucket is returned as is, whatever
      the store says, and a fresh one is the store's tips for that id. */
  lemma GetRefsByObjectIdMemoises(s: CacheState, project: string, id: ObjectId, store1: RefStore, store2: RefStore)
    ensures var st := GetRefsByObjectId(s, project, id, store1);
      st.result.value.Some? ==> GetRefsByObjectId(st.state, project, id, store2) == Step(st.state, st.result)
    ensures BucketKey(project, id) !in s.buckets ==>
      GetRefsByObjectId(s, project, id, store1).result.value ==
        if store1.readable then Some(Tips(store1.refs, id)) else None
  {
  }

  /** hasFastTipsWithSha1: the cache always claims fast tips. */
  function HasFastTipsWithSha1(): (fast: bool)
    ensures fast
  {
    true
  }

  /** evictObjectIdCache(identifier, id): nothing for a null or zero id,
      otherwise invalidate exactly the bucket "identifier$sha". */
  function EvictObjectIdCache(s: CacheState, identifier: string, id: Option<ObjectId>): (r: CacheState)
    ensures r.trees == s.trees
    ensures id.None? || id == Some(ZeroId) ==> r == s
    ensures id.Some? && id != Some(ZeroId) ==>
      forall k :: k in r.buckets <==> k in s.buckets && k != BucketKey(identifier, id.value)
    ensures forall k :: k in r.buckets ==> r.buckets[k] == s.buckets[k]
  {
    if id.None? || id.value == ZeroId then s
    else CacheState(s.trees, s.buckets - {BucketKey(identifier, id.value)})
  }

  // ---------------------------------------------------------------------
  // Coherence with the store
  // ---------------------------------------------------------------------

  /** The project's tree, if cached, answers every name as the store does. */
  ghost predicate Coherent(s: CacheState, project: string, store: RefStore)
  {
    project in s.trees ==> forall n :: Lookup(s.trees[project], n) == Find(store.refs, n)
  }

  /** Loading keeps a coherent project coherent. */
  lemma LoadCoherent(s: CacheState, project: string, store: RefStore)
    requires Coherent(s, project, store)
    ensures Coherent(Load(s, project, store).state, project, store)
  {
    if project !in s.trees && store.readable {
      forall n ensures Lookup(Load(s, project, store).state.trees[project], n) == Find(store.refs, n) {
        SeedTreeFinds(store.refs, n);
      }
    }
  }

  /** After a write of `name` to the store, re-reading that name restores
      coherence. */
  lemma UpdateRefRestoresCoherence(s: CacheState, project: string, name: string, before: RefStore, after: RefStore)
    requires Coherent(s, project, before) && AgreeOutside(before, after, {name}) && after.readable
    requires UpdateRef(s, project, name, after).result.Ok?
    ensures Coherent(UpdateRef(s, project, name, after).state, project, after)
  {
    var st := UpdateRef(s, project, name, after);
    var t := Load(s, project, after).result.value;
    forall n ensures Lookup(st.state.trees[project], n) == Find(after.refs, n) {
      UpdateRefReadsStore(s, project, name, after, n);
      if n != name && project !in s.trees {
        SeedTreeFinds(after.refs, n);
      }
    }
  }

  /** After a delete of `name` in the store, evicting that name restores
      coherence. */
  lemma EvictRestoresCoherence(s: CacheState, project: string, name: string, before: RefStore, after: RefStore)
    requires Coherent(s, project, before) && AgreeOutside(before, after, {name})
    requires Find(after.refs, name).None?
    requires Evict(s, project, name, after).result.Ok?
    ensures Coherent(Evict(s, project, name, after).state, project, after)
  {
    var st := Evict(s, project, name, after);
    forall n ensures Lookup(st.state.trees[project], n) == Find(after.refs, n) {
      EvictRemovesOneName(s, project, name, after, n);
      if n != name && project !in s.trees {
        SeedTreeFinds(after.refs, n);
      }
    }
  }

  // ---------------------------------------------------------------------
  // Symbolic refs that point through a written name
  // ---------------------------------------------------------------------

  /** A symbolic ref whose chain of targets passes through `name`. Such a
      ref embeds its target's value, so a write of `name` changes it too. */
  predicate PointsThrough(r: Ref, name: string)
  {
    match r
    case Direct(_, _) => false
    case Symbolic(_, t) => t.name == name || PointsThrough(t, name)
  }

  /** A write of `name` in the store: every name other than `name` and the
      symbolic refs pointing through it holds the ref it held before. */
  ghost predicate WriteOf(before: RefStore, after: RefStore, name: string)
  {
    forall n :: n != name && !(Find(before.refs, n).Some? && PointsThrough(Find(before.refs, n).value, name)) ==>
      Find(before.refs, n) == Find(after.refs, n)
  }

  /** The names of the tree's entries that point through `name`. */
  function Dependents(t: Tree, name: string): (d: seq<string>)
    ensures forall x :: x in t && PointsThrough(x, name) ==> x.name in d
  {
    if t == [] then []
    else (if PointsThrough(t[0], name) then [t[0].name] else []) + Dependents(t[1..], name)
  }

  /** Re-read each of `names` from the store: insert the store's ref, or
      delete the name when the store no longer holds it. */
  function Reread(t: Tree, names: seq<string>, store: RefStore): Tree
  {
    if names == [] then t
    else
      var u := Reread(t, names[..|names| - 1], store);
      match Find(store.refs, names[|names| - 1])
      case Some(r) => Insert(u, r)
      case None => Delete(u, names[|names| - 1])
  }

  /** After a re-read the named entries answer as the store does, and the
      others are unchanged. */
  lemma {:induction false} RereadLookup(t: Tree, names: seq<string>, store: RefStore, n: string)
    ensures Lookup(Reread(t, names, store), n) == if n in names then Find(store.refs, n) else Lookup(t, n)
  {
    if names != [] {
      var front := names[..|names| - 1];
      var last := names[|names| - 1];
      RereadLookup(t, front, store, n);
      match Find(store.refs, last)
      case Some(r) => LookupInsert(Reread(t, front, store), r, n);
      case None => LookupDelete(Reread(t, front, store), last, n);
      assert n in names <==> n in front || n == last;
    }
  }

  /** updateRef, corrected: after re-reading `name`, also re-read every cached
      symbolic ref that points through it. */
  function UpdateRefCorrected(s: CacheState, project: string, name: string, store: RefStore): (st: Step<()>)
    ensures st.result == UpdateRef(s, project, name, store).result
  {
    var u := UpdateRef(s, project, name, store);
    if u.result.Ok? && project in u.state.trees then
      var t := u.state.trees[project];
      Step(CacheState(u.state.trees[project := Reread(t, Dependents(t, name), store)], u.state.buckets), Ok(()))
    else u
  }

  /** The corrected updateRef restores coherence after any write of `name`,
      including one that changes the symbolic refs pointing at it. */
  lemma UpdateRefCorrectedRestoresCoherence(s: CacheState, project: string, name: string, before: RefStore, after: RefStore)
    requires Coherent(s, project, before) && WriteOf(before, after, name)
    requires UpdateRefCorrected(s, project, name, after).result.Ok?
    ensures Coherent(UpdateRefCorrected(s, project, name, after).state, project, after)
  {
    var u := UpdateRef(s, project, name, after);
    UpdateRefView(s, project, name, after, name);
    var t := u.state.trees[project];
    var d := Dependents(t, name);
    forall n ensures Lookup(Reread(t, d, after), n) == Find(after.refs, n) {
      RereadLookup(t, d, after, n);
      UpdateRefView(s, project, name, after, n);
      if n !in d && n != name {
        match Lookup(t, n)
        case Some(x) => assert !PointsThrough(x, name);
        case None =>
      }
    }
  }

  /** As written, updateRef leaves a cached symbolic ref stale: HEAD still
      reports the old object id of the branch it points at after that branch
      is written, while the corrected update re-reads it. */
  lemma UpdateRefLeavesSymbolicStale(id1: ObjectId, id2: ObjectId)
    requires id1 != id2
    ensures var m := "refs/heads/master";
      var before := RefStore([Symbolic("HEAD", Direct(m, Some(id1))), Direct(m, Some(id1))], true);
      var after := RefStore([Symbolic("HEAD", Direct(m, Some(id2))), Direct(m, Some(id2))], true);
      var s := Load(CacheState(map[], map[]), "p", before).state;
      Coherent(s, "p", before) && WriteOf(before, after, m) &&
      UpdateRef(s, "p", m, after).result.Ok? &&
      Get(UpdateRef(s, "p", m, after).state, "p", "HEAD", after).result == Ok(Some(Symbolic("HEAD", Direct(m, Some(id1))))) &&
      Find(after.refs, "HEAD") == Some(Symbolic("HEAD", Direct(m, Some(id2)))) &&
      !Coherent(UpdateRef(s, "p", m, after).state, "p", after) &&
      Coherent(UpdateRefCorrected(s, "p", m, after).state, "p", after)
  {
    var m := "refs/heads/master";
    var before := RefStore([Symbolic("HEAD", Direct(m, Some(id1))), Direct(m, Some(id1))], true);
    var after := RefStore([Symbolic("HEAD", Direct(m, Some(id2))), Direct(m, Some(id2))], true);
    var s0 := CacheState(map[], map[]);
    var s := Load(s0, "p", before).state;
    LoadCoherent(s0, "p", before);
    assert "HEAD" != m by { assert "HEAD"[0] != m[0]; }
    assert WriteOf(before, after, m);
    UpdateRefView(s, "p", m, after, "HEAD");
    SeedTreeFinds(before.refs, "HEAD");
    var s2 := UpdateRef(s, "p", m, after).state;
    assert Lookup(s2.trees["p"], "HEAD") != Find(after.refs, "HEAD");
    UpdateRefCorrectedRestoresCoherence(s, "p", m, before, after);
  }

  // ---------------------------------------------------------------------
  // What get answers
  // ---------------------------------------------------------------------

  /** The ref that get answers for `name`: the cached tree's entry once the
      project is loaded, otherwise what a fresh load from the store holds. */
  function View(s: CacheState, project: string, store: RefStore, name: string): Option<Ref>
  {
    if project in s.trees then Lookup(s.trees[project], name) else Find(store.refs, name)
  }

  /** get answers View whenever it can load the project. */
  lemma GetAnswersView(s: CacheState, project: string, name: string, store: RefStore)
    requires project in s.trees || store.readable
    ensures Get(s, project, name, store).result == Ok(View(s, project, store, name))
  {
    if project !in s.trees {
      GetFreshMatchesStore(s, project, name, store);
    }
  }

  /** Coherence is View agreeing with the store on every name. */
  lemma CoherentIffView(s: CacheState, project: string, store: RefStore)
    ensures Coherent(s, project, store) <==> forall n :: View(s, project, store, n) == Find(store.refs, n)
  {
  }

  /** A successful updateRef sets the view of that name to the store's ref
      and leaves every other name as it was. */
  lemma UpdateRefView(s: CacheState, project: string, name: string, store: RefStore, n: string)
    requires UpdateRef(s, project, name, store).result.Ok?
    ensures project in UpdateRef(s, project, name, store).state.trees
    ensures View(UpdateRef(s, project, name, store).state, project, store, n) ==
      if n == name then Find(store.refs, n) else View(s, project, store, n)
  {
    UpdateRefReadsStore(s, project, name, store, n);
    if project !in s.trees {
      SeedTreeFinds(store.refs, n);
    }
  }

  /** A successful evict clears the view of that name and leaves every other
      name as it was. */
  lemma EvictView(s: CacheState, project: string, name: string, store: RefStore, n: string)
    requires Evict(s, project, name, store).result.Ok?
    ensures project in Evict(s, project, name, store).state.trees
    ensures View(Evict(s, project, name, store).state, project, store, n) ==
      if n == name then None else View(s, project, store, n)
  {
    EvictRemovesOneName(s, project, name, store, n);
    if project !in s.trees {
      SeedTreeFinds(store.refs, n);
    }
  }

  /** In a valid, coherent tree the cached refs are exactly the store's,
      when the store holds one ref per name. */
  lemma CoherentTreeHoldsStore(s: CacheState, project: string, store: RefStore, x: Ref)
    requires ValidState(s) && Coherent(s, project, store) && UniqueNames(store.refs) && project in s.trees
    ensures x in s.trees[project] <==> x in store.refs
  {
    MemberIffLookup(s.trees[project], x);
    if x in store.refs {
      FindListed(store.refs, x);
    }
  }
}
