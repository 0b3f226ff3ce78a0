/** CachedRefDatabase of the older generation. It reads through the name
    cache of RefByNameCacheImpl (`identifier$ref` keys holding Optional
    refs), lists all refs from that cache or, when the cache holds none of
    the project, from the store, and keeps its own object-id multimap,
    built lazily on first use. */
module LegacyCachedRefDatabase {
  import opened Refs
  import opened RefStore
  import RS = RefStore
  import RefByNameCache

  /** One (object id, ref) pair of the SetMultimap refsByObjectId; the
      object id of an unborn ref is null. */
  datatype Entry = Entry(id: Option<ObjectId>, ref: Ref)

  /** SetMultimap.get(id) */
  function Bucket(m: set<Entry>, id: Option<ObjectId>): (refs: set<Ref>)
    ensures forall x :: x in refs <==> Entry(id, x) in m
  {
    set e | e in m && e.id == id :: e.ref
  }

  /** The name cache's entries and the multimap (None while it is null). */
  datatype DbState = DbState(entries: map<string, Option<Ref>>, byId: Option<set<Entry>>)

  /** A new state and what the operation returned or threw. */
  datatype Outcome<T> = Outcome(state: DbState, result: Result<T>)

  /** Keys of one project are equal exactly when the names are. */
  lemma UniqueNameOfProject(project: string, a: string, b: string)
    ensures UniqueName(project, a) == UniqueName(project, b) <==> a == b
  {
    if UniqueName(project, a) == UniqueName(project, b) {
      assert a == UniqueName(project, a)[|project| + 1..];
    }
  }

  // ---------------------------------------------------------------------
  // getAllRefsFromDelegate
  // ---------------------------------------------------------------------

  /** getAllRefsFromDelegate as written, over the store's list: each ref
      whose key is absent is loaded, and its loader first puts the ref into
      the multimap. While the multimap is still null that put throws
      NullPointerException; the cache rethrows it unchecked, so it leaves
      the method. */
  function SeedAsWritten(st: DbState, project: string, refs: seq<Ref>): Result<DbState>
  {
    if refs == [] then Ok(st)
    else
      match SeedAsWritten(st, project, refs[..|refs| - 1])
      case Fail(e) => Fail(e)
      case Ok(p) =>
        var last := refs[|refs| - 1];
        var key := UniqueName(project, last.name);
        if key in p.entries then Ok(p)
        else if p.byId.None? then Fail(NullPointerException)
        else Ok(DbState(p.entries[key := Some(last)], Some(p.byId.value + {Entry(ObjectIdOf(last), last)})))
  }

  /** getAllRefsFromDelegate as evidently intended: the loader indexes the
      ref only when the multimap exists (lazilyInitRefMaps indexes every
      listed ref once it builds the multimap). */
  function Seed(st: DbState, project: string, refs: seq<Ref>): (r: DbState)
    ensures r.byId.Some? <==> st.byId.Some?
  {
    if refs == [] then st
    else
      var p := Seed(st, project, refs[..|refs| - 1]);
      var last := refs[|refs| - 1];
      var key := UniqueName(project, last.name);
      if key in p.entries then p
      else DbState(p.entries[key := Some(last)], if p.byId.Some? then Some(p.byId.value + {Entry(ObjectIdOf(last), last)}) else None)
  }

  /** With the multimap built, the code as written seeds as intended. */
  lemma {:induction false} SeedAsWrittenWithMultimap(st: DbState, project: string, refs: seq<Ref>)
    requires st.byId.Some?
    ensures SeedAsWritten(st, project, refs) == Ok(Seed(st, project, refs))
  {
    if refs != [] {
      SeedAsWrittenWithMultimap(st, project, refs[..|refs| - 1]);
    }
  }

  /** With the multimap still null (refresh() on a new database, or
      getRefs() before any exactRef), the code as written throws
      NullPointerException exactly when some listed ref is not cached yet,
      and otherwise changes nothing. */
  lemma {:induction false} SeedAsWrittenOnNewDatabase(st: DbState, project: string, refs: seq<Ref>)
    requires st.byId.None?
    ensures SeedAsWritten(st, project, refs).Fail? <==> exists x :: x in refs && UniqueName(project, x.name) !in st.entries
    ensures SeedAsWritten(st, project, refs).Fail? ==> SeedAsWritten(st, project, refs).error == NullPointerException
    ensures SeedAsWritten(st, project, refs).Ok? ==> SeedAsWritten(st, project, refs).value == st
  {
    if refs != [] {
      var front := refs[..|refs| - 1];
      var last := refs[|refs| - 1];
      assert refs == front + [last];
      SeedAsWrittenOnNewDatabase(st, project, front);
    }
  }

  /** Seeding as written fails only with NullPointerException. */
  lemma {:induction false} SeedAsWrittenThrowsNull(st: DbState, project: string, refs: seq<Ref>)
    ensures SeedAsWritten(st, project, refs).Fail? ==> SeedAsWritten(st, project, refs).error == NullPointerException
  {
    if refs != [] {
      SeedAsWrittenThrowsNull(st, project, refs[..|refs| - 1]);
    }
  }

  /** Once seeding as written has failed on a prefix of the list, it fails
      on the whole list with the same exception: the loop is left. */
  lemma {:induction false} SeedAsWrittenFailSticks(st: DbState, project: string, refs: seq<Ref>, k: nat)
    requires k <= |refs| && SeedAsWritten(st, project, refs[..k]).Fail?
    ensures SeedAsWritten(st, project, refs) == SeedAsWritten(st, project, refs[..k])
    decreases |refs| - k
  {
    if k < |refs| {
      var front := refs[..|refs| - 1];
      assert front[..k] == refs[..k];
      SeedAsWrittenFailSticks(st, project, front, k);
    } else {
      assert refs[..k] == refs;
    }
  }

  /** getAllRefsFromDelegate() as written: an unreadable store answers the
      empty list and changes nothing; otherwise the store's list is seeded
      into the cache, and a NullPointerException from the seeding leaves
      the method with the cache as it was. */
  function FromDelegate(st: DbState, project: string, store: RefStore): (o: Outcome<seq<Ref>>)
    ensures o.result.Fail? ==> o.result.error == NullPointerException && o.state == st
    ensures o.result.Ok? ==> o.result.value == if store.readable then store.refs else []
  {
    SeedAsWrittenThrowsNull(st, project, store.refs);
    if !store.readable then Outcome(st, Ok([]))
    else
      match SeedAsWritten(st, project, store.refs)
      case Ok(s) => Outcome(s, Ok(store.refs))
      case Fail(e) => Outcome(st, Fail(e))
  }

  /** getAllRefsFromDelegate() seeds as intended once the multimap exists;
      before that it throws exactly when some listed ref is not cached yet,
      and in either case leaves the cache as it was. */
  lemma FromDelegateCases(st: DbState, project: string, store: RefStore)
    ensures var o := FromDelegate(st, project, store);
      && (!store.readable ==> o == Outcome(st, Ok([])))
      && (store.readable && st.byId.Some? ==> o == Outcome(Seed(st, project, store.refs), Ok(store.refs)))
      && (store.readable && st.byId.None? ==>
            o.state == st
            && (o.result.Fail? <==> exists x :: x in store.refs && UniqueName(project, x.name) !in st.entries))
  {
    if st.byId.Some? {
      SeedAsWrittenWithMultimap(st, project, store.refs);
    } else {
      SeedAsWrittenOnNewDatabase(st, project, store.refs);
    }
  }

  /** Seeding never changes a cached entry, and the keys afterwards are
      the cached keys and the keys of the listed names. */
  lemma {:induction false} SeedKeys(st: DbState, project: string, refs: seq<Ref>)
    ensures var r := Seed(st, project, refs);
      && (forall k :: k in st.entries ==> k in r.entries && r.entries[k] == st.entries[k])
      && (forall k :: k in r.entries <==> k in st.entries || exists x :: x in refs && UniqueName(project, x.name) == k)
  {
    if refs != [] {
      var front := refs[..|refs| - 1];
      var last := refs[|refs| - 1];
      assert refs == front + [last];
      SeedKeys(st, project, front);
    }
  }

  /** With one ref per name, the key of the last listed ref is cached
      before its turn exactly when it was cached at the start. */
  lemma LastKeyUntouched(st: DbState, project: string, refs: seq<Ref>)
    requires UniqueNames(refs) && refs != []
    ensures var key := UniqueName(project, refs[|refs| - 1].name);
      key in Seed(st, project, refs[..|refs| - 1]).entries <==> key in st.entries
  {
    var front := refs[..|refs| - 1];
    var last := refs[|refs| - 1];
    SeedKeys(st, project, front);
    forall x | x in front
      ensures UniqueName(project, x.name) != UniqueName(project, last.name)
    {
      var i :| 0 <= i < |front| && front[i] == x;
      assert refs[i].name != refs[|refs| - 1].name;
      UniqueNameOfProject(project, x.name, last.name);
    }
  }

  /** With one ref per name, a listed ref whose key was absent ends up
      cached under it. */
  lemma {:induction false} SeedStores(st: DbState, project: string, refs: seq<Ref>, x: Ref)
    requires UniqueNames(refs) && x in refs && UniqueName(project, x.name) !in st.entries
    ensures UniqueName(project, x.name) in Seed(st, project, refs).entries
    ensures Seed(st, project, refs).entries[UniqueName(project, x.name)] == Some(x)
  {
    SeedKeys(st, project, refs);
    var front := refs[..|refs| - 1];
    var last := refs[|refs| - 1];
    assert refs == front + [last];
    assert UniqueNames(front);
    LastKeyUntouched(st, project, refs);
    if x == last {
    } else {
      SeedStores(st, project, front, x);
      UniqueNameOfProject(project, x.name, last.name);
      var i :| 0 <= i < |refs| && refs[i] == x;
      assert i < |refs| - 1;
    }
  }

  /** With one ref per name, the multimap gains exactly the refs whose key
      was absent. */
  lemma {:induction false} SeedIndexes(st: DbState, project: string, refs: seq<Ref>)
    requires UniqueNames(refs) && st.byId.Some?
    ensures forall e :: e in Seed(st, project, refs).byId.value <==>
      e in st.byId.value || (e.ref in refs && e.id == ObjectIdOf(e.ref) && UniqueName(project, e.ref.name) !in st.entries)
  {
    if refs != [] {
      var front := refs[..|refs| - 1];
      var last := refs[|refs| - 1];
      assert refs == front + [last];
      assert UniqueNames(front);
      SeedIndexes(st, project, front);
      LastKeyUntouched(st, project, refs);
    }
  }

  // ---------------------------------------------------------------------
  // getAllRefs and lazilyInitRefMaps
  // ---------------------------------------------------------------------

  /** The elements of a list. */
  function Elements(refs: seq<Ref>): (s: set<Ref>)
    ensures forall x :: x in s <==> x in refs
  {
    set x | x in refs
  }

  /** The refs getAllRefs lists, as a set: the cache's present refs of the
      project, or, when there are none, the store's refs (none when the
      store cannot be read). */
  function Listed(entries: map<string, Option<Ref>>, project: string, store: RefStore): set<Ref>
  {
    var cached := RefByNameCache.Present(entries, project);
    if cached != {} then cached else if store.readable then Elements(store.refs) else {}
  }

  /** What getAllRefs leaves behind: the cache goes to the store only when
      it holds no present ref of the project. */
  function AllRefsState(st: DbState, project: string, store: RefStore): DbState
  {
    if RefByNameCache.Present(st.entries, project) != {} then st
    else FromDelegate(st, project, store).state
  }

  /** getAllRefs throws: the cache holds no present ref of the project and
      getAllRefsFromDelegate throws. */
  predicate AllRefsFails(st: DbState, project: string, store: RefStore)
  {
    RefByNameCache.Present(st.entries, project) == {} && FromDelegate(st, project, store).result.Fail?
  }

  /** The multimap entries lazilyInitRefMaps adds for listed refs with a
      non-null object id. */
  function Indexed(listed: set<Ref>): set<Entry>
  {
    set x | x in listed && ObjectIdOf(x).Some? :: Entry(ObjectIdOf(x), x)
  }

  /** lazilyInitRefMaps(): nothing once the multimap exists; otherwise an
      empty multimap, then getAllRefs, then every listed ref with a non-null
      object id indexed. */
  function LazyInit(st: DbState, project: string, store: RefStore): (r: DbState)
    ensures r.byId.Some?
  {
    if st.byId.Some? then st
    else
      FromDelegateCases(DbState(st.entries, Some({})), project, store);
      var s1 := AllRefsState(DbState(st.entries, Some({})), project, store);
      DbState(s1.entries, Some(s1.byId.value + Indexed(Listed(st.entries, project, store))))
  }

  /** After the first lazilyInitRefMaps, the bucket of a non-null id holds
      exactly the listed refs whose object id it is. */
  lemma LazyInitBuckets(st: DbState, project: string, store: RefStore, id: ObjectId)
    requires st.byId.None? && UniqueNames(store.refs)
    ensures forall x :: x in Bucket(LazyInit(st, project, store).byId.value, Some(id)) <==>
      x in Listed(st.entries, project, store) && ObjectIdOf(x) == Some(id)
  {
    var e0 := DbState(st.entries, Some({}));
    FromDelegateCases(e0, project, store);
    if RefByNameCache.Present(st.entries, project) == {} && store.readable {
      SeedIndexes(e0, project, store.refs);
    }
  }

  /** A later lazilyInitRefMaps changes nothing. */
  lemma LazyInitOnce(st: DbState, project: string, store: RefStore, later: RefStore)
    ensures LazyInit(LazyInit(st, project, store), project, later) == LazyInit(st, project, store)
  {
  }

  // ---------------------------------------------------------------------
  // exactRef(name)
  // ---------------------------------------------------------------------

  /** exactRef(name): lazilyInitRefMaps, then read-through of
      (project, name). The loader asks the store; a present ref is also
      indexed, and a miss is cached as empty. A store IOException reaches
      the cache as a checked failure, is caught there, and answers null with
      nothing stored. */
  function ExactRefStep(st: DbState, project: string, name: string, store: RefStore): (o: Outcome<Option<Ref>>)
    ensures o.result.Ok?
    ensures UniqueName(project, name) in o.state.entries ==> o.result.value == o.state.entries[UniqueName(project, name)]
    ensures UniqueName(project, name) !in o.state.entries ==> o.result.value == None && !store.readable
    ensures o.state.byId.Some?
  {
    var s1 := LazyInit(st, project, store);
    var key := UniqueName(project, name);
    if key in s1.entries then Outcome(s1, Ok(s1.entries[key]))
    else
      match RS.ExactRef(store, name)
      case Fail(_) => Outcome(s1, Ok(None))
      case Ok(v) =>
        var byId := if v.Some? then Some(s1.byId.value + {Entry(ObjectIdOf(v.value), v.value)}) else s1.byId;
        Outcome(DbState(s1.entries[key := v], byId), Ok(v))
  }

  /** exactRef answers the cached entry when there is one, and otherwise the
      store's ref, which it then caches (a miss included). */
  lemma ExactRefReadsThrough(st: DbState, project: string, name: string, store: RefStore)
    requires st.byId.Some?
    ensures var o := ExactRefStep(st, project, name, store);
      var key := UniqueName(project, name);
      && (key in st.entries ==> o == Outcome(st, Ok(st.entries[key])))
      && (key !in st.entries && store.readable ==>
            o.result == Ok(Find(store.refs, name)) && o.state.entries == st.entries[key := Find(store.refs, name)])
      && (key !in st.entries && !store.readable ==> o == Outcome(st, Ok(None)))
  {
  }

  /** A second exactRef of the same name answers as the first, whatever
      the store holds by then, once the first could read the store. */
  lemma ExactRefMemoises(st: DbState, project: string, name: string, store: RefStore, later: RefStore)
    requires store.readable || UniqueName(project, name) in LazyInit(st, project, store).entries
    ensures var first := ExactRefStep(st, project, name, store);
      ExactRefStep(first.state, project, name, later) == Outcome(first.state, first.result)
  {
  }

  // ---------------------------------------------------------------------
  // Reads over the listing
  // ---------------------------------------------------------------------

  /** toMap(Ref::getName, identity): throws IllegalStateException on a
      repeated name. */
  function ToMap(refs: seq<Ref>): (r: Result<map<string, Ref>>)
    ensures r.Ok? ==> forall n :: n in r.value ==> r.value[n] in refs && r.value[n].name == n
    ensures r.Ok? ==> forall x :: x in refs ==> x.name in r.value
    ensures r.Fail? ==> r.error == IllegalStateException
  {
    if refs == [] then Ok(map[])
    else
      var last := refs[|refs| - 1];
      match ToMap(refs[..|refs| - 1])
      case Fail(e) => Fail(e)
      case Ok(m) => if last.name in m then Fail(IllegalStateException) else Ok(m[last.name := last])
  }

  /** One ref per name in a list extended by one ref. */
  lemma UniqueNamesSnoc(front: seq<Ref>, last: Ref)
    ensures UniqueNames(front + [last]) <==>
      UniqueNames(front) && forall i :: 0 <= i < |front| ==> front[i].name != last.name
  {
    var refs := front + [last];
    if UniqueNames(front) && forall i :: 0 <= i < |front| ==> front[i].name != last.name {
      forall i, j | 0 <= i < j < |refs| ensures refs[i].name != refs[j].name {
        if j < |front| {
          assert refs[i] == front[i] && refs[j] == front[j];
        }
      }
    }
    if UniqueNames(refs) {
      forall i, j | 0 <= i < j < |front| ensures front[i].name != front[j].name {
        assert refs[i] == front[i] && refs[j] == front[j];
      }
      forall i | 0 <= i < |front| ensures front[i].name != last.name {
        assert refs[i] == front[i] && refs[|front|] == last;
      }
    }
  }

  /** toMap succeeds exactly on a list with one ref per name. */
  lemma {:induction false} ToMapSucceedsIffUnique(refs: seq<Ref>)
    ensures ToMap(refs).Ok? <==> UniqueNames(refs)
  {
    if refs != [] {
      var front := refs[..|refs| - 1];
      var last := refs[|refs| - 1];
      assert refs == front + [last];
      ToMapSucceedsIffUnique(front);
      UniqueNamesSnoc(front, last);
      if ToMap(front).Ok? {
        var m := ToMap(front).value;
        if last.name in m {
          var i :| 0 <= i < |front| && front[i] == m[last.name];
          assert front[i].name == last.name;
        } else {
          assert forall i :: 0 <= i < |front| ==> front[i].name in m;
        }
      }
    }
  }

  /** The listed refs whose name is requested, in list order. */
  function Named(refs: seq<Ref>, names: seq<string>): (r: seq<Ref>)
    ensures forall x :: x in r <==> x in refs && x.name in names
  {
    if refs == [] then []
    else (if refs[0].name in names then [refs[0]] else []) + Named(refs[1..], names)
  }

  /** findFirst over the requested names, in list order. */
  function FirstNamed(refs: seq<Ref>, names: seq<string>): (r: Option<Ref>)
    ensures r.Some? ==> r.value in refs && r.value.name in names
    ensures r.None? <==> forall x :: x in refs ==> x.name !in names
  {
    if refs == [] then None
    else if refs[0].name in names then Some(refs[0])
    else FirstNamed(refs[1..], names)
  }

  /** The first match is the earliest ref with a requested name. */
  lemma {:induction false} FirstNamedIsEarliest(refs: seq<Ref>, names: seq<string>, i: nat)
    requires i < |refs| && FirstNamed(refs, names).Some? && FirstNamed(refs, names).value == refs[i]
    requires forall j :: 0 <= j < i ==> refs[j] != refs[i]
    ensures forall j :: 0 <= j < i ==> refs[j].name !in names
  {
    if i > 0 && refs[0].name !in names {
      FirstNamedIsEarliest(refs[1..], names, i - 1);
      assert forall j :: 1 <= j < i ==> refs[j] == refs[1..][j - 1];
    }
  }
  /** Some name is requested twice: Set.of(refs) rejects that. */
  predicate Repeats(names: seq<string>)
  {
    exists i, j :: 0 <= i < j < |names| && names[i] == names[j]
  }

  /** firstExactRef as evidently intended: the ref of the earliest requested
      name that is listed, whatever the listing order. */
  function FirstByName(refs: seq<Ref>, names: seq<string>): (r: Option<Ref>)
    ensures r.Some? ==> r.value in refs && r.value.name in names
    ensures r.None? <==> forall x :: x in refs ==> x.name !in names
  {
    if names == [] then None
    else
      var f := FirstNamed(refs, [names[0]]);
      if f.Some? then f else FirstByName(refs, names[1..])
  }

  /** The corrected answer belongs to the earliest requested name that is
      listed. */
  lemma {:induction false} FirstByNameIsEarliest(refs: seq<Ref>, names: seq<string>, i: nat)
    requires i < |names| && exists x :: x in refs && x.name == names[i]
    requires forall j, x :: 0 <= j < i && x in refs ==> x.name != names[j]
    ensures FirstByName(refs, names).Some? && FirstByName(refs, names).value.name == names[i]
  {
    if i == 0 {
      var x :| x in refs && x.name == names[0];
      assert x.name in [names[0]];
    } else {
      assert FirstNamed(refs, [names[0]]).None? by {
        forall x | x in refs ensures x.name !in [names[0]] {
          assert x.name != names[0];
        }
      }
      forall j, x | 0 <= j < i - 1 && x in refs ensures x.name != names[1..][j] {
        assert names[1..][j] == names[j + 1];
      }
      FirstByNameIsEarliest(refs, names[1..], i - 1);
    }
  }

  /** As written, the listing order decides: with refs/heads/x listed before
      refs/tags/x, as the store's sorted list puts them, asking for
      refs/tags/x first still answers refs/heads/x; in request order the
      answer is refs/tags/x. */
  lemma FirstNamedIgnoresRequestOrder(heads: Ref, tags: Ref)
    requires heads.name == "refs/heads/x" && tags.name == "refs/tags/x"
    ensures FirstNamed([heads, tags], ["refs/tags/x", "refs/heads/x"]) == Some(heads)
    ensures FirstByName([heads, tags], ["refs/tags/x", "refs/heads/x"]) == Some(tags)
  {
    var names := ["refs/tags/x", "refs/heads/x"];
    assert heads.name in names;
    assert heads.name != names[0] by { assert heads.name[5] != names[0][5]; }
    assert [heads, tags][1..] == [tags];
    assert FirstNamed([heads, tags], [names[0]]) == FirstNamed([tags], [names[0]]);
    assert FirstNamed([tags], [names[0]]) == Some(tags);
  }


  /** hasRefs(): the cache's hasRefs for the project, or else the store's. */
  function HasRefsOf(entries: map<string, Option<Ref>>, project: string, store: RefStore): (r: Result<bool>)
    ensures RefByNameCache.Present(entries, project) != {} ==> r == Ok(true)
  {
    RefByNameCache.AnyPresentIffNonEmpty(entries, project);
    if RefByNameCache.AnyPresent(entries, project) then Ok(true) else RS.HasRefs(store)
  }

  /** While every cached ref of the project is a ref of a readable store,
      hasRefs answers as the store does. */
  lemma HasRefsAgreesWithStore(entries: map<string, Option<Ref>>, project: string, store: RefStore)
    requires store.readable
    requires forall x :: x in RefByNameCache.Present(entries, project) ==> x in store.refs
    ensures HasRefsOf(entries, project, store) == RS.HasRefs(store)
  {
    RefByNameCache.AnyPresentIffNonEmpty(entries, project);
    if RefByNameCache.Present(entries, project) != {} {
      var x :| x in RefByNameCache.Present(entries, project);
      assert x in store.refs;
    }
  }

  class CachedRefDatabase {
    /** repo.getProjectName() */
    const project: string
    /** The RefByNameCacheImpl behind refsCache; the wrapper's fallback to
        NoOpRefByNameCache when no cache is bound is not modelled here. */
    const cache: RefByNameCache.NameCache
    /** refsByObjectId; None while it is null. */
    var refsByObjectId: Option<set<Entry>>

    constructor(cache: RefByNameCache.NameCache, project: string)
      ensures this.cache == cache && this.project == project && refsByObjectId == None
    {
      this.cache := cache;
      this.project := project;
      refsByObjectId := None;
    }

    function State(): DbState
      reads this, cache
    {
      DbState(cache.refByName, refsByObjectId)
    }

    /** getAllRefsFromDelegate(). The loader first puts the ref into the
        multimap, which throws NullPointerException while it is null; the
        cache rethrows that unchecked, and it leaves the loop. An
        IOException from the store answers the empty list. */
    method GetAllRefsFromDelegate(store: RefStore) returns (r: Result<seq<Ref>>)
      modifies this, cache
      ensures Outcome(State(), r) == FromDelegate(old(State()), project, store)
      ensures cache.refsByObjectId == old(cache.refsByObjectId)
    {
      var all := RS.GetRefs(store);
      if all.Fail? {
        return Ok([]);
      }
      var refs := all.value;
      var i := 0;
      while i < |refs|
        invariant 0 <= i <= |refs|
        invariant SeedAsWritten(old(State()), project, refs[..i]) == Ok(State())
        invariant refsByObjectId.Some? == old(refsByObjectId).Some?
        invariant cache.refsByObjectId == old(cache.refsByObjectId)
      {
        assert refs[..i + 1][..i] == refs[..i];
        var ref := refs[i];
        var loader := if refsByObjectId.Some? then Ok(Some(ref)) else Fail(NullPointerException);
        var v, loaded := cache.ComputeIfAbsent(project, ref.name, loader);
        if v.Fail? {
          SeedAsWrittenOnNewDatabase(old(State()), project, refs[..i]);
          SeedAsWrittenFailSticks(old(State()), project, refs, i + 1);
          return Fail(v.error);
        }
        if loaded {
          refsByObjectId := Some(refsByObjectId.value + {Entry(ObjectIdOf(ref), ref)});
        }
        i := i + 1;
      }
      assert refs[..|refs|] == refs;
      r := Ok(refs);
    }

    /** refresh(): the store's refresh has no effect on the model; then
        getAllRefsFromDelegate, whose NullPointerException propagates. */
    method Refresh(store: RefStore) returns (r: Result<()>)
      modifies this, cache
      ensures State() == FromDelegate(old(State()), project, store).state
      ensures r.Ok? <==> FromDelegate(old(State()), project, store).result.Ok?
      ensures r.Fail? ==> r.error == NullPointerException
      ensures cache.refsByObjectId == old(cache.refsByObjectId)
    {
      var all := GetAllRefsFromDelegate(store);
      r := if all.Ok? then Ok(()) else Fail(all.error);
    }

    /** getAllRefs(): the cache's present refs of the project, in the
        cache's own order, or the store's list when there are none. */
    method GetAllRefs(store: RefStore) returns (r: Result<seq<Ref>>)
      modifies this, cache
      ensures State() == AllRefsState(old(State()), project, store)
      ensures r.Fail? <==> AllRefsFails(old(State()), project, store)
      ensures r.Fail? ==> r.error == NullPointerException
      ensures r.Ok? ==> forall x :: x in r.value <==> x in Listed(old(cache.refByName), project, store)
      ensures r.Ok? && RefByNameCache.Present(old(cache.refByName), project) == {} ==>
        r.value == if store.readable then store.refs else []
      ensures r.Ok? && RefByNameCache.Present(old(cache.refByName), project) != {} ==>
        Distinct(r.value)
      ensures cache.refsByObjectId == old(cache.refsByObjectId)
    {
      var cached := cache.All(project);
      if cached == {} {
        r := GetAllRefsFromDelegate(store);
        return;
      }
      var refs := [];
      var rest := cached;
      while rest != {}
        invariant rest <= cached
        invariant forall x :: x in refs <==> x in cached && x !in rest
        invariant Distinct(refs)
        decreases |rest|
      {
        var x :| x in rest;
        refs := refs + [x];
        rest := rest - {x};
      }
      r := Ok(refs);
    }

    /** lazilyInitRefMaps() */
    method LazilyInitRefMaps(store: RefStore)
      modifies this, cache
      ensures State() == LazyInit(old(State()), project, store)
      ensures cache.refsByObjectId == old(cache.refsByObjectId)
    {
      if refsByObjectId.Some? {
        return;
      }
      refsByObjectId := Some({});
      FromDelegateCases(State(), project, store);
      var listing := GetAllRefs(store);
      var all := listing.value;
      var i := 0;
      while i < |all|
        invariant 0 <= i <= |all|
        invariant cache.refByName == LazyInit(old(State()), project, store).entries
        invariant cache.refsByObjectId == old(cache.refsByObjectId)
        invariant refsByObjectId.Some?
        invariant refsByObjectId.value == AllRefsState(DbState(old(cache.refByName), Some({})), project, store).byId.value
          + Indexed(Elements(all[..i]))
      {
        var id := ObjectIdOf(all[i]);
        assert Elements(all[..i + 1]) == Elements(all[..i]) + {all[i]};
        if id.Some? {
          refsByObjectId := Some(refsByObjectId.value + {Entry(id, all[i])});
        }
        i := i + 1;
      }
      assert all[..|all|] == all;
      assert Elements(all) == Listed(old(cache.refByName), project, store);
    }

    /** exactRef(name) */
    method ExactRef(name: string, store: RefStore) returns (r: Result<Option<Ref>>)
      modifies this, cache
      ensures Outcome(State(), r) == ExactRefStep(old(State()), project, name, store)
    {
      LazilyInitRefMaps(store);
      var loader := RS.ExactRef(store, name);
      var v, loaded := cache.ComputeIfAbsent(project, name, loader);
      if loaded && loader.Ok? && loader.value.Some? {
        refsByObjectId := Some(refsByObjectId.value + {Entry(ObjectIdOf(loader.value.value), loader.value.value)});
      }
      r := v;
    }

    /** exactRef(String...): the listed refs with a requested name, by name;
        a name listed twice throws IllegalStateException. `listed` is the
        order getAllRefs produced. */
    method ExactRefs(names: seq<string>, store: RefStore) returns (r: Result<map<string, Ref>>, ghost listed: seq<Ref>)
      modifies this, cache
      ensures State() == AllRefsState(old(State()), project, store)
      ensures AllRefsFails(old(State()), project, store) ==> r == Fail(NullPointerException)
      ensures !AllRefsFails(old(State()), project, store) ==>
        && (forall x :: x in listed <==> x in Listed(old(cache.refByName), project, store))
        && r == ToMap(Named(listed, names))
    {
      var all := GetAllRefs(store);
      if all.Fail? {
        r, listed := Fail(all.error), [];
        return;
      }
      listed := all.value;
      r := ToMap(Named(all.value, names));
    }

    /** firstExactRef(String...): Set.of(refs) throws IllegalArgumentException
        on a repeated name before anything is read; otherwise the first
        listed ref with a requested name. */
    method FirstExactRef(names: seq<string>, store: RefStore) returns (r: Result<Option<Ref>>, ghost listed: seq<Ref>)
      modifies this, cache
      ensures Repeats(names) ==> r == Fail(IllegalArgumentException) && State() == old(State())
      ensures !Repeats(names) ==> State() == AllRefsState(old(State()), project, store)
      ensures !Repeats(names) && AllRefsFails(old(State()), project, store) ==> r == Fail(NullPointerException)
      ensures !Repeats(names) && !AllRefsFails(old(State()), project, store) ==>
        && (forall x :: x in listed <==> x in Listed(old(cache.refByName), project, store))
        && r == Ok(FirstNamed(listed, names))
    {
      if Repeats(names) {
        r, listed := Fail(IllegalArgumentException), [];
        return;
      }
      var all := GetAllRefs(store);
      if all.Fail? {
        r, listed := Fail(all.error), [];
        return;
      }
      listed := all.value;
      r := Ok(FirstNamed(all.value, names));
    }

    /** getRefsByPrefix(prefix): everything for ALL (""), otherwise the
        listed refs under the prefix, in list order. */
    method GetRefsByPrefix(prefix: string, store: RefStore) returns (r: Result<seq<Ref>>, ghost listed: seq<Ref>)
      modifies this, cache
      ensures State() == AllRefsState(old(State()), project, store)
      ensures AllRefsFails(old(State()), project, store) ==> r == Fail(NullPointerException)
      ensures !AllRefsFails(old(State()), project, store) ==>
        && (forall x :: x in listed <==> x in Listed(old(cache.refByName), project, store))
        && r == Ok(if prefix == "" then listed else WithPrefix(listed, prefix))
    {
      var all := GetAllRefs(store);
      if all.Fail? {
        r, listed := Fail(all.error), [];
        return;
      }
      listed := all.value;
      r := Ok(if prefix == "" then all.value else WithPrefix(all.value, prefix));
    }

    /** getRefsByPrefix(String...): the listed refs under any prefix, each
        once, in list order. */
    method GetRefsByPrefixes(prefixes: seq<string>, store: RefStore) returns (r: Result<seq<Ref>>, ghost listed: seq<Ref>)
      modifies this, cache
      ensures State() == AllRefsState(old(State()), project, store)
      ensures AllRefsFails(old(State()), project, store) ==> r == Fail(NullPointerException)
      ensures !AllRefsFails(old(State()), project, store) ==>
        && (forall x :: x in listed <==> x in Listed(old(cache.refByName), project, store))
        && r == Ok(UnderAny(listed, prefixes))
    {
      var all := GetAllRefs(store);
      if all.Fail? {
        r, listed := Fail(all.error), [];
        return;
      }
      listed := all.value;
      r := Ok(UnderAny(all.value, prefixes));
    }

    /** getTipsWithSha1(id): a copy of the id's bucket. */
    method GetTipsWithSha1(id: ObjectId, store: RefStore) returns (r: set<Ref>)
      modifies this, cache
      ensures State() == LazyInit(old(State()), project, store)
      ensures r == Bucket(refsByObjectId.value, Some(id))
    {
      LazilyInitRefMaps(store);
      r := Bucket(refsByObjectId.value, Some(id));
    }

    /** hasRefs() */
    function HasRefs(store: RefStore): (r: Result<bool>)
      reads this, cache
      ensures r == HasRefsOf(cache.refByName, project, store)
    {
      if cache.HasRefs(project) then Ok(true) else RS.HasRefs(store)
    }
  }

  /** The name starts with one of the prefixes. */
  predicate MatchesAny(name: string, prefixes: seq<string>)
  {
    exists p :: p in prefixes && StartsWith(name, p)
  }

  /** The filter of getRefsByPrefix(String...): refs matching any prefix,
      in list order, each once. */
  function UnderAny(refs: seq<Ref>, prefixes: seq<string>): (r: seq<Ref>)
    ensures forall x :: x in r <==> x in refs && MatchesAny(x.name, prefixes)
    ensures |r| <= |refs|
  {
    if refs == [] then []
    else (if MatchesAny(refs[0].name, prefixes) then [refs[0]] else []) + UnderAny(refs[1..], prefixes)
  }

  /** No ref occurs twice. */
  predicate Distinct(refs: seq<Ref>)
  {
    forall i, j :: 0 <= i < j < |refs| ==> refs[i] != refs[j]
  }

  /** UnderAny never repeats a ref the list does not repeat. */
  lemma {:induction false} UnderAnyDistinct(refs: seq<Ref>, prefixes: seq<string>)
    requires Distinct(refs)
    ensures Distinct(UnderAny(refs, prefixes))
  {
    if refs != [] {
      var rest := refs[1..];
      assert Distinct(rest) by {
        forall i, j | 0 <= i < j < |rest| ensures rest[i] != rest[j] {
          assert rest[i] == refs[i + 1] && rest[j] == refs[j + 1];
        }
      }
      UnderAnyDistinct(rest, prefixes);
      var t := UnderAny(rest, prefixes);
      var r := UnderAny(refs, prefixes);
      assert refs[0] !in rest by {
        forall k | 0 <= k < |rest| ensures rest[k] != refs[0] {
          assert rest[k] == refs[k + 1];
        }
      }
      if MatchesAny(refs[0].name, prefixes) {
        assert r == [refs[0]] + t;
        forall i, j | 0 <= i < j < |r| ensures r[i] != r[j] {
          assert r[j] == t[j - 1] && t[j - 1] in t;
          if i > 0 {
            assert r[i] == t[i - 1];
          }
        }
      } else {
        assert r == t;
      }
    }
  }
}
