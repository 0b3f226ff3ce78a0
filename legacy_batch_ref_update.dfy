/** BatchRefUpdateWithCacheUpdate of the older generation: runs the backing
    batch, then, for each command it reports OK, evicts the name from the
    name cache and reads it again through the cached ref database, which
    stores the fresh answer. */
module LegacyBatchRefUpdateWithCacheUpdate {
  import opened Refs
  import opened RefStore
  import opened LegacyCachedRefDatabase

  /** One command of evictCacheAndReload. A command that is not OK changes
      nothing. Otherwise the name's key is invalidated, then
      repo.exactRef(name) reads it through the cached ref database, and the
      answer is offered once more with `() -> Optional.of(updatedRef)`. When
      exactRef stored an entry the key is present and that loader never runs;
      when it stored nothing (the store read failed, which exactRef turns
      into null) the loader throws NullPointerException, which the cache
      lets through. */
  function ReloadStep(st: DbState, project: string, cmd: ReceiveCommand, store: RefStore): (o: Outcome<()>)
    ensures cmd.result != OK ==> o == Outcome(st, Ok(()))
    ensures o.state.byId.Some? || cmd.result != OK
  {
    if cmd.result != OK then Outcome(st, Ok(()))
    else
      var key := UniqueName(project, cmd.refName);
      var e := ExactRefStep(DbState(st.entries - {key}, st.byId), project, cmd.refName, store);
      if key in e.state.entries then Outcome(e.state, Ok(()))
      else Outcome(e.state, Fail(NullPointerException))
  }

  /** evictCacheAndReload over `cmds` in list order; an exception ends the
      forEach, leaving the remaining commands unprocessed. */
  function Reload(st: DbState, project: string, cmds: seq<ReceiveCommand>, store: RefStore): Outcome<()>
  {
    if cmds == [] then Outcome(st, Ok(()))
    else
      var o := Reload(st, project, cmds[..|cmds| - 1], store);
      if o.result.Fail? then o else ReloadStep(o.state, project, cmds[|cmds| - 1], store)
  }

  /** execute(...): a failing backing batch propagates before any cache
      change; otherwise evictCacheAndReload runs over its commands. */
  function ExecuteReload(st: DbState, project: string, delegate: Result<seq<ReceiveCommand>>, store: RefStore): (o: Outcome<()>)
    ensures delegate.Fail? ==> o == Outcome(st, Fail(delegate.error))
  {
    match delegate
    case Fail(e) => Outcome(st, Fail(e))
    case Ok(cmds) => Reload(st, project, cmds, store)
  }

  /** Every cached entry of the project answers its name as the store does. */
  ghost predicate Agrees(entries: map<string, Option<Ref>>, project: string, store: RefStore)
  {
    forall n :: UniqueName(project, n) in entries ==> entries[UniqueName(project, n)] == Find(store.refs, n)
  }

  // ---------------------------------------------------------------------
  // One command
  // ---------------------------------------------------------------------

  /** lazilyInitRefMaps keeps every cached entry, and any entry it adds for
      the project holds the store's ref of that name. */
  lemma LazyInitAddsStoreRefs(st: DbState, project: string, store: RefStore, n: string)
    requires UniqueNames(store.refs)
    ensures var s1 := LazyInit(st, project, store);
      && (forall k :: k in st.entries ==> k in s1.entries && s1.entries[k] == st.entries[k])
      && (UniqueName(project, n) in s1.entries && UniqueName(project, n) !in st.entries ==>
            s1.entries[UniqueName(project, n)] == Find(store.refs, n))
  {
    if st.byId.None? {
      var s0 := DbState(st.entries, Some({}));
      FromDelegateCases(s0, project, store);
      if RefByNameCache.Present(st.entries, project) == {} && store.readable {
        var key := UniqueName(project, n);
        SeedKeys(s0, project, store.refs);
        var r := Seed(s0, project, store.refs);
        if key in r.entries && key !in st.entries {
          var x :| x in store.refs && UniqueName(project, x.name) == key;
          UniqueNameOfProject(project, x.name, n);
          SeedStores(s0, project, store.refs, x);
          FindListed(store.refs, x);
        }
      }
    }
  }

  /** With a readable store, an OK command completes and leaves its name
      cached as the store holds it; every other name keeps its entry, or,
      when it was not cached, is cached at most with the store's ref. A
      command that is not OK changes nothing. */
  lemma ReloadStepView(st: DbState, project: string, cmd: ReceiveCommand, store: RefStore, n: string)
    requires store.readable && UniqueNames(store.refs)
    ensures var o := ReloadStep(st, project, cmd, store);
      var k := UniqueName(project, n);
      var reloaded := cmd.result == OK && cmd.refName == n;
      && o.result.Ok?
      && (k in st.entries || reloaded ==> k in o.state.entries)
      && (k in o.state.entries ==>
            o.state.entries[k] == if reloaded || k !in st.entries then Find(store.refs, n) else st.entries[k])
  {
    if cmd.result == OK {
      var key := UniqueName(project, cmd.refName);
      var k := UniqueName(project, n);
      var s0 := DbState(st.entries - {key}, st.byId);
      var s1 := LazyInit(s0, project, store);
      LazyInitAddsStoreRefs(s0, project, store, n);
      LazyInitAddsStoreRefs(s0, project, store, cmd.refName);
      UniqueNameOfProject(project, cmd.refName, n);
      var e := ExactRefStep(s0, project, cmd.refName, store);
      if key !in s1.entries {
        assert e.state.entries == s1.entries[key := Find(store.refs, cmd.refName)];
      } else {
        assert e.state == s1;
      }
    }
  }

  /** When the store cannot be read, an OK command throws
      NullPointerException out of the forEach with its name evicted; with
      the multimap built, nothing else has changed. */
  lemma ReloadStepUnreadable(st: DbState, project: string, cmd: ReceiveCommand, store: RefStore)
    requires cmd.result == OK && !store.readable
    ensures var o := ReloadStep(st, project, cmd, store);
      && o.result == Fail(NullPointerException)
      && UniqueName(project, cmd.refName) !in o.state.entries
      && (st.byId.Some? ==> o.state == DbState(st.entries - {UniqueName(project, cmd.refName)}, st.byId))
  {
    var key := UniqueName(project, cmd.refName);
    var s0 := DbState(st.entries - {key}, st.byId);
    var s1 := LazyInit(s0, project, store);
    assert key !in s1.entries;
  }

  /** Reloading never removes an entry from the multimap: a ref deleted or
      moved by the batch stays among the tips of its old object id. */
  lemma ReloadStepKeepsIndex(st: DbState, project: string, cmd: ReceiveCommand, store: RefStore)
    requires st.byId.Some?
    ensures var o := ReloadStep(st, project, cmd, store);
      o.state.byId.Some? && st.byId.value <= o.state.byId.value
  {
  }

  // ---------------------------------------------------------------------
  // The whole batch
  // ---------------------------------------------------------------------

  /** Commands that are not OK leave the cached ref database as it was. */
  lemma {:induction false} ReloadSkipsNotOk(st: DbState, project: string, cmds: seq<ReceiveCommand>, store: RefStore)
    requires forall c :: c in cmds ==> c.result != OK
    ensures Reload(st, project, cmds, store) == Outcome(st, Ok(()))
  {
    if cmds != [] {
      ReloadSkipsNotOk(st, project, cmds[..|cmds| - 1], store);
    }
  }

  /** Once a command throws, the remaining commands are not processed. */
  lemma {:induction false} ReloadStopsAtFailure(st: DbState, project: string, cmds: seq<ReceiveCommand>, store: RefStore, k: nat)
    requires k <= |cmds| && Reload(st, project, cmds[..k], store).result.Fail?
    ensures Reload(st, project, cmds, store) == Reload(st, project, cmds[..k], store)
    decreases |cmds| - k
  {
    if k < |cmds| {
      var front := cmds[..|cmds| - 1];
      assert front[..k] == cmds[..k];
      ReloadStopsAtFailure(st, project, front, store, k);
    } else {
      assert cmds[..k] == cmds;
    }
  }

  /** With a readable store the batch's cache pass completes; every name an
      OK command touched is cached as the store holds it, every other cached
      name keeps its entry, and a name cached only now holds the store's
      ref. */
  lemma {:induction false} ReloadView(st: DbState, project: string, cmds: seq<ReceiveCommand>, store: RefStore, n: string)
    requires store.readable && UniqueNames(store.refs)
    ensures var o := Reload(st, project, cmds, store);
      var k := UniqueName(project, n);
      && o.result.Ok?
      && (k in st.entries || n in OkNames(cmds) ==> k in o.state.entries)
      && (k in o.state.entries ==>
            o.state.entries[k] == if n in OkNames(cmds) || k !in st.entries then Find(store.refs, n) else st.entries[k])
  {
    if cmds != [] {
      var front := cmds[..|cmds| - 1];
      var c := cmds[|cmds| - 1];
      assert cmds == front + [c];
      assert n in OkNames(cmds) <==> n in OkNames(front) || (c.result == OK && c.refName == n);
      ReloadView(st, project, front, store, n);
      var mid := Reload(st, project, front, store);
      ReloadStepView(mid.state, project, c, store, n);
    }
  }

  /** A cache that agreed with the store before the batch agrees with the
      store the batch leaves behind, when the batch changed only names of
      its OK commands. */
  lemma ReloadRestoresAgreement(st: DbState, project: string, cmds: seq<ReceiveCommand>, before: RefStore, after: RefStore)
    requires Agrees(st.entries, project, before) && AgreeOutside(before, after, OkNames(cmds))
    requires after.readable && UniqueNames(after.refs)
    ensures Reload(st, project, cmds, after).result.Ok?
    ensures Agrees(Reload(st, project, cmds, after).state.entries, project, after)
  {
    var o := Reload(st, project, cmds, after);
    ReloadView(st, project, cmds, after, "");
    forall n | UniqueName(project, n) in o.state.entries
      ensures o.state.entries[UniqueName(project, n)] == Find(after.refs, n)
    {
      ReloadView(st, project, cmds, after, n);
    }
  }

  /** With the multimap built and every command OK, a store that cannot be
      read fails the batch at its first command, which is evicted. */
  lemma ReloadUnreadableStopsAtFirst(st: DbState, project: string, cmds: seq<ReceiveCommand>, store: RefStore)
    requires cmds != [] && cmds[0].result == OK && !store.readable && st.byId.Some?
    ensures Reload(st, project, cmds, store) ==
      Outcome(DbState(st.entries - {UniqueName(project, cmds[0].refName)}, st.byId), Fail(NullPointerException))
  {
    assert cmds[..1][..0] == [];
    ReloadStepUnreadable(st, project, cmds[0], store);
    ReloadStopsAtFailure(st, project, cmds, store, 1);
  }

  class BatchRefUpdateWithCacheUpdate {
    /** repo.getRefDatabase(), whose name cache is refsCache. */
    const db: CachedRefDatabase

    constructor(db: CachedRefDatabase)
      ensures this.db == db
    {
      this.db := db;
    }

    /** evictCacheAndReload() over the commands of the executed batch. */
    method EvictCacheAndReload(cmds: seq<ReceiveCommand>, store: RefStore) returns (r: Result<()>)
      modifies db, db.cache
      ensures Outcome(db.State(), r) == Reload(old(db.State()), db.project, cmds, store)
    {
      var i := 0;
      while i < |cmds|
        invariant 0 <= i <= |cmds|
        invariant Reload(old(db.State()), db.project, cmds[..i], store) == Outcome(db.State(), Ok(()))
      {
        var cmd := cmds[i];
        assert cmds[..i + 1][..i] == cmds[..i];
        if cmd.result == OK {
          db.cache.Evict(db.project, cmd.refName);
          var updated := db.ExactRef(cmd.refName, store);
          var loader := if updated.value.Some? then Ok(updated.value) else Fail(NullPointerException);
          var v, loaded := db.cache.ComputeIfAbsent(db.project, cmd.refName, loader);
          if v.Fail? {
            ReloadStopsAtFailure(old(db.State()), db.project, cmds, store, i + 1);
            return Fail(v.error);
          }
        }
        i := i + 1;
      }
      assert cmds[..|cmds|] == cmds;
      r := Ok(());
    }

    /** execute(walk, monitor) and execute(walk, monitor, options): the
        backing batch's outcome is `delegate` (its commands, or what it
        threw), and `store` is the repository it left behind. */
    method Execute(delegate: Result<seq<ReceiveCommand>>, store: RefStore) returns (r: Result<()>)
      modifies db, db.cache
      ensures Outcome(db.State(), r) == ExecuteReload(old(db.State()), db.project, delegate, store)
    {
      match delegate {
        case Fail(e) => r := Fail(e);
        case Ok(cmds) => r := EvictCacheAndReload(cmds, store);
      }
    }
  }
}
