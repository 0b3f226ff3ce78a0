/** BatchRefUpdateWithCacheUpdate: runs the whole backing batch, then walks
    its commands in order and brings the cache up to date for each command
    the batch reports OK. */
module BatchRefUpdateWithCacheUpdate {
  import opened Refs
  import opened RefStore
  import opened RefDatabaseCacheSpec
  import RefDatabaseCacheImpl

  /** One command of evictCache: an OK DELETE evicts the name and the old
      id's bucket; any other OK command re-reads the ref from the store and
      refreshes the old and new ids' buckets. A cache ExecutionException
      becomes IOException; other exceptions propagate. */
  function CommandStep(s: CacheState, project: string, cmd: ReceiveCommand, store: RefStore): (st: Step<()>)
    ensures cmd.result != OK ==> st == Step(s, Ok(()))
    ensures st.result.Fail? ==> st.result.error != ExecutionException
  {
    if cmd.result != OK then Step(s, Ok(()))
    else if cmd.kind == DELETE then
      var e := Evict(s, project, cmd.refName, store);
      match e.result
      case Fail(_) => Step(e.state, Fail(IOException))
      case Ok(_) => Step(EvictObjectIdCache(e.state, project, Some(cmd.oldId)), Ok(()))
    else
      var u := UpdateRef(s, project, cmd.refName, store);
      match u.result
      case Fail(err) => Step(u.state, Fail(if err == ExecutionException then IOException else err))
      case Ok(_) =>
        Step(EvictObjectIdCache(EvictObjectIdCache(u.state, project, Some(cmd.oldId)), project, Some(cmd.newId)), Ok(()))
  }

  /** evictCache over `cmds`, in list order, stopping at the first failure. */
  function Batch(s: CacheState, project: string, cmds: seq<ReceiveCommand>, store: RefStore): Step<()>
  {
    if cmds == [] then Step(s, Ok(()))
    else
      var st := Batch(s, project, cmds[..|cmds| - 1], store);
      if st.result.Fail? then st else CommandStep(st.state, project, cmds[|cmds| - 1], store)
  }

  /** execute(...): a failing backing batch propagates before any cache
      change; otherwise evictCache runs over the batch's commands. */
  function ExecuteBatch(s: CacheState, project: string, delegate: Result<seq<ReceiveCommand>>, store: RefStore): (st: Step<()>)
    ensures delegate.Fail? ==> st == Step(s, Fail(delegate.error))
  {
    match delegate
    case Fail(e) => Step(s, Fail(e))
    case Ok(cmds) => Batch(s, project, cmds, store)
  }

  // ---------------------------------------------------------------------
  // Properties
  // ---------------------------------------------------------------------

  /** Commands that are not OK leave the cache exactly as it was. */
  lemma {:induction false} BatchSkipsNotOk(s: CacheState, project: string, cmds: seq<ReceiveCommand>, store: RefStore)
    requires forall c :: c in cmds ==> c.result != OK
    ensures Batch(s, project, cmds, store) == Step(s, Ok(()))
  {
    if cmds != [] {
      BatchSkipsNotOk(s, project, cmds[..|cmds| - 1], store);
    }
  }

  /** Once a command fails, the remaining commands are not processed. */
  lemma {:induction false} BatchStopsAtFailure(s: CacheState, project: string, cmds: seq<ReceiveCommand>, store: RefStore, k: nat)
    requires k <= |cmds| && Batch(s, project, cmds[..k], store).result.Fail?
    ensures Batch(s, project, cmds, store) == Batch(s, project, cmds[..k], store)
    decreases |cmds| - k
  {
    if k < |cmds| {
      var front := cmds[..|cmds| - 1];
      assert front[..k] == cmds[..k];
      BatchStopsAtFailure(s, project, front, store, k);
    } else {
      assert cmds[..k] == cmds;
    }
  }

  /** One OK command sets the view of its name to the store's ref (null
      after a delete of a ref the store no longer holds); nothing else. */
  lemma CommandStepView(s: CacheState, project: string, cmd: ReceiveCommand, store: RefStore, n: string)
    requires CommandStep(s, project, cmd, store).result.Ok?
    requires cmd.result == OK && cmd.kind == DELETE ==> Find(store.refs, cmd.refName).None?
    ensures View(CommandStep(s, project, cmd, store).state, project, store, n) ==
      if cmd.result == OK && cmd.refName == n then Find(store.refs, n) else View(s, project, store, n)
  {
    if cmd.result == OK {
      if cmd.kind == DELETE {
        EvictView(s, project, cmd.refName, store, n);
      } else {
        UpdateRefView(s, project, cmd.refName, store, n);
      }
    }
  }

  /** After a batch whose cache pass completes, every name some OK command
      touched shows the store's ref, and every other name is as before. */
  lemma {:induction false} BatchView(s: CacheState, project: string, cmds: seq<ReceiveCommand>, store: RefStore, n: string)
    requires Batch(s, project, cmds, store).result.Ok?
    requires forall c :: c in cmds && c.result == OK && c.kind == DELETE ==> Find(store.refs, c.refName).None?
    ensures View(Batch(s, project, cmds, store).state, project, store, n) ==
      if n in OkNames(cmds) then Find(store.refs, n) else View(s, project, store, n)
  {
    if cmds != [] {
      var front := cmds[..|cmds| - 1];
      var c := cmds[|cmds| - 1];
      assert cmds == front + [c];
      var st := Batch(s, project, front, store);
      assert st.result.Ok?;
      BatchView(s, project, front, store, n);
      CommandStepView(st.state, project, c, store, n);
      assert n in OkNames(cmds) <==> n in OkNames(front) || (c.result == OK && c.refName == n);
    }
  }

  /** A cache coherent with the store before the batch is coherent with the
      store after it, when the batch changed only the OK commands' names. */
  lemma BatchRestoresCoherence(s: CacheState, project: string, cmds: seq<ReceiveCommand>, before: RefStore, after: RefStore)
    requires Coherent(s, project, before) && AgreeOutside(before, after, OkNames(cmds))
    requires forall c :: c in cmds && c.result == OK && c.kind == DELETE ==> Find(after.refs, c.refName).None?
    requires Batch(s, project, cmds, after).result.Ok?
    ensures Coherent(Batch(s, project, cmds, after).state, project, after)
  {
    var st := Batch(s, project, cmds, after);
    forall n ensures View(st.state, project, after, n) == Find(after.refs, n) {
      BatchView(s, project, cmds, after, n);
    }
    CoherentIffView(st.state, project, after);
  }

  class BatchRefUpdateWithCacheUpdate {
    const cache: RefDatabaseCacheImpl.Cache
    const project: string

    constructor(cache: RefDatabaseCacheImpl.Cache, project: string)
      ensures this.cache == cache && this.project == project
    {
      this.cache := cache;
      this.project := project;
    }

    /** evictCache() over the commands of the executed batch. */
    method EvictCache(cmds: seq<ReceiveCommand>, store: RefStore) returns (r: Result<()>)
      modifies cache
      ensures Step(cache.State(), r) == Batch(old(cache.State()), project, cmds, store)
    {
      var i := 0;
      while i < |cmds|
        invariant 0 <= i <= |cmds|
        invariant Batch(old(cache.State()), project, cmds[..i], store) == Step(cache.State(), Ok(()))
      {
        var cmd := cmds[i];
        assert cmds[..i + 1][..i] == cmds[..i];
        if cmd.result == OK {
          if cmd.kind == DELETE {
            var e := cache.Evict(project, cmd.refName, store);
            if e.Fail? {
              BatchStopsAtFailure(old(cache.State()), project, cmds, store, i + 1);
              return Fail(IOException);
            }
            cache.EvictObjectIdCache(project, Some(cmd.oldId));
          } else {
            var u := cache.UpdateRef(project, cmd.refName, store);
            if u.Fail? {
              BatchStopsAtFailure(old(cache.State()), project, cmds, store, i + 1);
              return Fail(if u.error == ExecutionException then IOException else u.error);
            }
            cache.EvictObjectIdCache(project, Some(cmd.oldId));
            cache.EvictObjectIdCache(project, Some(cmd.newId));
          }
        }
        i := i + 1;
      }
      assert cmds[..|cmds|] == cmds;
      r := Ok(());
    }

    /** execute(walk, monitor) and execute(walk, monitor, options): the
        backing batch's outcome is `delegate` (its commands, or what it
        threw), and `store` is the repository it left behind. */
    method Execute(delegate: Result<seq<ReceiveCommand>>, store: RefStore) returns (r: Result<()>)
      modifies cache
      ensures Step(cache.State(), r) == ExecuteBatch(old(cache.State()), project, delegate, store)
    {
      match delegate {
        case Fail(e) => r := Fail(e);
        case Ok(cmds) => r := EvictCache(cmds, store);
      }
    }
  }
}
