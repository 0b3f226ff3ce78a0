/** RefRenameWithCacheUpdate: a JGit RefRename that lets the backing rename
    run, returns its result code unchanged, and after a successful code
    moves the cache entry from the source name to the destination name. */
module RefRenameWithCacheUpdate {
  import opened Refs
  import opened RefStore
  import opened PrefixTree
  import opened RefDatabaseCacheSpec
  import RefDatabaseCacheImpl

  /** rename() as written: evict the source, then read the destination
      through the cache and store what it answers. The backing rename
      created the destination in the store only, so a project tree that was
      already loaded answers null for it, and storing null throws
      NullPointerException. */
  function RenameAsWritten(s: CacheState, project: string, src: string, dst: string,
                           code: UpdateResult, store: RefStore): (st: Step<UpdateResult>)
    ensures code !in SuccessfulUpdates ==> st == Step(s, Ok(code))
    ensures st.result.Ok? ==> st.result.value == code
  {
    if code !in SuccessfulUpdates then Step(s, Ok(code))
    else
      var e := Evict(s, project, src, store);
      if e.result.Fail? then Step(e.state, Fail(IOException))
      else
        var g := Get(e.state, project, dst, store);
        match g.result
        case Fail(err) => Step(g.state, Fail(err))
        case Ok(ref) =>
          var i := InsertRef(g.state, project, ref, store);
          match i.result
          case Fail(err) => Step(i.state, Fail(err))
          case Ok(_) => Step(i.state, Ok(code))
  }

  /** rename() as evidently intended: evict the source, then re-read the
      destination from the store, as the update interceptor does. */
  function RenameCorrected(s: CacheState, project: string, src: string, dst: string,
                           code: UpdateResult, store: RefStore): (st: Step<UpdateResult>)
    ensures code !in SuccessfulUpdates ==> st == Step(s, Ok(code))
    ensures st.result.Ok? ==> st.result.value == code
    ensures code in SuccessfulUpdates && store.readable && Find(store.refs, dst).Some? ==> st.result.Ok?
  {
    if code !in SuccessfulUpdates then Step(s, Ok(code))
    else
      var e := Evict(s, project, src, store);
      if e.result.Fail? then Step(e.state, Fail(IOException))
      else
        var u := UpdateRef(e.state, project, dst, store);
        match u.result
        case Fail(err) => Step(u.state, Fail(err))
        case Ok(_) => Step(u.state, Ok(code))
  }

  /** doRename() is never meant to run. */
  function DoRename(): (r: Result<UpdateResult>)
    ensures r.Fail? && r.error == UnsupportedOperationException
  {
    Fail(UnsupportedOperationException)
  }

  // ---------------------------------------------------------------------
  // The destination is lost as written
  // ---------------------------------------------------------------------

  /** With the project tree already loaded and not holding the destination
      (it did not exist before the rename), a successful rename throws
      NullPointerException and leaves the destination out of the cache,
      although the store holds it. */
  lemma RenameAsWrittenLosesDestination(s: CacheState, project: string, src: string, dst: string,
                                        code: UpdateResult, store: RefStore)
    requires code in SuccessfulUpdates && project in s.trees
    requires Lookup(s.trees[project], dst).None? && src != dst
    ensures RenameAsWritten(s, project, src, dst, code, store).result == Fail(NullPointerException)
    ensures View(RenameAsWritten(s, project, src, dst, code, store).state, project, store, dst) == None
  {
    EvictView(s, project, src, store, dst);
  }

  /** The corrected rename leaves the destination as the store holds it. */
  lemma RenameFindsDestination(s: CacheState, project: string, src: string, dst: string,
                               code: UpdateResult, store: RefStore)
    requires code in SuccessfulUpdates && store.readable && Find(store.refs, dst).Some?
    ensures RenameCorrected(s, project, src, dst, code, store).result == Ok(code)
    ensures View(RenameCorrected(s, project, src, dst, code, store).state, project, store, dst) == Find(store.refs, dst)
  {
    var e := Evict(s, project, src, store);
    UpdateRefView(e.state, project, dst, store, dst);
  }

  // ---------------------------------------------------------------------
  // What the corrected rename leaves in the cache
  // ---------------------------------------------------------------------

  /** After a successful rename the destination shows the store's ref, the
      source is gone when the names differ, and other names are as before. */
  lemma RenameMoves(s: CacheState, project: string, src: string, dst: string,
                    code: UpdateResult, store: RefStore, n: string)
    requires code in SuccessfulUpdates
    requires RenameCorrected(s, project, src, dst, code, store).result.Ok?
    ensures var v := View(RenameCorrected(s, project, src, dst, code, store).state, project, store, n);
      v == if n == dst then Find(store.refs, n) else if n == src then None else View(s, project, store, n)
  {
    var e := Evict(s, project, src, store);
    EvictView(s, project, src, store, n);
    UpdateRefView(e.state, project, dst, store, n);
  }

  /** A cache coherent with the store before the rename is coherent with the
      store after it. */
  lemma RenameRestoresCoherence(s: CacheState, project: string, src: string, dst: string,
                                code: UpdateResult, before: RefStore, after: RefStore)
    requires Coherent(s, project, before) && AgreeOutside(before, after, {src, dst})
    requires code in SuccessfulUpdates && src != dst ==> Find(after.refs, src).None?
    requires code !in SuccessfulUpdates ==> before == after
    requires RenameCorrected(s, project, src, dst, code, after).result.Ok?
    ensures Coherent(RenameCorrected(s, project, src, dst, code, after).state, project, after)
  {
    var st := RenameCorrected(s, project, src, dst, code, after);
    if code in SuccessfulUpdates {
      forall n ensures View(st.state, project, after, n) == Find(after.refs, n) {
        RenameMoves(s, project, src, dst, code, after, n);
      }
      CoherentIffView(st.state, project, after);
    }
  }

  /** After a successful rename, exactRef of the old name answers null, of
      the new name the store's ref, and a listing by one prefix holds exactly
      the store's refs under it. */
  lemma RenameThenRead(s: CacheState, project: string, src: string, dst: string,
                       code: UpdateResult, before: RefStore, after: RefStore, prefix: string, x: Ref)
    requires ValidState(s) && Coherent(s, project, before) && AgreeOutside(before, after, {src, dst})
    requires code in SuccessfulUpdates && src != dst && Find(after.refs, src).None?
    requires after.readable && UniqueNames(after.refs)
    requires RenameCorrected(s, project, src, dst, code, after).result.Ok?
    ensures var st := RenameCorrected(s, project, src, dst, code, after).state;
      && Get(st, project, src, after).result == Ok(None)
      && Get(st, project, dst, after).result == Ok(Find(after.refs, dst))
      && AllByPrefixes(st, project, [prefix], after).result.Ok?
      && (x in AllByPrefixes(st, project, [prefix], after).result.value <==>
            x in after.refs && StartsWith(x.name, prefix))
  {
    var e := Evict(s, project, src, after);
    var st := RenameCorrected(s, project, src, dst, code, after).state;
    EvictKeepsTreesValid(s, project, src, after);
    InsertRefKeepsTreesValid(e.state, project, Find(after.refs, dst), after);
    RenameRestoresCoherence(s, project, src, dst, code, before, after);
    RenameMoves(s, project, src, dst, code, after, src);
    RenameMoves(s, project, src, dst, code, after, dst);
    GetAnswersView(st, project, src, after);
    GetAnswersView(st, project, dst, after);
    AllByPrefixMembers(st, project, prefix, after, x);
    CoherentTreeHoldsStore(st, project, after, x);
  }

  class RefRenameWithCacheUpdate {
    const cache: RefDatabaseCacheImpl.Cache
    const project: string
    /** getName() of the source and destination updates. */
    const src: string
    const dst: string
    /** Whether the wrapped rename has been assigned yet. */
    var delegateReady: bool
    /** The wrapped rename's reflog message, as far as this class sets it. */
    var delegateMessage: Option<string>

    /** The superclass constructor sets a reflog message before the wrapped
        rename is assigned; that call is ignored. */
    constructor(cache: RefDatabaseCacheImpl.Cache, project: string, src: string, dst: string, initialMessage: string)
      ensures this.cache == cache && this.project == project && this.src == src && this.dst == dst
      ensures delegateReady && delegateMessage == None
    {
      this.cache := cache;
      this.project := project;
      this.src := src;
      this.dst := dst;
      delegateReady := false;
      delegateMessage := None;
      new;
      SetRefLogMessage(initialMessage);
      delegateReady := true;
    }

    /** setRefLogMessage(msg): forwarded once the wrapped rename exists. */
    method SetRefLogMessage(msg: string)
      modifies this
      ensures delegateReady == old(delegateReady)
      ensures delegateMessage == if delegateReady then Some(msg) else old(delegateMessage)
    {
      if delegateReady {
        delegateMessage := Some(msg);
      }
    }

    /** rename(): the backing rename reported `code` and left the store as
        `store`; the cache is then updated as Rename states. */
    method Rename(code: UpdateResult, store: RefStore) returns (r: Result<UpdateResult>)
      modifies cache
      ensures Step(cache.State(), r) == RenameCorrected(old(cache.State()), project, src, dst, code, store)
    {
      if code !in SuccessfulUpdates {
        return Ok(code);
      }
      var e := cache.Evict(project, src, store);
      if e.Fail? {
        return Fail(IOException);
      }
      var u := cache.UpdateRef(project, dst, store);
      if u.Fail? {
        return Fail(u.error);
      }
      r := Ok(code);
    }
  }
}
