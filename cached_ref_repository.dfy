/** CachedRefRepository of the current generation: the repository wrapper
    that hands out the cached ref database, routes `resolve` of full ref
    names through the cache, and wraps ref updates and renames in
    cache-updating interceptors. */
module CachedRefRepository {
  import opened Refs
  import opened RefStore
  import opened RefDatabaseCacheSpec
  import RefDatabaseCacheImpl
  import CachedRefDatabase
  import RefUpdateWithCacheUpdate
  import RefRenameWithCacheUpdate

  /** RefNames.REFS */
  const RefsPrefix: string := "refs/"

  /** REVISION_CHARS: the characters of revision-expression syntax. */
  predicate IsRevisionChar(c: char)
  {
    c == '^' || c == '~' || c == ':' || c == '@'
  }

  /** CharMatcher.matchesNoneOf, scanning the string from the front. */
  function NoRevisionChars(s: string): (b: bool)
    ensures b <==> forall i :: 0 <= i < |s| ==> !IsRevisionChar(s[i])
  {
    if s == [] then true
    else if IsRevisionChar(s[0]) then false
    else
      var rest := NoRevisionChars(s[1..]);
      assert forall i :: 1 <= i < |s| ==> s[i] == s[1..][i - 1];
      rest
  }

  /** isCacheableReference: a full ref name, with no revision syntax. */
  function IsCacheableReference(revstr: string): (b: bool)
    ensures b <==> StartsWith(revstr, RefsPrefix) && forall i :: 0 <= i < |revstr| ==> !IsRevisionChar(revstr[i])
  {
    StartsWith(revstr, RefsPrefix) && NoRevisionChars(revstr)
  }

  /** resolve(revstr): a cacheable string the cache knows answers the leaf
      object id of the cached ref; everything else, including a cacheable
      string the cache answers null for, goes to the backing repository,
      whose answer is `backing`. */
  function ResolveStep(s: CacheState, project: string, revstr: string, store: RefStore,
                       backing: Result<Option<ObjectId>>): (st: Step<Option<ObjectId>>)
    ensures !IsCacheableReference(revstr) ==> st == Step(s, backing)
  {
    if !IsCacheableReference(revstr) then Step(s, backing)
    else
      var g := Get(s, project, revstr, store);
      match g.result
      case Fail(e) => Step(g.state, Fail(e))
      case Ok(ref) =>
        if ref.Some? then Step(g.state, Ok(ObjectIdOf(ref.value))) else Step(g.state, backing)
  }

  // ---------------------------------------------------------------------
  // Which strings reach the cache
  // ---------------------------------------------------------------------

  /** The full branch and tag name of any short name without revision
      syntax ("master", "test_tag") are cacheable. */
  lemma FullNamesAreCacheable(short: string)
    requires forall i :: 0 <= i < |short| ==> !IsRevisionChar(short[i])
    ensures IsCacheableReference("refs/heads/" + short)
    ensures IsCacheableReference("refs/tags/" + short)
  {
    var heads: string := "refs/heads/";
    var tags: string := "refs/tags/";
    assert forall i :: 0 <= i < |heads| ==> !IsRevisionChar(heads[i]);
    assert forall i :: 0 <= i < |tags| ==> !IsRevisionChar(tags[i]);
    assert (heads + short)[..5] == heads[..5];
    assert (tags + short)[..5] == tags[..5];
  }

  /** A string that does not start with 'r' (a short name, HEAD, a short tag
      name, a SHA-1 or its abbreviation, a describe string of such a tag) is
      never cacheable. */
  lemma OnlyRefsAreCacheable(revstr: string)
    requires revstr != [] && revstr[0] != 'r'
    ensures !IsCacheableReference(revstr)
  {
    if |revstr| >= |RefsPrefix| {
      assert revstr[..|RefsPrefix|][0] == revstr[0];
    }
  }

  /** A parent, ancestor, path or reflog suffix makes any name uncacheable. */
  lemma RevisionSuffixesAreNotCacheable(name: string, path: string)
    ensures !IsCacheableReference(name + "^")
    ensures !IsCacheableReference(name + "~")
    ensures !IsCacheableReference(name + ":" + path)
    ensures !IsCacheableReference(name + "@{1}")
  {
    assert (name + "^")[|name|] == '^';
    assert (name + "~")[|name|] == '~';
    assert (name + ":" + path)[|name|] == ':';
    assert (name + "@{1}")[|name|] == '@';
  }

  /** A name with a hexadecimal digit first (every SHA-1 and abbreviation)
      is not cacheable. */
  lemma ObjectNamesAreNotCacheable(revstr: string)
    requires revstr != [] && ('0' <= revstr[0] <= '9' || 'a' <= revstr[0] <= 'f')
    ensures !IsCacheableReference(revstr)
  {
    OnlyRefsAreCacheable(revstr);
  }

  // ---------------------------------------------------------------------
  // resolve answers as the backing repository
  // ---------------------------------------------------------------------

  /** With the cache coherent with the store, resolve answers as the backing
      repository does for a full ref name it resolves to the ref's leaf
      object id, and leaves the name's entry as the store holds it. */
  lemma ResolveAgreesWithBacking(s: CacheState, project: string, revstr: string, store: RefStore,
                                 backing: Result<Option<ObjectId>>)
    requires Coherent(s, project, store) && store.readable
    requires Find(store.refs, revstr).Some? ==> backing == Ok(ObjectIdOf(Find(store.refs, revstr).value))
    ensures ResolveStep(s, project, revstr, store, backing).result == backing
  {
    if IsCacheableReference(revstr) {
      GetAnswersView(s, project, revstr, store);
      CoherentIffView(s, project, store);
      assert View(s, project, store, revstr) == Find(store.refs, revstr);
    }
  }

  class CachedRefRepository {
    const project: string
    /** The wrapped repository, by identity. */
    const repo: nat
    const refDb: CachedRefDatabase.CachedRefDatabase

    /** The ref database is created for this project over `cache`. */
    constructor(cache: RefDatabaseCacheImpl.Cache, project: string, repo: nat)
      ensures this.project == project && this.repo == repo
      ensures fresh(refDb) && refDb.cache == cache && Valid()
    {
      this.project := project;
      this.repo := repo;
      this.refDb := new CachedRefDatabase.CachedRefDatabase(cache, project);
    }

    /** The ref database serves this repository's project. */
    predicate Valid()
    {
      refDb.project == project
    }

    /** getRefDatabase() */
    function GetRefDatabase(): (d: CachedRefDatabase.CachedRefDatabase)
      requires Valid()
      ensures d.project == project
    {
      refDb
    }

    /** resolve(revstr) */
    method Resolve(revstr: string, store: RefStore, backing: Result<Option<ObjectId>>)
      returns (r: Result<Option<ObjectId>>)
      requires Valid()
      modifies refDb.cache
      ensures Step(refDb.cache.State(), r) == ResolveStep(old(refDb.cache.State()), project, revstr, store, backing)
    {
      if IsCacheableReference(revstr) {
        var ref := refDb.ExactRef(revstr, store);
        if ref.Fail? {
          return Fail(ref.error);
        }
        if ref.value.Some? {
          return Ok(ObjectIdOf(ref.value.value));
        }
      }
      r := backing;
    }

    /** updateRef(ref) and updateRef(ref, detach) */
    method UpdateRef(name: string) returns (u: RefUpdateWithCacheUpdate.RefUpdateWithCacheUpdate)
      requires Valid()
      ensures fresh(u) && u.cache == refDb.cache && u.project == project && u.name == name
    {
      u := refDb.NewUpdate(name);
    }

    /** renameRef(fromRef, toRef); `message` is the reflog message the JGit
        rename sets on construction. */
    method RenameRef(fromRef: string, toRef: string, message: string)
      returns (r: RefRenameWithCacheUpdate.RefRenameWithCacheUpdate)
      requires Valid()
      ensures fresh(r) && r.cache == refDb.cache && r.project == project && r.src == fromRef && r.dst == toRef
    {
      r := refDb.NewRename(fromRef, toRef, message);
    }
  }

  /** CachingFactory: one repository wrapper per project name. */
  class CachingFactory {
    const cache: RefDatabaseCacheImpl.Cache
    var repos: map<string, CachedRefRepository>

    constructor(cache: RefDatabaseCacheImpl.Cache)
      ensures this.cache == cache && repos == map[] && Valid()
    {
      this.cache := cache;
      repos := map[];
    }

    /** Every wrapper serves the project it is filed under, over the one
        cache. */
    predicate Valid()
      reads this
    {
      forall p :: p in repos ==> repos[p].project == p && repos[p].Valid() && repos[p].refDb.cache == cache
    }

    /** create(projectName, repo): the first wrapper made for a project name
        is returned by every later call, whatever repository they pass. */
    method Create(projectName: string, repo: nat) returns (r: CachedRefRepository)
      requires Valid()
      modifies this
      ensures Valid()
      ensures r.project == projectName && r.Valid() && r.refDb.cache == cache
      ensures projectName in old(repos) ==> r == old(repos)[projectName] && repos == old(repos)
      ensures projectName !in old(repos) ==> fresh(r) && r.repo == repo && repos == old(repos)[projectName := r]
    {
      if projectName in repos {
        r := repos[projectName];
      } else {
        r := new CachedRefRepository(cache, projectName, repo);
        repos := repos[projectName := r];
      }
    }
  }
}
