/** The backing JGit RefDatabase that the cache sits in front of, reduced to
    the reads the cache performs. Its content is the list of refs that
    getRefs() returns; `readable` false stands for a store whose every read
    fails with an IOException. */
module RefStore {
  import opened Refs

  datatype RefStore = RefStore(refs: seq<Ref>, readable: bool)

  /** A ref database holds at most one ref per name. */
  predicate UniqueNames(refs: seq<Ref>)
  {
    forall i, j :: 0 <= i < j < |refs| ==> refs[i].name != refs[j].name
  }

  /** The ref called `name`, searching from the end of the list. */
  function Find(refs: seq<Ref>, name: string): (r: Option<Ref>)
    ensures r.Some? ==> r.value in refs && r.value.name == name
    ensures r.None? ==> forall x :: x in refs ==> x.name != name
  {
    if refs == [] then None
    else if refs[|refs| - 1].name == name then Some(refs[|refs| - 1])
    else Find(refs[..|refs| - 1], name)
  }

  /** Two stores hold the same ref under every name outside `names`. */
  ghost predicate AgreeOutside(a: RefStore, b: RefStore, names: set<string>)
  {
    forall n :: n !in names ==> Find(a.refs, n) == Find(b.refs, n)
  }

  /** Each listed ref is what Find returns for its name. */
  lemma {:induction false} FindListed(refs: seq<Ref>, r: Ref)
    requires UniqueNames(refs) && r in refs
    ensures Find(refs, r.name) == Some(r)
  {
    var last := refs[|refs| - 1];
    if last != r {
      var front := refs[..|refs| - 1];
      assert r in front by {
        var k :| 0 <= k < |refs| && refs[k] == r;
        assert k < |refs| - 1;
        assert front[k] == r;
      }
      var k :| 0 <= k < |front| && front[k] == r;
      assert refs[k] == r && last == refs[|refs| - 1];
      FindListed(front, r);
    }
  }

  /** RefDatabase.exactRef(name) */
  function ExactRef(store: RefStore, name: string): Result<Option<Ref>>
  {
    if store.readable then Ok(Find(store.refs, name)) else Fail(IOException)
  }

  /** RefDatabase.getRefs() */
  function GetRefs(store: RefStore): Result<seq<Ref>>
  {
    if store.readable then Ok(store.refs) else Fail(IOException)
  }

  /** The refs of a list whose name starts with `prefix`, in list order. */
  function WithPrefix(refs: seq<Ref>, prefix: string): (r: seq<Ref>)
    ensures forall x :: x in r <==> x in refs && StartsWith(x.name, prefix)
    ensures |r| <= |refs|
  {
    if refs == [] then []
    else (if StartsWith(refs[0].name, prefix) then [refs[0]] else []) + WithPrefix(refs[1..], prefix)
  }

  /** RefDatabase.getRefsByPrefix(prefix) */
  function GetRefsByPrefix(store: RefStore, prefix: string): Result<seq<Ref>>
  {
    if store.readable then Ok(WithPrefix(store.refs, prefix)) else Fail(IOException)
  }

  /** The per-prefix listings of `prefixes`, concatenated in order. */
  function WithPrefixes(refs: seq<Ref>, prefixes: seq<string>): (r: seq<Ref>)
    ensures forall x :: x in r <==> x in refs && exists p :: p in prefixes && StartsWith(x.name, p)
  {
    if prefixes == [] then []
    else WithPrefix(refs, prefixes[0]) + WithPrefixes(refs, prefixes[1..])
  }

  /** RefDatabase.getRefsByPrefix(String...): one listing per prefix, in order. */
  function GetRefsByPrefixes(store: RefStore, prefixes: seq<string>): Result<seq<Ref>>
  {
    if store.readable then Ok(WithPrefixes(store.refs, prefixes)) else Fail(IOException)
  }

  /** The refs whose object id is `id`. */
  function Tips(refs: seq<Ref>, id: ObjectId): set<Ref>
  {
    set r | r in refs && ObjectIdOf(r) == Some(id)
  }

  /** RefDatabase.getTipsWithSha1(id) */
  function GetTipsWithSha1(store: RefStore, id: ObjectId): Result<set<Ref>>
  {
    if store.readable then Ok(Tips(store.refs, id)) else Fail(IOException)
  }

  /** RefDatabase.hasRefs() */
  function HasRefs(store: RefStore): Result<bool>
  {
    if store.readable then Ok(|store.refs| > 0) else Fail(IOException)
  }

  /** The name-to-ref map of the requested names that exist. */
  function Found(refs: seq<Ref>, names: seq<string>): (m: map<string, Ref>)
    ensures forall n :: n in m <==> n in names && Find(refs, n).Some?
    ensures forall n :: n in m ==> Find(refs, n) == Some(m[n])
  {
    if names == [] then map[]
    else
      var rest := Found(refs, names[1..]);
      match Find(refs, names[0])
      case Some(r) => rest[names[0] := r]
      case None => rest
  }

  /** RefDatabase.exactRef(String...) */
  function ExactRefs(store: RefStore, names: seq<string>): Result<map<string, Ref>>
  {
    if store.readable then Ok(Found(store.refs, names)) else Fail(IOException)
  }

  /** The ref of the first requested name that exists. */
  function First(refs: seq<Ref>, names: seq<string>): (r: Option<Ref>)
    ensures r.Some? ==> exists n :: n in names && Find(refs, n) == r
    ensures r.None? ==> forall n :: n in names ==> Find(refs, n).None?
  {
    if names == [] then None
    else if Find(refs, names[0]).Some? then Find(refs, names[0])
    else First(refs, names[1..])
  }

  /** The answer belongs to the earliest requested name that exists. */
  lemma {:induction false} FirstIsEarliest(refs: seq<Ref>, names: seq<string>, i: nat)
    requires i < |names| && Find(refs, names[i]).Some?
    requires forall j :: 0 <= j < i ==> Find(refs, names[j]).None?
    ensures First(refs, names) == Find(refs, names[i])
  {
    if i > 0 {
      FirstIsEarliest(refs, names[1..], i - 1);
    }
  }

  /** RefDatabase.firstExactRef(String...) */
  function FirstExactRef(store: RefStore, names: seq<string>): Result<Option<Ref>>
  {
    if store.readable then Ok(First(store.refs, names)) else Fail(IOException)
  }
}
