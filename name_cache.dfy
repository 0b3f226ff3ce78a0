/** RefByNameCacheImpl: the read-through name cache keyed by
    "identifier$ref" whose values are Optional refs (a miss is cached as
    empty), together with the (project, object id) buckets of the current
    generation. The older generation's RefByNameCacheImpl has the same
    computeIfAbsent, evict and all, and is modelled by the same class. */
module RefByNameCache {
  import opened Refs

  /** RefsByObjectIdKey(projectNameKey, objectId); the object id of an
      unborn ref is null. */
  datatype ObjectIdKey = ObjectIdKey(project: string, id: Option<ObjectId>)

  /** The present values stored under keys starting with identifier + "$". */
  function Present(entries: map<string, Option<Ref>>, identifier: string): set<Ref>
  {
    set k | k in entries && entries[k].Some? && StartsWith(k, KeyPrefix(identifier)) :: entries[k].value
  }

  /** Some present value is stored under a key of `identifier`. */
  predicate AnyPresent(entries: map<string, Option<Ref>>, identifier: string)
  {
    exists k :: k in entries && entries[k].Some? && StartsWith(k, KeyPrefix(identifier))
  }

  /** Present collects exactly the refs cached under the names of
      `identifier`. */
  lemma PresentByName(entries: map<string, Option<Ref>>, identifier: string)
    ensures forall r :: r in Present(entries, identifier) <==>
      exists name :: UniqueName(identifier, name) in entries && entries[UniqueName(identifier, name)] == Some(r)
  {
    forall r ensures r in Present(entries, identifier) <==>
      exists name :: UniqueName(identifier, name) in entries && entries[UniqueName(identifier, name)] == Some(r)
    {
      if r in Present(entries, identifier) {
        var k :| k in entries && entries[k].Some? && StartsWith(k, KeyPrefix(identifier)) && entries[k].value == r;
        KeyPrefixOfUniqueName(identifier, k);
        var name := k[|identifier| + 1..];
        assert UniqueName(identifier, name) == k;
      }
      if exists name :: UniqueName(identifier, name) in entries && entries[UniqueName(identifier, name)] == Some(r) {
        var name :| UniqueName(identifier, name) in entries && entries[UniqueName(identifier, name)] == Some(r);
        var k := UniqueName(identifier, name);
        KeyPrefixOfUniqueName(identifier, k);
        assert k[|identifier| + 1..] == name;
        assert entries[k].value == r;
      }
    }
  }

  /** A present entry exists exactly when Present is non-empty. */
  lemma AnyPresentIffNonEmpty(entries: map<string, Option<Ref>>, identifier: string)
    ensures AnyPresent(entries, identifier) <==> Present(entries, identifier) != {}
  {
    if AnyPresent(entries, identifier) {
      var k :| k in entries && entries[k].Some? && StartsWith(k, KeyPrefix(identifier));
      assert entries[k].value in Present(entries, identifier);
    }
  }

  /** With '$'-free identifiers, an entry of one identifier never shows in
      the listing of another. */
  lemma PresentIgnoresOtherIdentifiers(entries: map<string, Option<Ref>>, identifier: string, other: string, name: string, v: Option<Ref>)
    requires Separator !in identifier && Separator !in other && identifier != other
    ensures Present(entries[UniqueName(other, name) := v], identifier) == Present(entries, identifier)
  {
    NoCrossIdentifierPrefix(identifier, other, name);
  }

  class NameCache {
    /** The ref_by_name cache. */
    var refByName: map<string, Option<Ref>>
    /** The refs_by_object_id cache. */
    var refsByObjectId: map<ObjectIdKey, set<Ref>>

    constructor()
      ensures refByName == map[] && refsByObjectId == map[]
    {
      refByName := map[];
      refsByObjectId := map[];
    }

    /** computeIfAbsent(identifier, ref, loader): `loader` is what the
        loader would produce; `loaded` tells whether it was run. It runs only
        for an absent key, and its value, a miss included, is stored. A
        checked failure is wrapped in an ExecutionException, caught, and
        returns null with nothing stored; an unchecked one propagates. */
    method ComputeIfAbsent(identifier: string, name: string, loader: Result<Option<Ref>>)
      returns (r: Result<Option<Ref>>, loaded: bool)
      modifies this
      ensures var key := UniqueName(identifier, name);
        && (loaded <==> key !in old(refByName))
        && (!loaded ==> r == Ok(old(refByName)[key]) && refByName == old(refByName))
        && (loaded && loader.Ok? ==> r == loader && refByName == old(refByName)[key := loader.value])
        && (loaded && loader.Fail? ==>
              refByName == old(refByName) && r == if Checked(loader.error) then Ok(None) else Fail(loader.error))
      ensures refsByObjectId == old(refsByObjectId)
    {
      var key := UniqueName(identifier, name);
      if key in refByName {
        return Ok(refByName[key]), false;
      }
      loaded := true;
      match loader {
        case Ok(v) =>
          refByName := refByName[key := v];
          r := Ok(v);
        case Fail(e) =>
          r := if Checked(e) then Ok(None) else Fail(e);
      }
    }

    /** evict(identifier, ref): invalidate exactly that key. */
    method Evict(identifier: string, name: string)
      modifies this
      ensures refByName == old(refByName) - {UniqueName(identifier, name)}
      ensures refsByObjectId == old(refsByObjectId)
    {
      refByName := refByName - {UniqueName(identifier, name)};
    }

    /** all(identifier): the present values of the identifier's keys. */
    function All(identifier: string): (refs: set<Ref>)
      reads this
      ensures forall r :: r in refs <==>
        exists name :: UniqueName(identifier, name) in refByName && refByName[UniqueName(identifier, name)] == Some(r)
    {
      PresentByName(refByName, identifier);
      Present(refByName, identifier)
    }

    /** hasRefs(identifier): some key of the identifier holds a present value. */
    function HasRefs(identifier: string): (b: bool)
      reads this
      ensures b <==> All(identifier) != {}
    {
      AnyPresentIffNonEmpty(refByName, identifier);
      AnyPresent(refByName, identifier)
    }

    /** updateRefsByObjectIdCacheIfNeeded(projectName, ref): add the ref to
        the existing bucket of (project, its object id). With no bucket the
        fallback empty set rejects add, and a null ref throws; both are
        caught, leaving the caches as they were. The stored bucket is taken
        to be a mutable set: an immutable one (a `Set.of`) would reject add
        in the same way, and the caches would again be left as they were. */
    method UpdateRefsByObjectIdCacheIfNeeded(projectName: string, ref: Option<Ref>)
      modifies this
      ensures refByName == old(refByName)
      ensures ref.Some? && ObjectIdKey(projectName, ObjectIdOf(ref.value)) in old(refsByObjectId) ==>
        var key := ObjectIdKey(projectName, ObjectIdOf(ref.value));
        refsByObjectId == old(refsByObjectId)[key := old(refsByObjectId)[key] + {ref.value}]
      ensures ref.None? || ObjectIdKey(projectName, ObjectIdOf(ref.value)) !in old(refsByObjectId) ==>
        refsByObjectId == old(refsByObjectId)
    {
      if ref.None? {
        return;
      }
      var key := ObjectIdKey(projectName, ObjectIdOf(ref.value));
      if key !in refsByObjectId {
        return;
      }
      var current := refsByObjectId[key];
      if ref.value !in current {
        refsByObjectId := refsByObjectId[key := current + {ref.value}];
      } else {
        assert current + {ref.value} == current;
        assert refsByObjectId[key := current] == refsByObjectId;
      }
    }

    /** getRefsForObjectId(projectName, objectId, loader): get-or-load of
        the (project, objectId) bucket; a checked loader failure is thrown
        as ExecutionException, an unchecked one as it is. */
    method GetRefsForObjectId(projectName: string, objectId: ObjectId, loader: Result<set<Ref>>)
      returns (r: Result<set<Ref>>, loaded: bool)
      modifies this
      ensures var key := ObjectIdKey(projectName, Some(objectId));
        && (loaded <==> key !in old(refsByObjectId))
        && (!loaded ==> r == Ok(old(refsByObjectId)[key]) && refsByObjectId == old(refsByObjectId))
        && (loaded && loader.Ok? ==> r == loader && refsByObjectId == old(refsByObjectId)[key := loader.value])
        && (loaded && loader.Fail? ==>
              refsByObjectId == old(refsByObjectId) && r == Fail(if Checked(loader.error) then ExecutionException else loader.error))
      ensures refByName == old(refByName)
    {
      var key := ObjectIdKey(projectName, Some(objectId));
      if key in refsByObjectId {
        return Ok(refsByObjectId[key]), false;
      }
      loaded := true;
      match loader {
        case Ok(s) =>
          refsByObjectId := refsByObjectId[key := s];
          r := Ok(s);
        case Fail(e) =>
          r := Fail(if Checked(e) then ExecutionException else e);
      }
    }
  }
}
