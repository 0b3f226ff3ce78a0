/** JGit's TernarySearchTree<Ref> as the cache uses it: a map from ref name
    to ref, traversed in ascending name order. The tree is represented by
    its in-order traversal, a list of refs strictly ascending by name; every
    entry is stored under its own ref's name (insert(ref.getName(), ref)). */
module PrefixTree {
  import opened Refs
  import opened Lex

  type Tree = seq<Ref>

  /** Names strictly ascend: the traversal order, one entry per name. */
  predicate Valid(t: Tree)
  {
    forall i, j :: 0 <= i < j < |t| ==> Less(t[i].name, t[j].name)
  }

  /** tree.get(name) / tree.contains(name) */
  function Lookup(t: Tree, name: string): (r: Option<Ref>)
    ensures r.Some? ==> r.value in t && r.value.name == name
    ensures r.None? ==> forall x :: x in t ==> x.name != name
  {
    if t == [] then None
    else if t[0].name == name then Some(t[0])
    else Lookup(t[1..], name)
  }

  /** tree.insert(ref.getName(), ref): insert, or replace the entry of that name. */
  function Insert(t: Tree, r: Ref): (u: Tree)
    ensures forall x :: x in u ==> x in t || x == r
  {
    if t == [] then [r]
    else if t[0].name == r.name then [r] + t[1..]
    else if Less(r.name, t[0].name) then [r] + t
    else [t[0]] + Insert(t[1..], r)
  }

  /** tree.delete(name) */
  function Delete(t: Tree, name: string): (u: Tree)
    ensures forall x :: x in u <==> x in t && x.name != name
  {
    if t == [] then []
    else if t[0].name == name then Delete(t[1..], name)
    else [t[0]] + Delete(t[1..], name)
  }

  /** tree.getValuesWithPrefix(prefix), in traversal order. */
  function ValuesWithPrefix(t: Tree, prefix: string): (u: seq<Ref>)
    ensures forall x :: x in u <==> x in t && StartsWith(x.name, prefix)
  {
    if t == [] then []
    else (if StartsWith(t[0].name, prefix) then [t[0]] else []) + ValuesWithPrefix(t[1..], prefix)
  }

  /** The prefix queries of `prefixes`, concatenated in order. */
  function ValuesWithPrefixes(t: Tree, prefixes: seq<string>): (u: seq<Ref>)
    ensures forall x :: x in u <==> x in t && exists p :: p in prefixes && StartsWith(x.name, p)
  {
    if prefixes == [] then []
    else ValuesWithPrefix(t, prefixes[0]) + ValuesWithPrefixes(t, prefixes[1..])
  }

  /** tree.getAllValues(), in traversal order. */
  function AllValues(t: Tree): seq<Ref>
  {
    t
  }

  // ---------------------------------------------------------------------
  // The tree behaves as a map from name to ref
  // ---------------------------------------------------------------------

  lemma {:induction false} LookupInsert(t: Tree, r: Ref, name: string)
    ensures Lookup(Insert(t, r), name) == if name == r.name then Some(r) else Lookup(t, name)
  {
    if t != [] && t[0].name != r.name && !Less(r.name, t[0].name) {
      LookupInsert(t[1..], r, name);
      assert Insert(t, r)[1..] == Insert(t[1..], r);
    }
  }

  lemma {:induction false} LookupDelete(t: Tree, name: string, other: string)
    ensures Lookup(Delete(t, name), other) == if other == name then None else Lookup(t, other)
  {
    if t != [] {
      LookupDelete(t[1..], name, other);
      if t[0].name != name {
        assert Delete(t, name)[1..] == Delete(t[1..], name);
      }
    }
  }

  /** In a valid tree every entry is found under its own name. */
  lemma {:induction false} LookupMember(t: Tree, r: Ref)
    requires Valid(t) && r in t
    ensures Lookup(t, r.name) == Some(r)
  {
    if t[0] != r {
      var k :| 0 <= k < |t| && t[k] == r;
      assert k > 0 && Less(t[0].name, t[k].name);
      LessIrreflexive(r.name);
      assert r in t[1..] by { assert t[1..][k - 1] == r; }
      LookupMember(t[1..], r);
    }
  }

  /** Membership in a valid tree is exactly "Lookup finds it". */
  lemma MemberIffLookup(t: Tree, r: Ref)
    requires Valid(t)
    ensures r in t <==> Lookup(t, r.name) == Some(r)
  {
    if r in t {
      LookupMember(t, r);
    }
  }

  lemma {:induction false} InsertValid(t: Tree, r: Ref)
    requires Valid(t)
    ensures Valid(Insert(t, r))
  {
    if t == [] {
    } else if t[0].name == r.name {
    } else if Less(r.name, t[0].name) {
      var u := [r] + t;
      forall i, j | 0 <= i < j < |u| ensures Less(u[i].name, u[j].name) {
        if i == 0 && j > 1 {
          LessTransitive(r.name, t[0].name, t[j - 1].name);
        }
      }
    } else {
      LessTotal(r.name, t[0].name);
      InsertValid(t[1..], r);
      var v := Insert(t[1..], r);
      var u := [t[0]] + v;
      forall j | 0 <= j < |v| ensures Less(t[0].name, v[j].name) {
        assert v[j] in v;
        if v[j] != r {
          var k :| 0 <= k < |t[1..]| && t[1..][k] == v[j];
          assert t[k + 1] == v[j];
        }
      }
      forall i, j | 0 <= i < j < |u| ensures Less(u[i].name, u[j].name) {
        if i > 0 {
          assert u[i] == v[i - 1] && u[j] == v[j - 1];
        } else {
          assert u[j] == v[j - 1];
        }
      }
    }
  }

  lemma {:induction false} DeleteValid(t: Tree, name: string)
    requires Valid(t)
    ensures Valid(Delete(t, name))
  {
    if t != [] {
      DeleteValid(t[1..], name);
      if t[0].name != name {
        var v := Delete(t[1..], name);
        var u := [t[0]] + v;
        forall j | 0 <= j < |v| ensures Less(t[0].name, v[j].name) {
          assert v[j] in t[1..];
          var k :| 0 <= k < |t[1..]| && t[1..][k] == v[j];
          assert t[k + 1] == v[j];
        }
        forall i, j | 0 <= i < j < |u| ensures Less(u[i].name, u[j].name) {
          if i > 0 {
            assert u[i] == v[i - 1] && u[j] == v[j - 1];
          } else {
            assert u[j] == v[j - 1];
          }
        }
      }
    }
  }

  /** A prefix query of a valid tree is itself ascending by name. */
  lemma {:induction false} ValuesWithPrefixAscending(t: Tree, prefix: string)
    requires Valid(t)
    ensures Valid(ValuesWithPrefix(t, prefix))
  {
    if t != [] {
      ValuesWithPrefixAscending(t[1..], prefix);
      var v := ValuesWithPrefix(t[1..], prefix);
      if StartsWith(t[0].name, prefix) {
        var u := [t[0]] + v;
        forall j | 0 <= j < |v| ensures Less(t[0].name, v[j].name) {
          assert v[j] in t[1..];
          var k :| 0 <= k < |t[1..]| && t[1..][k] == v[j];
          assert t[k + 1] == v[j];
        }
        forall i, j | 0 <= i < j < |u| ensures Less(u[i].name, u[j].name) {
          if i > 0 {
            assert u[i] == v[i - 1] && u[j] == v[j - 1];
          } else {
            assert u[j] == v[j - 1];
          }
        }
      }
    }
  }
}
