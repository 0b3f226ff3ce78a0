/** The two ways the cached ref database reduces a list of prefixes before
    querying: the sorted "drop a prefix covered by the last kept one" pass of
    allByPrefixes, and the null/blank/duplicate filter of
    getRefsByPrefix(String...). */
module PrefixPolicies {
  import opened Refs
  import opened Lex
  import PrefixTree

  // ---------------------------------------------------------------------
  // allByPrefixes: isDuplicated over the sorted prefixes
  // ---------------------------------------------------------------------

  /** isDuplicated as written: walking the sorted prefixes with the last kept
      prefix `last`, a prefix is dropped when it contains `last` anywhere. */
  function KeptByContains(sorted: seq<string>, last: Option<string>): (kept: seq<string>)
    ensures forall p :: p in kept ==> p in sorted
    ensures last.None? && sorted != [] ==> kept != [] && kept[0] == sorted[0]
  {
    if sorted == [] then []
    else if last.Some? && Contains(sorted[0], last.value) then KeptByContains(sorted[1..], last)
    else [sorted[0]] + KeptByContains(sorted[1..], Some(sorted[0]))
  }

  /** The as-written pass keeps a prefix exactly when it does not contain the
      prefix kept before it, and every dropped prefix contains a kept one. */
  lemma {:induction false} KeptByContainsCharacterised(sorted: seq<string>, last: Option<string>)
    ensures var kept := KeptByContains(sorted, last);
      && (last.Some? && kept != [] ==> !Contains(kept[0], last.value))
      && (forall i :: 0 < i < |kept| ==> !Contains(kept[i], kept[i - 1]))
      && (forall p :: p in sorted ==>
            p in kept || (exists q :: q in kept && Contains(p, q)) || (last.Some? && Contains(p, last.value)))
  {
    if sorted != [] {
      var kept := KeptByContains(sorted, last);
      if last.Some? && Contains(sorted[0], last.value) {
        KeptByContainsCharacterised(sorted[1..], last);
      } else {
        KeptByContainsCharacterised(sorted[1..], Some(sorted[0]));
        var rest := KeptByContains(sorted[1..], Some(sorted[0]));
        assert kept == [sorted[0]] + rest;
        forall i | 0 < i < |kept| ensures !Contains(kept[i], kept[i - 1]) {
          assert kept[i] == rest[i - 1];
          if i > 1 {
            assert kept[i - 1] == rest[i - 2];
          }
        }
        forall p | p in sorted
          ensures p in kept || (exists q :: q in kept && Contains(p, q)) || (last.Some? && Contains(p, last.value))
        {
          if p == sorted[0] {
          } else if p in rest {
          } else if exists q :: q in rest && Contains(p, q) {
            var q :| q in rest && Contains(p, q);
            assert q in kept;
          } else {
            assert p in sorted[1..];
            assert Contains(p, sorted[0]) && sorted[0] in kept;
          }
        }
      }
    }
  }

  /** The pass isDuplicated evidently intends: drop a prefix that extends the
      last kept one, whose matches the kept prefix already covers. */
  function KeptByStartsWith(sorted: seq<string>, last: Option<string>): (kept: seq<string>)
    ensures forall p :: p in kept ==> p in sorted
    ensures last.None? && sorted != [] ==> kept != [] && kept[0] == sorted[0]
  {
    if sorted == [] then []
    else if last.Some? && StartsWith(sorted[0], last.value) then KeptByStartsWith(sorted[1..], last)
    else [sorted[0]] + KeptByStartsWith(sorted[1..], Some(sorted[0]))
  }

  lemma StartsWithTransitive(s: string, p: string, q: string)
    requires StartsWith(s, p) && StartsWith(p, q)
    ensures StartsWith(s, q)
  {
    assert s[..|q|] == s[..|p|][..|q|];
  }

  /** Every prefix the corrected pass drops extends a kept prefix (or the
      incoming `last`). */
  lemma {:induction false} KeptByStartsWithCovers(sorted: seq<string>, last: Option<string>)
    ensures forall p :: p in sorted ==>
      p in KeptByStartsWith(sorted, last)
      || (exists q :: q in KeptByStartsWith(sorted, last) && StartsWith(p, q))
      || (last.Some? && StartsWith(p, last.value))
  {
    if sorted != [] {
      var kept := KeptByStartsWith(sorted, last);
      if last.Some? && StartsWith(sorted[0], last.value) {
        KeptByStartsWithCovers(sorted[1..], last);
      } else {
        KeptByStartsWithCovers(sorted[1..], Some(sorted[0]));
        var rest := KeptByStartsWith(sorted[1..], Some(sorted[0]));
        assert kept == [sorted[0]] + rest;
        forall p | p in sorted
          ensures p in kept || (exists q :: q in kept && StartsWith(p, q)) || (last.Some? && StartsWith(p, last.value))
        {
          if p == sorted[0] {
          } else if p in rest {
          } else if exists q :: q in rest && StartsWith(p, q) {
            var q :| q in rest && StartsWith(p, q);
            assert q in kept;
          } else {
            assert p in sorted[1..];
            assert StartsWith(p, sorted[0]) && sorted[0] in kept;
          }
        }
      }
    }
  }

  /** The prefixes allByPrefixes queries, after sorting, with the corrected pass. */
  function QueriedPrefixes(prefixes: seq<string>): seq<string>
  {
    KeptByStartsWith(Sort(prefixes), None)
  }

  /** The prefixes allByPrefixes queries as written. */
  function QueriedPrefixesAsWritten(prefixes: seq<string>): seq<string>
  {
    KeptByContains(Sort(prefixes), None)
  }

  /** With the corrected pass, allByPrefixes returns exactly the tree's refs
      that match at least one of the requested prefixes. */
  lemma AllByPrefixesComplete(t: PrefixTree.Tree, prefixes: seq<string>, x: Ref)
    ensures x in PrefixTree.ValuesWithPrefixes(t, QueriedPrefixes(prefixes))
      <==> x in t && exists p :: p in prefixes && StartsWith(x.name, p)
  {
    var sorted := Sort(prefixes);
    var kept := QueriedPrefixes(prefixes);
    SortSortsAndPermutes(prefixes);
    KeptByStartsWithCovers(sorted, None);
    if x in t && exists p :: p in prefixes && StartsWith(x.name, p) {
      var p :| p in prefixes && StartsWith(x.name, p);
      assert p in multiset(sorted);
      assert p in sorted;
      if p !in kept {
        var q :| q in kept && StartsWith(p, q);
        StartsWithTransitive(x.name, p, q);
      }
    }
    if x in PrefixTree.ValuesWithPrefixes(t, kept) {
      var q :| q in kept && StartsWith(x.name, q);
      assert q in multiset(prefixes);
    }
  }

  /** As written, allByPrefixes returns only refs of the tree that match one
      of the requested prefixes. */
  lemma AllByPrefixesAsWrittenSound(t: PrefixTree.Tree, prefixes: seq<string>, x: Ref)
    requires x in PrefixTree.ValuesWithPrefixes(t, QueriedPrefixesAsWritten(prefixes))
    ensures x in t && exists p :: p in prefixes && StartsWith(x.name, p)
  {
    var kept := QueriedPrefixesAsWritten(prefixes);
    SortSortsAndPermutes(prefixes);
    var q :| q in kept && StartsWith(x.name, q);
    assert q in multiset(Sort(prefixes));
    assert q in multiset(prefixes);
  }

  /** As written, a ref under a requested prefix is still returned when that
      prefix contains no other requested prefix: only such prefixes can be
      dropped. */
  lemma AllByPrefixesAsWrittenKeeps(t: PrefixTree.Tree, prefixes: seq<string>, x: Ref, p: string)
    requires x in t && p in prefixes && StartsWith(x.name, p)
    requires forall q :: q in prefixes && q != p ==> !Contains(p, q)
    ensures x in PrefixTree.ValuesWithPrefixes(t, QueriedPrefixesAsWritten(prefixes))
  {
    var sorted := Sort(prefixes);
    var kept := QueriedPrefixesAsWritten(prefixes);
    SortSortsAndPermutes(prefixes);
    KeptByContainsCharacterised(sorted, None);
    assert p in multiset(sorted);
    assert p in sorted;
    assert p in kept || exists q :: q in kept && Contains(p, q);
    forall q | q in kept && q != p ensures !Contains(p, q) {
      assert q in multiset(sorted);
      assert q in prefixes;
    }
  }

  /** Strings that agree on their first k characters and differ at k are
      ordered by that character. */
  lemma {:induction false} LessAt(a: string, b: string, k: nat)
    requires k < |a| && k < |b| && a[..k] == b[..k] && a[k] < b[k]
    ensures Less(a, b)
  {
    if k > 0 {
      assert a[1..][..k - 1] == a[..k][1..] && b[1..][..k - 1] == b[..k][1..];
      LessAt(a[1..], b[1..], k - 1);
    }
  }

  lemma {:induction false} ContainsAt(s: string, k: nat, t: string)
    requires k <= |s| && StartsWith(s[k..], t)
    ensures Contains(s, t)
  {
    if k > 0 {
      assert s[1..][k - 1..] == s[k..];
      ContainsAt(s[1..], k - 1, t);
    }
  }

  lemma SortPair(a: string, b: string)
    requires Less(a, b)
    ensures Sort([a, b]) == [a, b]
  {
    assert [a, b][1..] == [b];
    assert Sort([b]) == [b];
  }

  /** Of two sorted prefixes where the second contains the first, the
      as-written pass keeps only the first. */
  lemma AsWrittenDropsContaining(a: string, b: string)
    requires Less(a, b) && Contains(b, a)
    ensures QueriedPrefixesAsWritten([a, b]) == [a]
  {
    SortPair(a, b);
    assert [a, b][1..] == [b] && [b][1..] == [];
    assert KeptByContains([b], Some(a)) == KeptByContains([], Some(a));
  }

  /** Of two sorted prefixes where the second does not extend the first, the
      corrected pass keeps both. */
  lemma CorrectedKeepsUnrelated(a: string, b: string)
    requires Less(a, b) && !StartsWith(b, a)
    ensures QueriedPrefixes([a, b]) == [a, b]
  {
    SortPair(a, b);
    assert [a, b][1..] == [b] && [b][1..] == [];
    assert KeptByStartsWith([b], Some(a)) == [b] + KeptByStartsWith([], Some(b));
  }

  /** A ref matching only the second of two such prefixes is lost as
      written and found by the corrected pass. */
  lemma AsWrittenLosesMatch(a: string, b: string, x: Ref)
    requires Less(a, b) && Contains(b, a) && !StartsWith(b, a)
    requires StartsWith(x.name, b) && !StartsWith(x.name, a)
    ensures x !in PrefixTree.ValuesWithPrefixes([x], QueriedPrefixesAsWritten([a, b]))
    ensures x in PrefixTree.ValuesWithPrefixes([x], QueriedPrefixes([a, b]))
  {
    AsWrittenDropsContaining(a, b);
    CorrectedKeepsUnrelated(a, b);
    assert b in [a, b];
  }

  /** As written, a prefix that merely contains the previous one is dropped
      although its matches are not covered: asking for refs/heads/ and
      refs/meta/refs/heads/ never returns refs/meta/refs/heads/x. */
  lemma AsWrittenLosesMatches(heads: string, nested: string, x: Ref)
    requires heads == "refs/heads/" && nested == "refs/meta/refs/heads/"
    requires x == Direct("refs/meta/refs/heads/x", None)
    ensures x !in PrefixTree.ValuesWithPrefixes([x], QueriedPrefixesAsWritten([heads, nested]))
    ensures x in PrefixTree.ValuesWithPrefixes([x], QueriedPrefixes([heads, nested]))
  {
    assert heads[..5] == nested[..5];
    LessAt(heads, nested, 5);
    assert nested[10..][..|heads|] == heads;
    ContainsAt(nested, 10, heads);
    assert !StartsWith(nested, heads) by { assert nested[5] != heads[5]; }
    assert !StartsWith(x.name, heads) by { assert x.name[5] != heads[5]; }
    assert x.name[..|nested|] == nested;
    AsWrittenLosesMatch(heads, nested, x);
  }

  // ---------------------------------------------------------------------
  // getRefsByPrefix(String...): LinkedHashSet of the usable prefixes
  // ---------------------------------------------------------------------

  /** A prefix argument a caller may pass: a string or null. */
  predicate Usable(p: Option<string>)
  {
    p.Some? && !IsBlank(p.value)
  }

  /** The non-null, non-blank prefixes in order of first occurrence, each
      once: what the LinkedHashSet holds after the insertion loop. */
  function UniqueUsable(prefixes: seq<Option<string>>): (u: seq<string>)
    ensures forall i, j :: 0 <= i < j < |u| ==> u[i] != u[j]
    ensures forall p :: p in u <==> Some(p) in prefixes && !IsBlank(p)
  {
    if prefixes == [] then []
    else
      var u := UniqueUsable(prefixes[..|prefixes| - 1]);
      var p := prefixes[|prefixes| - 1];
      assert prefixes == prefixes[..|prefixes| - 1] + [p];
      if Usable(p) && p.value !in u then u + [p.value] else u
  }

  /** The first position at which `p` is passed. */
  function FirstIndex(prefixes: seq<Option<string>>, p: string): (i: nat)
    requires Some(p) in prefixes
    ensures i < |prefixes| && prefixes[i] == Some(p)
    ensures forall j :: 0 <= j < i ==> prefixes[j] != Some(p)
  {
    if prefixes[0] == Some(p) then 0 else 1 + FirstIndex(prefixes[1..], p)
  }

  /** Usable prefixes keep the order of their first occurrences. */
  lemma {:induction false} UniqueUsableOrder(prefixes: seq<Option<string>>, i: nat, j: nat)
    requires i < j < |UniqueUsable(prefixes)|
    ensures FirstIndex(prefixes, UniqueUsable(prefixes)[i]) < FirstIndex(prefixes, UniqueUsable(prefixes)[j])
  {
    var n := |prefixes| - 1;
    var front := prefixes[..n];
    var u := UniqueUsable(front);
    var a := UniqueUsable(prefixes)[i];
    var b := UniqueUsable(prefixes)[j];
    assert prefixes == front + [prefixes[n]];
    assert i < |u| && a == u[i];
    assert Some(a) in front;
    FirstIndexPrefix(front, prefixes[n], a);
    if j < |u| {
      assert Some(b) in front;
      FirstIndexPrefix(front, prefixes[n], b);
      UniqueUsableOrder(front, i, j);
    } else {
      assert b == prefixes[n].value && b !in u;
      assert Some(b) !in front;
      assert FirstIndex(prefixes, b) == n;
    }
  }

  lemma {:induction false} FirstIndexPrefix(front: seq<Option<string>>, last: Option<string>, p: string)
    requires Some(p) in front
    ensures FirstIndex(front + [last], p) == FirstIndex(front, p)
  {
    if front[0] != Some(p) {
      assert (front + [last])[1..] == front[1..] + [last];
      FirstIndexPrefix(front[1..], last, p);
    }
  }
}
