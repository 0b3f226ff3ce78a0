# cached-refdb: a read-through, write-invalidated ref cache

This project models the Gerrit plugin that puts a cache in front of a
repository's JGit `RefDatabase`. It proves properties of that model. The
plugin has two generations, and both are modelled:

- **The current generation** (`com.gerritforge`).
  - `RefDatabaseCacheImpl` keeps, per project, a prefix tree of that
    project's refs. It also keeps a per-`project$sha` cache of the refs that
    point at an object.
  - `RefByNameCacheImpl` keeps a name cache keyed by `identifier$ref`, with
    its own by-object-id index.
  - `CachedRefDatabase` answers reads from the prefix tree.
  - `RefUpdateWithCacheUpdate`, `BatchRefUpdateWithCacheUpdate` and
    `RefRenameWithCacheUpdate` wrap the real writers. After a successful
    write they refresh or evict the affected cache entries.
  - `CachedRefRepository` decides which revision strings may be answered
    from the cache.
  - `PassThroughRefDatabase` is the cache that caches nothing.
- **The older generation** (`com.googlesource`).
  - `CachedRefDatabase` memoises `exactRef` in a name cache and keeps a
    lazily built multimap from object id to refs.
  - The batch updater evicts each updated name and reads it back through
    the database.
  - There are three name caches: `RefByNameCacheImpl`, the per-request
    `PerThreadRefByNameCache`, and `NoOpRefByNameCache`.

The backing ref database is a value, `RefStore(refs, readable)`. An
unreadable store stands for any `IOException` of the delegate. What the
delegate writer reports (a `RefUpdate.Result`, the commands' results) and
what a loader produces are parameters. JGit's `TernarySearchTree` is a
sequence of refs kept strictly sorted by name (`PrefixTree`). Java
exceptions are values of `Result`. A Guava `ExecutionException` is modelled
by its name, and an exception that Guava would wrap in
`UncheckedExecutionException` is modelled as its cause.

The main properties proved:

- **Coherence.** When the cache agrees with the store before a write, it
  agrees with the store after the write, provided the write changed the
  store only at the names it wrote: `UpdateRef`, `Evict`, a ref update and
  a batch. That proviso fails when a symbolic ref such as `HEAD` points at
  a written name, because the cache keeps the symbolic ref's old target;
  the corrected `UpdateRefCorrected` also re-reads such refs and restores
  coherence after any write of one name (see "## Findings"). For a rename
  it holds for the corrected `RenameCorrected` only: the rename as written
  can leave the destination out of the cache (see "## Findings").
- **Read-through.** A cached read answers what the store holds.
- **Listing.** A cached listing by one prefix returns exactly the store's
  refs under it, and so does the database's `getRefsByPrefix(String...)`,
  which lists one prefix at a time. The cache's own listing by several
  prefixes returns only such refs, and every ref under a prefix that
  contains no other requested prefix; it returns all of them only with the
  corrected duplicate filter. That defect is latent: no modelled caller
  passes several prefixes to it (see "## Findings").
- **Memoisation.** The name caches keep their first answer, including a
  cached failure in the per-thread cache.
- **Findings.** Six places where the code departs from what it evidently
  intends, each shown on a concrete input (see "## Findings").

## Model

| member | source | states |
|---|---|---|
| `Refs.UniqueName` | src/main/java/com/gerritforge/gerrit/plugins/cachedrefdb/RefByNameCacheImpl.java:126-128 | the key is the identifier, one `$`, then the ref name: its length is the sum plus one and the separator sits right after the identifier |
| `Refs.KeyPrefixOfUniqueName` | src/main/java/com/gerritforge/gerrit/plugins/cachedrefdb/RefByNameCacheImpl.java:126-132 | a key starts with `prefix(identifier)` exactly when it is `identifier$ref` for some ref name |
| `Refs.UniqueNameInjective` | src/main/java/com/gerritforge/gerrit/plugins/cachedrefdb/RefByNameCacheImpl.java:126-128 | for identifiers without `$`, two keys are equal iff identifier and ref name both are |
| `Refs.NoCrossIdentifierPrefix` | src/main/java/com/gerritforge/gerrit/plugins/cachedrefdb/RefByNameCacheImpl.java:82-90 | a key of another `$`-free identifier never starts with this identifier's prefix, so `all` never lists another project's refs |
| `Refs.UniqueNameCollides` | src/main/java/com/googlesource/gerrit/plugins/cachedrefdb/RefByNameCacheImpl.java:80-82 | with a `$` inside the identifier, two different (identifier, ref) pairs share one key |
| `RefStore.Found` | src/main/java/com/gerritforge/gerrit/plugins/cachedrefdb/CachedRefDatabase.java:137-140 | the multi-name lookup holds exactly the requested names the store has, each mapped to the store's ref |
| `RefStore.First` | src/main/java/com/gerritforge/gerrit/plugins/cachedrefdb/CachedRefDatabase.java:142-145 | the answer is the store's ref for some requested name; none only when no requested name exists |
| `RefStore.FirstIsEarliest` | src/main/java/com/gerritforge/gerrit/plugins/cachedrefdb/CachedRefDatabase.java:142-145 | the answer is the ref of the first requested name that exists |
| `PrefixTree.Lookup` | src/main/java/com/gerritforge/gerrit/plugins/cachedrefdb/RefDatabaseCacheImpl.java:106-114 | the tree's `get` returns a ref of the tree with that name, and null only when the tree has none |
| `PrefixTree.MemberIffLookup` | src/main/java/com/gerritforge/gerrit/plugins/cachedrefdb/RefDatabaseCacheImpl.java:106-114 | in a well-formed tree, a ref is stored iff looking up its name returns it |
| `PrefixTree.Delete` | src/main/java/com/gerritforge/gerrit/plugins/cachedrefdb/RefDatabaseCacheImpl.java:167-170 | deletion keeps exactly the refs of other names |
| `PrefixTree.LookupInsert` | src/main/java/com/gerritforge/gerrit/plugins/cachedrefdb/RefDatabaseCacheImpl.java:155-159 | after `insert`, the inserted name finds the new ref and every other name finds what it found before |
| `PrefixTree.LookupDelete` | src/main/java/com/gerritforge/gerrit/plugins/cachedrefdb/RefDatabaseCacheImpl.java:167-170 | after `delete`, the deleted name finds nothing and every other name is unchanged |
| `PrefixTree.InsertValid` | src/main/java/com/gerritforge/gerrit/plugins/cachedrefdb/RefDatabaseCacheImpl.java:155-159 | insertion keeps the tree sorted with one ref per name |
| `PrefixTree.DeleteValid` | src/main/java/com/gerritforge/gerrit/plugins/cachedrefdb/RefDatabaseCacheImpl.java:167-170 | deletion keeps the tree sorted with one ref per name |
| `PrefixTree.ValuesWithPrefix` | src/main/java/com/gerritforge/gerrit/plugins/cachedrefdb/RefDatabaseCacheImpl.java:136 | `getValuesWithPrefix` returns exactly the tree's refs whose name starts with the prefix |
| `PrefixTree.ValuesWithPrefixAscending` | src/main/java/com/gerritforge/gerrit/plugins/cachedrefdb/RefDatabaseCacheImpl.java:127-139 | the refs under a prefix come out in ascending name order, one per name |
| `Lex.SortSortsAndPermutes` | src/main/java/com/gerritforge/gerrit/plugins/cachedrefdb/RefDatabaseCacheImpl.java:133-134 | sorting the prefixes yields an ascending permutation of them |
| `PrefixPolicies.KeptByContains` | src/main/java/com/gerritforge/gerrit/plugins/cachedrefdb/RefDatabaseCacheImpl.java:141-148 | the duplicate filter as written keeps only requested prefixes, and always keeps the first one |
| `PrefixPolicies.KeptByContainsCharacterised` | src/main/java/com/gerritforge/gerrit/plugins/cachedrefdb/RefDatabaseCacheImpl.java:127-148 | as written, a prefix is kept iff it does not contain the last kept one, and each dropped prefix contains a kept one |
| `PrefixPolicies.KeptByStartsWith` | src/main/java/com/gerritforge/gerrit/plugins/cachedrefdb/RefDatabaseCacheImpl.java:141-148 | the corrected filter keeps only requested prefixes, and always keeps the first one |
| `PrefixPolicies.KeptByStartsWithCovers` | src/main/java/com/gerritforge/gerrit/plugins/cachedrefdb/RefDatabaseCacheImpl.java:141-148 | with the corrected filter, every dropped prefix extends a kept one |
| `PrefixPolicies.AllByPrefixesComplete` | src/main/java/com/gerritforge/gerrit/plugins/cachedrefdb/RefDatabaseCacheImpl.java:127-139 | with the corrected filter, `allByPrefixes` returns exactly the tree's refs under some requested prefix |
| `PrefixPolicies.AllByPrefixesAsWrittenSound` | src/main/java/com/gerritforge/gerrit/plugins/cachedrefdb/RefDatabaseCacheImpl.java:127-148 | as written, `allByPrefixes` returns only refs of the tree under some requested prefix |
| `PrefixPolicies.AllByPrefixesAsWrittenKeeps` | src/main/java/com/gerritforge/gerrit/plugins/cachedrefdb/RefDatabaseCacheImpl.java:127-148 | as written, a ref under a requested prefix that contains no other requested prefix is returned |
| `PrefixPolicies.AsWrittenDropsContaining` | src/main/java/com/gerritforge/gerrit/plugins/cachedrefdb/RefDatabaseCacheImpl.java:141-148 | as written, of two sorted prefixes the second is dropped whenever it contains the first |
| `PrefixPolicies.CorrectedKeepsUnrelated` | src/main/java/com/gerritforge/gerrit/plugins/cachedrefdb/RefDatabaseCacheImpl.java:141-148 | corrected, of two sorted prefixes both are kept unless the second extends the first |
| `PrefixPolicies.AsWrittenLosesMatch` | src/main/java/com/gerritforge/gerrit/plugins/cachedrefdb/RefDatabaseCacheImpl.java:127-148 | a ref under a dropped prefix that contains, but does not extend, the first prefix is missing as written and present when corrected |
| `PrefixPolicies.AsWrittenLosesMatches` | src/main/java/com/gerritforge/gerrit/plugins/cachedrefdb/RefDatabaseCacheImpl.java:127-148 | `refs/meta/refs/heads/x` is lost for prefixes `refs/heads/` and `refs/meta/refs/heads/` as written, and returned when corrected |
| `PrefixPolicies.UniqueUsable` | src/main/java/com/gerritforge/gerrit/plugins/cachedrefdb/CachedRefDatabase.java:176-191 | the prefixes queried are the non-null, non-blank requested ones, each once |
| `PrefixPolicies.UniqueUsableOrder` | src/main/java/com/gerritforge/gerrit/plugins/cachedrefdb/CachedRefDatabase.java:176-191 | distinct prefixes keep the order of their first request |
| `RefDatabaseCacheSpec.SeedTree` | src/main/java/com/gerritforge/gerrit/plugins/cachedrefdb/RefDatabaseCacheImpl.java:84-87 | the tree built from the project's refs is sorted with one ref per name |
| `RefDatabaseCacheSpec.SeedTreeFinds` | src/main/java/com/gerritforge/gerrit/plugins/cachedrefdb/RefDatabaseCacheImpl.java:84-94 | a name looked up in the freshly built tree finds what the store's `exactRef` finds (the later ref of a name wins) |
| `RefDatabaseCacheSpec.GroupMembers` | src/main/java/com/gerritforge/gerrit/plugins/cachedrefdb/RefDatabaseCacheImpl.java:88-93 | the grouping holds a ref under `project$sha` iff the ref has that object id; refs without one are not grouped, and no group is empty |
| `RefDatabaseCacheSpec.StoreIfAbsent` | src/main/java/com/gerritforge/gerrit/plugins/cachedrefdb/RefDatabaseCacheImpl.java:95-100 | existing entries win, and new groups are stored only under absent keys |
| `RefDatabaseCacheSpec.Load` | src/main/java/com/gerritforge/gerrit/plugins/cachedrefdb/RefDatabaseCacheImpl.java:81-103 | loading succeeds iff the project is cached or the store is readable; it keeps every cached tree and bucket, adds only this project, and fails with ExecutionException, changing nothing |
| `RefDatabaseCacheSpec.LoadFresh` | src/main/java/com/gerritforge/gerrit/plugins/cachedrefdb/RefDatabaseCacheImpl.java:81-103 | a fresh load answers each name as the store does and adds buckets only from the store's refs |
| `RefDatabaseCacheSpec.Get` | src/main/java/com/gerritforge/gerrit/plugins/cachedrefdb/RefDatabaseCacheImpl.java:106-114 | `get` loads the project, and a load failure surfaces as IllegalStateException |
| `RefDatabaseCacheSpec.GetIgnoresStoreOnceLoaded` | src/main/java/com/gerritforge/gerrit/plugins/cachedrefdb/RefDatabaseCacheImpl.java:106-114 | once a project is loaded, `get` answers from the tree whatever the store now holds |
| `RefDatabaseCacheSpec.GetFreshMatchesStore` | src/main/java/com/gerritforge/gerrit/plugins/cachedrefdb/RefDatabaseCacheImpl.java:106-114 | on a project not yet loaded, `get` answers what the store answers, or IllegalStateException when it cannot be read |
| `RefDatabaseCacheSpec.ContainsKey` | src/main/java/com/gerritforge/gerrit/plugins/cachedrefdb/RefDatabaseCacheImpl.java:116-125 | `containsKey` has the same effect on the cache as loading the project |
| `RefDatabaseCacheSpec.ContainsKeyIffGet` | src/main/java/com/gerritforge/gerrit/plugins/cachedrefdb/RefDatabaseCacheImpl.java:116-125 | `containsKey` succeeds iff `get` does, and answers true iff `get` finds a ref |
| `RefDatabaseCacheSpec.AllByPrefixes` | src/main/java/com/gerritforge/gerrit/plugins/cachedrefdb/RefDatabaseCacheImpl.java:127-148 | the listing, with `isDuplicated` as written, loads the project and fails only with ExecutionException |
| `RefDatabaseCacheSpec.AllByPrefixesSound` | src/main/java/com/gerritforge/gerrit/plugins/cachedrefdb/RefDatabaseCacheImpl.java:127-148 | every listed ref is in the project's tree under some requested prefix |
| `RefDatabaseCacheSpec.AllByPrefixesKeeps` | src/main/java/com/gerritforge/gerrit/plugins/cachedrefdb/RefDatabaseCacheImpl.java:127-148 | a ref of the tree under a requested prefix that contains no other requested prefix is listed |
| `RefDatabaseCacheSpec.AllByPrefixMembers` | src/main/java/com/gerritforge/gerrit/plugins/cachedrefdb/RefDatabaseCacheImpl.java:127-148 | with one prefix, a ref is listed iff it is in the project's tree under that prefix |
| `RefDatabaseCacheSpec.AllByPrefixesCorrected` | src/main/java/com/gerritforge/gerrit/plugins/cachedrefdb/RefDatabaseCacheImpl.java:127-148 | the listing with the corrected duplicate filter loads the project and fails only with ExecutionException |
| `RefDatabaseCacheSpec.AllByPrefixesCorrectedMembers` | src/main/java/com/gerritforge/gerrit/plugins/cachedrefdb/RefDatabaseCacheImpl.java:127-148 | with the corrected filter, a ref is listed iff it is in the project's tree under some requested prefix |
| `RefDatabaseCacheSpec.All` | src/main/java/com/gerritforge/gerrit/plugins/cachedrefdb/RefDatabaseCacheImpl.java:150-153 | `all` returns the project's whole tree, or fails with ExecutionException when it cannot be loaded |
| `RefDatabaseCacheSpec.InsertRef` | src/main/java/com/gerritforge/gerrit/plugins/cachedrefdb/RefDatabaseCacheImpl.java:155-159 | the insert succeeds iff the project loads and the ref is not null; a null ref is a NullPointerException |
| `RefDatabaseCacheSpec.Put` | src/main/java/com/gerritforge/gerrit/plugins/cachedrefdb/RefDatabaseCacheImpl.java:172-179 | `put` inserts the ref and rewraps a load failure as IOException |
| `RefDatabaseCacheSpec.UpdateRef` | src/main/java/com/gerritforge/gerrit/plugins/cachedrefdb/RefDatabaseCacheImpl.java:194-202 | `updateRef` re-reads the name from the store and inserts it; it succeeds iff the store is readable and holds the name |
| `RefDatabaseCacheSpec.Evict` | src/main/java/com/gerritforge/gerrit/plugins/cachedrefdb/RefDatabaseCacheImpl.java:229-232 | `evict` fails only with ExecutionException, and then changes nothing |
| `RefDatabaseCacheSpec.RenameRef` | src/main/java/com/gerritforge/gerrit/plugins/cachedrefdb/RefDatabaseCacheImpl.java:181-192 | `renameRef` fails only with ExecutionException, and then changes nothing |
| `RefDatabaseCacheSpec.InsertRefKeepsTreesValid` | src/main/java/com/gerritforge/gerrit/plugins/cachedrefdb/RefDatabaseCacheImpl.java:155-159 | inserting keeps every cached tree well-formed |
| `RefDatabaseCacheSpec.EvictKeepsTreesValid` | src/main/java/com/gerritforge/gerrit/plugins/cachedrefdb/RefDatabaseCacheImpl.java:167-170 | evicting keeps every cached tree well-formed |
| `RefDatabaseCacheSpec.RenameRefKeepsTreesValid` | src/main/java/com/gerritforge/gerrit/plugins/cachedrefdb/RefDatabaseCacheImpl.java:181-192 | renaming keeps every cached tree well-formed |
| `RefDatabaseCacheSpec.PutOverwritesOneName` | src/main/java/com/gerritforge/gerrit/plugins/cachedrefdb/RefDatabaseCacheImpl.java:172-179 | `put` changes only the put name in this project's tree, and no other project's tree nor the object-id buckets |
| `RefDatabaseCacheSpec.UpdateRefReadsStore` | src/main/java/com/gerritforge/gerrit/plugins/cachedrefdb/RefDatabaseCacheImpl.java:161-165 | after `updateRef` the name finds the store's ref and every other name is unchanged |
| `RefDatabaseCacheSpec.EvictRemovesOneName` | src/main/java/com/gerritforge/gerrit/plugins/cachedrefdb/RefDatabaseCacheImpl.java:167-170 | after `evict` the name finds nothing and every other name is unchanged |
| `RefDatabaseCacheSpec.RenameRefMoves` | src/main/java/com/gerritforge/gerrit/plugins/cachedrefdb/RefDatabaseCacheImpl.java:181-192 | after `renameRef` the destination finds the new ref, the source finds nothing, and other names are unchanged |
| `RefDatabaseCacheSpec.GetRefsByObjectId` | src/main/java/com/gerritforge/gerrit/plugins/cachedrefdb/RefDatabaseCacheImpl.java:204-215 | the lookup never throws, never touches the trees, and a failed loader (null) leaves the cache unchanged |
| `RefDatabaseCacheSpec.GetRefsByObjectIdMemoises` | src/main/java/com/gerritforge/gerrit/plugins/cachedrefdb/RefDatabaseCacheImpl.java:204-215 | a cached bucket is returned whatever the store holds; an absent one is loaded from the store's tips |
| `RefDatabaseCacheSpec.EvictObjectIdCache` | src/main/java/com/gerritforge/gerrit/plugins/cachedrefdb/RefDatabaseCacheImpl.java:222-227 | a null or zero id changes nothing; otherwise exactly the `identifier$sha` bucket goes and the trees stay |
| `RefDatabaseCacheSpec.LoadCoherent` | src/main/java/com/gerritforge/gerrit/plugins/cachedrefdb/RefDatabaseCacheImpl.java:81-103 | loading keeps a coherent cache coherent |
| `RefDatabaseCacheSpec.UpdateRefRestoresCoherence` | src/main/java/com/gerritforge/gerrit/plugins/cachedrefdb/RefDatabaseCacheImpl.java:194-202 | if the store changed only at one name, `updateRef` of that name makes the cache agree with the new store; a symbolic ref pointing at that name also changes in a real store, so this hypothesis excludes it (see `UpdateRefCorrectedRestoresCoherence`) |
| `RefDatabaseCacheSpec.EvictRestoresCoherence` | src/main/java/com/gerritforge/gerrit/plugins/cachedrefdb/RefDatabaseCacheImpl.java:229-232 | if the store deleted one name, `evict` of that name makes the cache agree with the new store |
| `RefDatabaseCacheSpec.Dependents` | src/main/java/com/gerritforge/gerrit/plugins/cachedrefdb/RefDatabaseCacheImpl.java:86-87 | every cached entry that is a symbolic ref pointing through the name has its name listed |
| `RefDatabaseCacheSpec.RereadLookup` | src/main/java/com/gerritforge/gerrit/plugins/cachedrefdb/RefDatabaseCacheImpl.java:155-170 | after re-reading a list of names, each of them answers the store's ref (or nothing) and every other name answers as before |
| `RefDatabaseCacheSpec.UpdateRefCorrected` | src/main/java/com/gerritforge/gerrit/plugins/cachedrefdb/RefDatabaseCacheImpl.java:194-202 | corrected, `updateRef` succeeds or fails exactly as the code as written does |
| `RefDatabaseCacheSpec.UpdateRefCorrectedRestoresCoherence` | src/main/java/com/gerritforge/gerrit/plugins/cachedrefdb/RefDatabaseCacheImpl.java:194-202 | corrected, after any write of one name, including the change it makes to symbolic refs pointing at it, `updateRef` makes the cache agree with the new store |
| `RefDatabaseCacheSpec.UpdateRefLeavesSymbolicStale` | src/main/java/com/gerritforge/gerrit/plugins/cachedrefdb/RefDatabaseCacheImpl.java:194-202 | as written, after `refs/heads/master` moves, a cached `HEAD` still answers the old target and the cache no longer agrees with the store; the corrected update does agree |
| `RefDatabaseCacheSpec.GetAnswersView` | src/main/java/com/gerritforge/gerrit/plugins/cachedrefdb/RefDatabaseCacheImpl.java:106-114 | `get` answers the cached tree's ref, or the store's when the project is not loaded |
| `RefDatabaseCacheSpec.CoherentIffView` | src/main/java/com/gerritforge/gerrit/plugins/cachedrefdb/RefDatabaseCacheImpl.java:106-114 | the cache is coherent iff every name read through it answers as the store does |
| `RefDatabaseCacheSpec.UpdateRefView` | src/main/java/com/gerritforge/gerrit/plugins/cachedrefdb/RefDatabaseCacheImpl.java:194-202 | after `updateRef`, reading the name answers the store's ref and other names answer as before |
| `RefDatabaseCacheSpec.EvictView` | src/main/java/com/gerritforge/gerrit/plugins/cachedrefdb/RefDatabaseCacheImpl.java:229-232 | after `evict`, reading the name answers nothing and other names answer as before |
| `RefDatabaseCacheSpec.CoherentTreeHoldsStore` | src/main/java/com/gerritforge/gerrit/plugins/cachedrefdb/RefDatabaseCacheImpl.java:150-153 | a coherent project tree holds exactly the store's refs, so `all` lists the store |
| `RefDatabaseCacheImpl.ScanRefs` | src/main/java/com/gerritforge/gerrit/plugins/cachedrefdb/RefDatabaseCacheImpl.java:84-94 | the scan of the project's refs builds the specified tree and object-id grouping |
| `RefDatabaseCacheImpl.Cache.StoreBuckets` | src/main/java/com/gerritforge/gerrit/plugins/cachedrefdb/RefDatabaseCacheImpl.java:95-100 | storing the grouping writes only absent buckets and leaves the trees alone |
| `RefDatabaseCacheImpl.Cache.LoadProject` | src/main/java/com/gerritforge/gerrit/plugins/cachedrefdb/RefDatabaseCacheImpl.java:81-103 | the loading cache's `get(project)` has the effect and answer of `Load` |
| `RefDatabaseCacheImpl.Cache.Get` | src/main/java/com/gerritforge/gerrit/plugins/cachedrefdb/RefDatabaseCacheImpl.java:106-114 | the in-place `get` matches `RefDatabaseCacheSpec.Get` |
| `RefDatabaseCacheImpl.Cache.ContainsKey` | src/main/java/com/gerritforge/gerrit/plugins/cachedrefdb/RefDatabaseCacheImpl.java:116-125 | the in-place `containsKey` matches its specification |
| `RefDatabaseCacheImpl.Cache.AllByPrefixes` | src/main/java/com/gerritforge/gerrit/plugins/cachedrefdb/RefDatabaseCacheImpl.java:127-139 | the in-place `allByPrefixes` matches its specification |
| `RefDatabaseCacheImpl.Cache.All` | src/main/java/com/gerritforge/gerrit/plugins/cachedrefdb/RefDatabaseCacheImpl.java:150-153 | the in-place `all` matches its specification |
| `RefDatabaseCacheImpl.Cache.UpdateRefInPrefixesByProjectCache` | src/main/java/com/gerritforge/gerrit/plugins/cachedrefdb/RefDatabaseCacheImpl.java:155-159 | the in-place insert matches `InsertRef` |
| `RefDatabaseCacheImpl.Cache.Put` | src/main/java/com/gerritforge/gerrit/plugins/cachedrefdb/RefDatabaseCacheImpl.java:172-179 | the in-place `put` matches its specification |
| `RefDatabaseCacheImpl.Cache.UpdateRef` | src/main/java/com/gerritforge/gerrit/plugins/cachedrefdb/RefDatabaseCacheImpl.java:194-202 | the in-place `updateRef` matches its specification |
| `RefDatabaseCacheImpl.Cache.Evict` | src/main/java/com/gerritforge/gerrit/plugins/cachedrefdb/RefDatabaseCacheImpl.java:229-232 | the in-place `evict` matches its specification |
| `RefDatabaseCacheImpl.Cache.RenameRef` | src/main/java/com/gerritforge/gerrit/plugins/cachedrefdb/RefDatabaseCacheImpl.java:181-192 | the in-place `renameRef` matches its specification |
| `RefDatabaseCacheImpl.Cache.GetRefsByObjectId` | src/main/java/com/gerritforge/gerrit/plugins/cachedrefdb/RefDatabaseCacheImpl.java:204-215 | the in-place `getRefsByObjectId` matches its specification |
| `RefDatabaseCacheImpl.Cache.EvictObjectIdCache` | src/main/java/com/gerritforge/gerrit/plugins/cachedrefdb/RefDatabaseCacheImpl.java:222-227 | the in-place `evictObjectIdCache` matches its specification |
| `RefByNameCache.PresentByName` | src/main/java/com/gerritforge/gerrit/plugins/cachedrefdb/RefByNameCacheImpl.java:82-90 | a ref is listed for an identifier iff some `identifier$…` key holds it |
| `RefByNameCache.AnyPresentIffNonEmpty` | src/main/java/com/gerritforge/gerrit/plugins/cachedrefdb/RefByNameCacheImpl.java:92-96 | `hasRefs` holds iff `all` is non-empty |
| `RefByNameCache.PresentIgnoresOtherIdentifiers` | src/main/java/com/googlesource/gerrit/plugins/cachedrefdb/RefByNameCacheImpl.java:70-78 | writing another `$`-free identifier's key never changes what `all` lists for this one |
| `RefByNameCache.NameCache.ComputeIfAbsent` | src/main/java/com/gerritforge/gerrit/plugins/cachedrefdb/RefByNameCacheImpl.java:65-75 | the loader runs iff the key is absent; a loaded value is stored and returned; a checked failure answers null, an unchecked one propagates, and neither stores anything |
| `RefByNameCache.NameCache.Evict` | src/main/java/com/gerritforge/gerrit/plugins/cachedrefdb/RefByNameCacheImpl.java:77-80 | exactly the `identifier$ref` key goes |
| `RefByNameCache.NameCache.All` | src/main/java/com/gerritforge/gerrit/plugins/cachedrefdb/RefByNameCacheImpl.java:82-90 | `all` lists exactly the present refs under this identifier's keys |
| `RefByNameCache.NameCache.HasRefs` | src/main/java/com/gerritforge/gerrit/plugins/cachedrefdb/RefByNameCacheImpl.java:92-96 | `hasRefs` holds iff `all` is non-empty |
| `RefByNameCache.NameCache.UpdateRefsByObjectIdCacheIfNeeded` | src/main/java/com/gerritforge/gerrit/plugins/cachedrefdb/RefByNameCacheImpl.java:98-112 | an already cached object-id entry gains the ref; otherwise nothing changes |
| `RefByNameCache.NameCache.GetRefsForObjectId` | src/main/java/com/gerritforge/gerrit/plugins/cachedrefdb/RefByNameCacheImpl.java:118-124 | the loader runs iff the `(project, id)` key is absent; its value is stored; a checked failure is an ExecutionException, an unchecked one propagates, and neither stores anything |
| `RefsByObjectIdCache.InvalidateStringKeyRemovesNothing` | src/main/java/com/gerritforge/gerrit/plugins/cachedrefdb/RefsByObjectIdCacheImpl.java:64-67 | invalidating a String key of an ObjectId-keyed cache removes nothing |
| `RefsByObjectIdCache.EvictByNameKeepsEntry` | src/main/java/com/gerritforge/gerrit/plugins/cachedrefdb/RefsByObjectIdCacheImpl.java:64-67 | evicting by the id's name leaves that id's entry in place |
| `RefsByObjectIdCache.ObjectIdCache.Get` | src/main/java/com/gerritforge/gerrit/plugins/cachedrefdb/RefsByObjectIdCacheImpl.java:49-57 | a cached entry is returned unchanged; an absent one is loaded and stored; a checked load failure returns null and an unchecked one propagates |
| `RefsByObjectIdCache.ObjectIdCache.Put` | src/main/java/com/gerritforge/gerrit/plugins/cachedrefdb/RefsByObjectIdCacheImpl.java:59-62 | `put` replaces the id's entry by the one ref |
| `RefsByObjectIdCache.ObjectIdCache.Evict` | src/main/java/com/gerritforge/gerrit/plugins/cachedrefdb/RefsByObjectIdCacheImpl.java:64-67 | as written, `evict(String)` leaves the cache unchanged |
| `RefsByObjectIdCache.ObjectIdCache.EvictId` | src/main/java/com/gerritforge/gerrit/plugins/cachedrefdb/RefsByObjectIdCacheImpl.java:64-67 | corrected, eviction removes exactly the id's entry |
| `RefByObjectIdLoader.Load` | src/main/java/com/gerritforge/gerrit/plugins/cachedrefdb/RefByObjectIdLoader.java:29-34 | the loader returns exactly the cached refs pointing at the key; a cached ref without an object id is a NullPointerException |
| `RefByObjectIdLoader.LoadPartitions` | src/main/java/com/gerritforge/gerrit/plugins/cachedrefdb/RefByObjectIdLoader.java:29-34 | different keys get disjoint sets, and every cached ref is found under its own id |
| `RefByObjectIdLoader.LoadMonotone` | src/main/java/com/gerritforge/gerrit/plugins/cachedrefdb/RefByObjectIdLoader.java:29-34 | more cached refs never shrink a key's set |
| `PassThroughRefDatabase.Get` | src/main/java/com/gerritforge/gerrit/plugins/cachedrefdb/PassThroughRefDatabase.java:27-29 | `get` answers the store's ref of that name, or IOException |
| `PassThroughRefDatabase.ContainsKey` | src/main/java/com/gerritforge/gerrit/plugins/cachedrefdb/PassThroughRefDatabase.java:31-34 | `containsKey` is always false |
| `PassThroughRefDatabase.AllByPrefixes` | src/main/java/com/gerritforge/gerrit/plugins/cachedrefdb/PassThroughRefDatabase.java:44-52 | the listing is exactly the store's refs under some prefix; an IOException becomes ExecutionException |
| `PassThroughRefDatabase.All` | src/main/java/com/gerritforge/gerrit/plugins/cachedrefdb/PassThroughRefDatabase.java:54-61 | `all` is the store's refs; an IOException becomes ExecutionException |
| `PassThroughRefDatabase.Apply` | src/main/java/com/gerritforge/gerrit/plugins/cachedrefdb/PassThroughRefDatabase.java:36-82 | every write hook succeeds and changes nothing |
| `PassThroughRefDatabase.GetRefsByObjectId` | src/main/java/com/gerritforge/gerrit/plugins/cachedrefdb/PassThroughRefDatabase.java:69-72 | the by-object-id lookup is always empty |
| `PassThroughRefDatabase.CachedGetAgrees` | src/main/java/com/gerritforge/gerrit/plugins/cachedrefdb/PassThroughRefDatabase.java:27-29 | on a coherent cache, the caching `get` answers as the pass-through one |
| `PassThroughRefDatabase.CachedListingAgrees` | src/main/java/com/gerritforge/gerrit/plugins/cachedrefdb/PassThroughRefDatabase.java:44-52 | on a coherent cache, the caching `allByPrefixes` succeeds and lists only what the pass-through one lists; with the corrected filter both list the same refs |
| `RefUpdateWithCacheUpdate.Refresh` | src/main/java/com/gerritforge/gerrit/plugins/cachedrefdb/RefUpdateWithCacheUpdate.java:235-248 | an unsuccessful result changes nothing; the writer's result is returned unchanged |
| `RefUpdateWithCacheUpdate.EvictOnSuccess` | src/main/java/com/gerritforge/gerrit/plugins/cachedrefdb/RefUpdateWithCacheUpdate.java:223-233 | an unsuccessful result changes nothing; a failure is an IOException and changes nothing |
| `RefUpdateWithCacheUpdate.LowLevel` | src/main/java/com/gerritforge/gerrit/plugins/cachedrefdb/RefUpdateWithCacheUpdate.java:198-221 | the low-level hooks always throw UnsupportedOperationException |
| `RefUpdateWithCacheUpdate.RefreshMakesEntryCurrent` | src/main/java/com/gerritforge/gerrit/plugins/cachedrefdb/RefUpdateWithCacheUpdate.java:235-248 | after a successful update the name reads the store's ref, other names are unchanged, and the old and new id buckets are gone |
| `RefUpdateWithCacheUpdate.EvictOnSuccessRemovesEntry` | src/main/java/com/gerritforge/gerrit/plugins/cachedrefdb/RefUpdateWithCacheUpdate.java:223-233 | after a successful delete the name reads nothing, other names are unchanged, and the old id bucket is gone |
| `RefUpdateWithCacheUpdate.RunKeepsCoherence` | src/main/java/com/gerritforge/gerrit/plugins/cachedrefdb/RefUpdateWithCacheUpdate.java:153-181 | any mutator that changed the store at its one name leaves a coherent cache coherent; the hypothesis excludes a symbolic ref pointing at that name |
| `RefUpdateWithCacheUpdate.DeleteHidesName` | src/main/java/com/gerritforge/gerrit/plugins/cachedrefdb/RefUpdateWithCacheUpdate.java:169-176 | after a successful delete, `get` answers null and no listing shows the name |
| `RefUpdateWithCacheUpdate.RefUpdateWithCacheUpdate.RefreshCachesOnSuccessfulUpdate` | src/main/java/com/gerritforge/gerrit/plugins/cachedrefdb/RefUpdateWithCacheUpdate.java:235-248 | the in-place refresh matches `Refresh` |
| `RefUpdateWithCacheUpdate.RefUpdateWithCacheUpdate.EvictCacheOnSuccessfulUpdate` | src/main/java/com/gerritforge/gerrit/plugins/cachedrefdb/RefUpdateWithCacheUpdate.java:223-233 | the in-place eviction matches `EvictOnSuccess` |
| `RefUpdateWithCacheUpdate.RefUpdateWithCacheUpdate.Mutate` | src/main/java/com/gerritforge/gerrit/plugins/cachedrefdb/RefUpdateWithCacheUpdate.java:153-181 | each mutator forwards to the writer, then refreshes or evicts as specified |
| `RefRenameWithCacheUpdate.RenameAsWritten` | src/main/java/com/gerritforge/gerrit/plugins/cachedrefdb/RefRenameWithCacheUpdate.java:92-101 | as written, an unsuccessful rename changes nothing and the writer's result is returned |
| `RefRenameWithCacheUpdate.RenameCorrected` | src/main/java/com/gerritforge/gerrit/plugins/cachedrefdb/RefRenameWithCacheUpdate.java:92-101 | corrected, an unsuccessful rename changes nothing, and a successful one whose destination the store holds succeeds |
| `RefRenameWithCacheUpdate.DoRename` | src/main/java/com/gerritforge/gerrit/plugins/cachedrefdb/RefRenameWithCacheUpdate.java:103-106 | `doRename` always throws UnsupportedOperationException |
| `RefRenameWithCacheUpdate.RenameAsWrittenLosesDestination` | src/main/java/com/gerritforge/gerrit/plugins/cachedrefdb/RefRenameWithCacheUpdate.java:92-101 | as written, a destination not yet in the cached tree gives NullPointerException and stays unreadable from the cache |
| `RefRenameWithCacheUpdate.RenameFindsDestination` | src/main/java/com/gerritforge/gerrit/plugins/cachedrefdb/RefRenameWithCacheUpdate.java:92-101 | corrected, the rename succeeds and the destination reads the store's ref |
| `RefRenameWithCacheUpdate.RenameMoves` | src/main/java/com/gerritforge/gerrit/plugins/cachedrefdb/RefRenameWithCacheUpdate.java:92-101 | corrected, the source reads nothing, the destination reads the store's ref, other names are unchanged |
| `RefRenameWithCacheUpdate.RenameRestoresCoherence` | src/main/java/com/gerritforge/gerrit/plugins/cachedrefdb/RefRenameWithCacheUpdate.java:92-101 | corrected, a rename that changed the store only at source and destination keeps the cache coherent; the hypothesis excludes symbolic refs pointing at either |
| `RefRenameWithCacheUpdate.RenameThenRead` | src/test/java/com/gerritforge/gerrit/plugins/cachedrefdb/CachedRefDbIT.java:180-204 | after a corrected rename, `get` of the old name answers null, of the new name the store's ref, and a listing by one prefix holds exactly the renamed store's refs under it |
| `RefRenameWithCacheUpdate.RefRenameWithCacheUpdate.SetRefLogMessage` | src/main/java/com/gerritforge/gerrit/plugins/cachedrefdb/RefRenameWithCacheUpdate.java:72-80 | the message reaches the delegate when it exists, and is dropped otherwise |
| `RefRenameWithCacheUpdate.RefRenameWithCacheUpdate.Rename` | src/main/java/com/gerritforge/gerrit/plugins/cachedrefdb/RefRenameWithCacheUpdate.java:92-101 | the in-place rename matches `RenameCorrected` |
| `BatchRefUpdateWithCacheUpdate.CommandStep` | src/main/java/com/gerritforge/gerrit/plugins/cachedrefdb/BatchRefUpdateWithCacheUpdate.java:176-196 | a command not OK changes nothing; a failure is never a bare ExecutionException |
| `BatchRefUpdateWithCacheUpdate.ExecuteBatch` | src/main/java/com/gerritforge/gerrit/plugins/cachedrefdb/BatchRefUpdateWithCacheUpdate.java:163-174 | a failing delegate leaves the cache unchanged and its exception propagates |
| `BatchRefUpdateWithCacheUpdate.BatchSkipsNotOk` | src/main/java/com/gerritforge/gerrit/plugins/cachedrefdb/BatchRefUpdateWithCacheUpdate.java:176-196 | a batch with no OK command leaves the cache unchanged |
| `BatchRefUpdateWithCacheUpdate.BatchStopsAtFailure` | src/main/java/com/gerritforge/gerrit/plugins/cachedrefdb/BatchRefUpdateWithCacheUpdate.java:176-196 | the first failing command ends the batch; later commands have no effect |
| `BatchRefUpdateWithCacheUpdate.CommandStepView` | src/main/java/com/gerritforge/gerrit/plugins/cachedrefdb/BatchRefUpdateWithCacheUpdate.java:176-196 | after an OK command its name reads the store's ref; other names are unchanged |
| `BatchRefUpdateWithCacheUpdate.BatchView` | src/main/java/com/gerritforge/gerrit/plugins/cachedrefdb/BatchRefUpdateWithCacheUpdate.java:176-196 | after a batch every OK command's name reads the store's ref; other names are unchanged |
| `BatchRefUpdateWithCacheUpdate.BatchRestoresCoherence` | src/main/java/com/gerritforge/gerrit/plugins/cachedrefdb/BatchRefUpdateWithCacheUpdate.java:176-196 | a batch that changed the store only at its OK commands' names keeps the cache coherent; the hypothesis excludes symbolic refs pointing at those names |
| `BatchRefUpdateWithCacheUpdate.BatchRefUpdateWithCacheUpdate.EvictCache` | src/main/java/com/gerritforge/gerrit/plugins/cachedrefdb/BatchRefUpdateWithCacheUpdate.java:176-196 | the in-place loop over the commands matches `Batch` |
| `BatchRefUpdateWithCacheUpdate.BatchRefUpdateWithCacheUpdate.Execute` | src/main/java/com/gerritforge/gerrit/plugins/cachedrefdb/BatchRefUpdateWithCacheUpdate.java:163-174 | the in-place `execute` matches `ExecuteBatch` |
| `CachedRefDatabase.GetRefsStep` | src/main/java/com/gerritforge/gerrit/plugins/cachedrefdb/CachedRefDatabase.java:147-156 | `getRefs` returns the store's refs, or IOException without changing the cache |
| `CachedRefDatabase.SeedOneView` | src/main/java/com/gerritforge/gerrit/plugins/cachedrefdb/CachedRefDatabase.java:147-156 | putting one missing ref makes its name read that ref and leaves other names alone |
| `CachedRefDatabase.SeedMissingView` | src/main/java/com/gerritforge/gerrit/plugins/cachedrefdb/CachedRefDatabase.java:147-156 | after the seeding loop, a name the cache lacked reads the store's ref and others are unchanged |
| `CachedRefDatabase.ByPrefix` | src/main/java/com/gerritforge/gerrit/plugins/cachedrefdb/CachedRefDatabase.java:163-174 | the prefix listing has the effect of loading the project |
| `CachedRefDatabase.ByPrefixAnswersAsStore` | src/main/java/com/gerritforge/gerrit/plugins/cachedrefdb/CachedRefDatabase.java:163-174 | on a coherent cache, the prefix listing is exactly the store's refs under the prefix |
| `CachedRefDatabase.ByPrefixesAnswersAsStore` | src/main/java/com/gerritforge/gerrit/plugins/cachedrefdb/CachedRefDatabase.java:176-191 | on a coherent cache, the multi-prefix listing is exactly the store's refs under some prefix |
| `CachedRefDatabase.GetRefsByPrefixesAnswersAsStore` | src/main/java/com/gerritforge/gerrit/plugins/cachedrefdb/CachedRefDatabase.java:176-191 | the same, with null and blank prefixes ignored |
| `CachedRefDatabase.ByPrefixesStops` | src/main/java/com/gerritforge/gerrit/plugins/cachedrefdb/CachedRefDatabase.java:176-191 | the first failing prefix ends the listing |
| `CachedRefDatabase.UniquePrefixes` | src/main/java/com/gerritforge/gerrit/plugins/cachedrefdb/CachedRefDatabase.java:176-191 | the loop collects the usable prefixes, each once, in request order |
| `CachedRefDatabase.CachedRefDatabase.ExactRef` | src/main/java/com/gerritforge/gerrit/plugins/cachedrefdb/CachedRefDatabase.java:96-99 | `exactRef` is the cache's `get` |
| `CachedRefDatabase.CachedRefDatabase.GetRefs` | src/main/java/com/gerritforge/gerrit/plugins/cachedrefdb/CachedRefDatabase.java:147-156 | the store's refs are returned once each one the cache lacked has been put; an unreadable store is an IOException that changes nothing |
| `CachedRefDatabase.CachedRefDatabase.GetRefsByPrefix` | src/main/java/com/gerritforge/gerrit/plugins/cachedrefdb/CachedRefDatabase.java:163-174 | matches `ByPrefix` |
| `CachedRefDatabase.CachedRefDatabase.GetRefsByPrefixes` | src/main/java/com/gerritforge/gerrit/plugins/cachedrefdb/CachedRefDatabase.java:176-191 | the loop over the usable prefixes matches `ByPrefixes` |
| `CachedRefDatabase.CachedRefDatabase.ExactRefs` | src/main/java/com/gerritforge/gerrit/plugins/cachedrefdb/CachedRefDatabase.java:137-140 | forwarded to the store: the map holds exactly the requested names the store has, each with its ref; an unreadable store is an IOException |
| `CachedRefDatabase.CachedRefDatabase.FirstExactRef` | src/main/java/com/gerritforge/gerrit/plugins/cachedrefdb/CachedRefDatabase.java:142-145 | forwarded to the store: the ref of the earliest requested name that exists (`RefStore.FirstIsEarliest`), or null only when no requested name exists; an unreadable store is an IOException |
| `CachedRefDatabase.CachedRefDatabase.GetTipsWithSha1` | src/main/java/com/gerritforge/gerrit/plugins/cachedrefdb/CachedRefDatabase.java:193-196 | forwarded to the store: exactly the store's refs pointing at the id; an unreadable store is an IOException |
| `CachedRefDatabase.CachedRefDatabase.HasRefs` | src/main/java/com/gerritforge/gerrit/plugins/cachedrefdb/CachedRefDatabase.java:203-206 | forwarded to the store: true iff the store has a ref; an unreadable store is an IOException |
| `CachedRefDatabase.CachedRefDatabase.NewUpdate` | src/main/java/com/gerritforge/gerrit/plugins/cachedrefdb/CachedRefDatabase.java:82-85 | a new update wraps this project's cache and the given name |
| `CachedRefDatabase.CachedRefDatabase.NewRename` | src/main/java/com/gerritforge/gerrit/plugins/cachedrefdb/CachedRefDatabase.java:87-94 | a new rename wraps this project's cache with the source and destination |
| `CachedRefDatabase.CachedRefDatabase.NewBatchUpdate` | src/main/java/com/gerritforge/gerrit/plugins/cachedrefdb/CachedRefDatabase.java:127-130 | a new batch update wraps this project's cache |
| `CachedRefRepository.NoRevisionChars` | src/main/java/com/gerritforge/gerrit/plugins/cachedrefdb/CachedRefRepository.java:77 | true iff none of `^~:@` occurs |
| `CachedRefRepository.IsCacheableReference` | src/main/java/com/gerritforge/gerrit/plugins/cachedrefdb/CachedRefRepository.java:375-377 | cacheable iff it starts with `refs/` and holds none of `^~:@` |
| `CachedRefRepository.FullNamesAreCacheable` | src/test/java/com/gerritforge/gerrit/plugins/cachedrefdb/CachedRefRepositoryIT.java:73-86 | full branch and tag names are cacheable |
| `CachedRefRepository.OnlyRefsAreCacheable` | src/main/java/com/gerritforge/gerrit/plugins/cachedrefdb/CachedRefRepository.java:375-377 | a short name such as `HEAD` or `master` is not cacheable |
| `CachedRefRepository.RevisionSuffixesAreNotCacheable` | src/test/java/com/gerritforge/gerrit/plugins/cachedrefdb/CachedRefRepositoryIT.java:88-159 | a name with `^`, `~`, `:path` or `@{n}` is not cacheable |
| `CachedRefRepository.ObjectNamesAreNotCacheable` | src/main/java/com/gerritforge/gerrit/plugins/cachedrefdb/CachedRefRepository.java:375-377 | an abbreviated or full object id is not cacheable |
| `CachedRefRepository.ResolveStep` | src/main/java/com/gerritforge/gerrit/plugins/cachedrefdb/CachedRefRepository.java:155-169 | a non-cacheable revision string is resolved by the repository alone, leaving the cache unchanged |
| `CachedRefRepository.ResolveAgreesWithBacking` | src/main/java/com/gerritforge/gerrit/plugins/cachedrefdb/CachedRefRepository.java:155-169 | on a coherent cache, `resolve` answers what the repository answers |
| `CachedRefRepository.CachedRefRepository.constructor` | src/main/java/com/gerritforge/gerrit/plugins/cachedrefdb/CachedRefRepository.java:79-91 | the repository builds its own cached ref database over the shared cache |
| `CachedRefRepository.CachedRefRepository.GetRefDatabase` | src/main/java/com/gerritforge/gerrit/plugins/cachedrefdb/CachedRefRepository.java:93-96 | the ref database belongs to this project |
| `CachedRefRepository.CachedRefRepository.Resolve` | src/main/java/com/gerritforge/gerrit/plugins/cachedrefdb/CachedRefRepository.java:155-169 | the in-place `resolve` matches `ResolveStep` |
| `CachedRefRepository.CachedRefRepository.UpdateRef` | src/main/java/com/gerritforge/gerrit/plugins/cachedrefdb/CachedRefRepository.java:139-147 | `updateRef` returns a new cache-updating writer for the name |
| `CachedRefRepository.CachedRefRepository.RenameRef` | src/main/java/com/gerritforge/gerrit/plugins/cachedrefdb/CachedRefRepository.java:149-153 | `renameRef` returns a new cache-updating rename |
| `CachedRefRepository.CachingFactory.Create` | src/main/java/com/gerritforge/gerrit/plugins/cachedrefdb/CachedRefRepository.java:56-70 | one wrapper per project name: a known project gets its wrapper back, a new one gets a fresh wrapper, remembered |
| `LegacyCachedRefDatabase.Bucket` | src/main/java/com/googlesource/gerrit/plugins/cachedrefdb/CachedRefDatabase.java:57 | the multimap's `get(id)` is exactly the refs indexed under that id |
| `LegacyCachedRefDatabase.Seed` | src/main/java/com/googlesource/gerrit/plugins/cachedrefdb/CachedRefDatabase.java:219-238 | corrected, seeding keeps whether the multimap exists |
| `LegacyCachedRefDatabase.SeedAsWrittenWithMultimap` | src/main/java/com/googlesource/gerrit/plugins/cachedrefdb/CachedRefDatabase.java:219-238 | once the multimap exists, the loop as written is the corrected seeding |
| `LegacyCachedRefDatabase.SeedAsWrittenOnNewDatabase` | src/main/java/com/googlesource/gerrit/plugins/cachedrefdb/CachedRefDatabase.java:219-238 | before the multimap exists, the loop as written fails with NullPointerException iff some listed ref is not yet cached, and otherwise changes nothing |
| `LegacyCachedRefDatabase.SeedAsWrittenThrowsNull` | src/main/java/com/googlesource/gerrit/plugins/cachedrefdb/CachedRefDatabase.java:219-238 | the loop as written throws nothing but NullPointerException |
| `LegacyCachedRefDatabase.SeedAsWrittenFailSticks` | src/main/java/com/googlesource/gerrit/plugins/cachedrefdb/CachedRefDatabase.java:219-238 | once the loop has thrown on a ref, the whole call throws: later refs are not seeded |
| `LegacyCachedRefDatabase.FromDelegate` | src/main/java/com/googlesource/gerrit/plugins/cachedrefdb/CachedRefDatabase.java:219-238 | `getAllRefsFromDelegate` answers the store's list, or the empty list when the store cannot be read; when it throws, it is NullPointerException and the cache is as before |
| `LegacyCachedRefDatabase.FromDelegateCases` | src/main/java/com/googlesource/gerrit/plugins/cachedrefdb/CachedRefDatabase.java:219-238 | with the multimap built, `getAllRefsFromDelegate` seeds as intended; before that it throws iff a listed ref is not cached yet, and changes nothing |
| `LegacyCachedRefDatabase.SeedKeys` | src/main/java/com/googlesource/gerrit/plugins/cachedrefdb/CachedRefDatabase.java:219-238 | seeding keeps every cached entry and adds exactly the listed names' keys |
| `LegacyCachedRefDatabase.SeedStores` | src/main/java/com/googlesource/gerrit/plugins/cachedrefdb/CachedRefDatabase.java:219-238 | a listed ref whose key was absent is stored as present |
| `LegacyCachedRefDatabase.SeedIndexes` | src/main/java/com/googlesource/gerrit/plugins/cachedrefdb/CachedRefDatabase.java:219-238 | the multimap gains exactly the listed refs whose key was absent, under their object id |
| `LegacyCachedRefDatabase.LazyInit` | src/main/java/com/googlesource/gerrit/plugins/cachedrefdb/CachedRefDatabase.java:248-261 | after lazy initialisation the multimap exists |
| `LegacyCachedRefDatabase.LazyInitBuckets` | src/main/java/com/googlesource/gerrit/plugins/cachedrefdb/CachedRefDatabase.java:248-261 | a first initialisation indexes under an id exactly the listed refs with that id |
| `LegacyCachedRefDatabase.LazyInitOnce` | src/main/java/com/googlesource/gerrit/plugins/cachedrefdb/CachedRefDatabase.java:248-261 | a second initialisation changes nothing, whatever the store now holds |
| `LegacyCachedRefDatabase.ExactRefStep` | src/main/java/com/googlesource/gerrit/plugins/cachedrefdb/CachedRefDatabase.java:104-115 | `exactRef` never throws; it answers the cached value, or null without caching when the store cannot be read |
| `LegacyCachedRefDatabase.ExactRefReadsThrough` | src/main/java/com/googlesource/gerrit/plugins/cachedrefdb/CachedRefDatabase.java:104-115 | a cached name is answered from the cache; an uncached one is read from the store, cached and indexed |
| `LegacyCachedRefDatabase.ExactRefMemoises` | src/main/java/com/googlesource/gerrit/plugins/cachedrefdb/CachedRefDatabase.java:104-115 | a second `exactRef` of the same name answers the first answer, whatever the store now holds |
| `LegacyCachedRefDatabase.ToMap` | src/main/java/com/googlesource/gerrit/plugins/cachedrefdb/CachedRefDatabase.java:154-162 | the map holds every listed name with its ref; a repeated name is IllegalStateException |
| `LegacyCachedRefDatabase.ToMapSucceedsIffUnique` | src/main/java/com/googlesource/gerrit/plugins/cachedrefdb/CachedRefDatabase.java:154-162 | collecting succeeds iff no name is listed twice |
| `LegacyCachedRefDatabase.Named` | src/main/java/com/googlesource/gerrit/plugins/cachedrefdb/CachedRefDatabase.java:154-162 | the filter keeps exactly the listed refs with a requested name |
| `LegacyCachedRefDatabase.FirstNamed` | src/main/java/com/googlesource/gerrit/plugins/cachedrefdb/CachedRefDatabase.java:164-170 | the answer is a listed ref with a requested name; null iff there is none |
| `LegacyCachedRefDatabase.FirstNamedIsEarliest` | src/main/java/com/googlesource/gerrit/plugins/cachedrefdb/CachedRefDatabase.java:164-170 | no earlier listed ref has a requested name |
| `LegacyCachedRefDatabase.FirstByName` | src/main/java/com/googlesource/gerrit/plugins/cachedrefdb/CachedRefDatabase.java:164-170 | corrected, the answer is a listed ref with a requested name; null iff there is none |
| `LegacyCachedRefDatabase.FirstByNameIsEarliest` | src/main/java/com/googlesource/gerrit/plugins/cachedrefdb/CachedRefDatabase.java:164-170 | corrected, the answer has the earliest requested name that is listed |
| `LegacyCachedRefDatabase.FirstNamedIgnoresRequestOrder` | src/main/java/com/googlesource/gerrit/plugins/cachedrefdb/CachedRefDatabase.java:164-170 | with `refs/heads/x` listed before `refs/tags/x`, asking for `refs/tags/x` first answers `refs/heads/x` as written and `refs/tags/x` corrected |
| `LegacyCachedRefDatabase.HasRefsOf` | src/main/java/com/googlesource/gerrit/plugins/cachedrefdb/CachedRefDatabase.java:208-211 | a project with cached refs has refs without asking the store |
| `LegacyCachedRefDatabase.HasRefsAgreesWithStore` | src/main/java/com/googlesource/gerrit/plugins/cachedrefdb/CachedRefDatabase.java:208-211 | when the cached refs are the store's, `hasRefs` answers as the store |
| `LegacyCachedRefDatabase.UnderAny` | src/main/java/com/googlesource/gerrit/plugins/cachedrefdb/CachedRefDatabase.java:185-195 | the filter keeps exactly the refs under some prefix |
| `LegacyCachedRefDatabase.UnderAnyDistinct` | src/main/java/com/googlesource/gerrit/plugins/cachedrefdb/CachedRefDatabase.java:185-195 | filtering a list without repeats gives a list without repeats |
| `LegacyCachedRefDatabase.CachedRefDatabase.constructor` | src/main/java/com/googlesource/gerrit/plugins/cachedrefdb/CachedRefDatabase.java:57-74 | a new database has no multimap |
| `LegacyCachedRefDatabase.CachedRefDatabase.GetAllRefsFromDelegate` | src/main/java/com/googlesource/gerrit/plugins/cachedrefdb/CachedRefDatabase.java:219-238 | the in-place loop, with the loader as written, matches `FromDelegate`: the store's list seeded into the cache, the empty list for an unreadable store, or NullPointerException with the cache unchanged |
| `LegacyCachedRefDatabase.CachedRefDatabase.Refresh` | src/main/java/com/googlesource/gerrit/plugins/cachedrefdb/CachedRefDatabase.java:213-217 | `refresh` leaves the state `getAllRefsFromDelegate` leaves, and throws NullPointerException exactly when it does |
| `LegacyCachedRefDatabase.CachedRefDatabase.GetAllRefs` | src/main/java/com/googlesource/gerrit/plugins/cachedrefdb/CachedRefDatabase.java:240-246 | the cached refs when there are any (each once); else the store's refs, seeded into the cache as written; throws NullPointerException exactly when the cache holds none and seeding throws |
| `LegacyCachedRefDatabase.CachedRefDatabase.LazilyInitRefMaps` | src/main/java/com/googlesource/gerrit/plugins/cachedrefdb/CachedRefDatabase.java:248-261 | the in-place initialisation matches `LazyInit` |
| `LegacyCachedRefDatabase.CachedRefDatabase.ExactRef` | src/main/java/com/googlesource/gerrit/plugins/cachedrefdb/CachedRefDatabase.java:104-115 | the in-place `exactRef` matches `ExactRefStep` |
| `LegacyCachedRefDatabase.CachedRefDatabase.ExactRefs` | src/main/java/com/googlesource/gerrit/plugins/cachedrefdb/CachedRefDatabase.java:154-162 | the map of all refs with a requested name, collected from `getAllRefs`; its NullPointerException propagates |
| `LegacyCachedRefDatabase.CachedRefDatabase.FirstExactRef` | src/main/java/com/googlesource/gerrit/plugins/cachedrefdb/CachedRefDatabase.java:164-170 | a repeated name throws IllegalArgumentException (`Set.of`) with nothing changed; otherwise the first ref of `getAllRefs` with a requested name, and its NullPointerException propagates |
| `LegacyCachedRefDatabase.CachedRefDatabase.GetRefsByPrefix` | src/main/java/com/googlesource/gerrit/plugins/cachedrefdb/CachedRefDatabase.java:177-183 | all refs for the empty prefix, else those under the prefix; the NullPointerException of `getAllRefs` propagates |
| `LegacyCachedRefDatabase.CachedRefDatabase.GetRefsByPrefixes` | src/main/java/com/googlesource/gerrit/plugins/cachedrefdb/CachedRefDatabase.java:185-195 | the refs of `getAllRefs` under some prefix; its NullPointerException propagates |
| `LegacyCachedRefDatabase.CachedRefDatabase.GetTipsWithSha1` | src/main/java/com/googlesource/gerrit/plugins/cachedrefdb/CachedRefDatabase.java:197-201 | initialises the multimap, then answers its bucket for the id |
| `LegacyCachedRefDatabase.CachedRefDatabase.HasRefs` | src/main/java/com/googlesource/gerrit/plugins/cachedrefdb/CachedRefDatabase.java:208-211 | the cache's `hasRefs`, else the store's |
| `LegacyBatchRefUpdateWithCacheUpdate.ReloadStep` | src/main/java/com/googlesource/gerrit/plugins/cachedrefdb/BatchRefUpdateWithCacheUpdate.java:176-196 | a command not OK changes nothing; an OK one always leaves the multimap built |
| `LegacyBatchRefUpdateWithCacheUpdate.ExecuteReload` | src/main/java/com/googlesource/gerrit/plugins/cachedrefdb/BatchRefUpdateWithCacheUpdate.java:163-174 | a failing delegate leaves the cache unchanged and its exception propagates |
| `LegacyBatchRefUpdateWithCacheUpdate.LazyInitAddsStoreRefs` | src/main/java/com/googlesource/gerrit/plugins/cachedrefdb/CachedRefDatabase.java:248-261 | lazy initialisation keeps every cached entry, and any entry it adds holds the store's ref |
| `LegacyBatchRefUpdateWithCacheUpdate.ReloadStepView` | src/main/java/com/googlesource/gerrit/plugins/cachedrefdb/BatchRefUpdateWithCacheUpdate.java:176-196 | on a readable store, an OK command's name is reloaded from the store; other cached names keep their values |
| `LegacyBatchRefUpdateWithCacheUpdate.ReloadStepUnreadable` | src/main/java/com/googlesource/gerrit/plugins/cachedrefdb/BatchRefUpdateWithCacheUpdate.java:186-189 | on an unreadable store, an OK command's name is evicted and the reload throws NullPointerException |
| `LegacyBatchRefUpdateWithCacheUpdate.ReloadStepKeepsIndex` | src/main/java/com/googlesource/gerrit/plugins/cachedrefdb/BatchRefUpdateWithCacheUpdate.java:176-196 | the multimap only grows: an updated ref's old tips stay indexed |
| `LegacyBatchRefUpdateWithCacheUpdate.ReloadSkipsNotOk` | src/main/java/com/googlesource/gerrit/plugins/cachedrefdb/BatchRefUpdateWithCacheUpdate.java:182 | a batch with no OK command changes nothing |
| `LegacyBatchRefUpdateWithCacheUpdate.ReloadStopsAtFailure` | src/main/java/com/googlesource/gerrit/plugins/cachedrefdb/BatchRefUpdateWithCacheUpdate.java:176-196 | the first failing command ends the batch |
| `LegacyBatchRefUpdateWithCacheUpdate.ReloadView` | src/main/java/com/googlesource/gerrit/plugins/cachedrefdb/BatchRefUpdateWithCacheUpdate.java:176-196 | on a readable store, after the batch every OK command's name holds the store's ref and other cached names are unchanged |
| `LegacyBatchRefUpdateWithCacheUpdate.ReloadRestoresAgreement` | src/main/java/com/googlesource/gerrit/plugins/cachedrefdb/BatchRefUpdateWithCacheUpdate.java:176-196 | a batch that changed the store only at its OK names keeps the name cache in agreement with the store; the hypothesis excludes symbolic refs pointing at those names |
| `LegacyBatchRefUpdateWithCacheUpdate.ReloadUnreadableStopsAtFirst` | src/main/java/com/googlesource/gerrit/plugins/cachedrefdb/BatchRefUpdateWithCacheUpdate.java:186-189 | on an unreadable store the batch ends at its first OK command |
| `LegacyBatchRefUpdateWithCacheUpdate.BatchRefUpdateWithCacheUpdate.EvictCacheAndReload` | src/main/java/com/googlesource/gerrit/plugins/cachedrefdb/BatchRefUpdateWithCacheUpdate.java:176-196 | the in-place loop over the commands matches `Reload` |
| `LegacyBatchRefUpdateWithCacheUpdate.BatchRefUpdateWithCacheUpdate.Execute` | src/main/java/com/googlesource/gerrit/plugins/cachedrefdb/BatchRefUpdateWithCacheUpdate.java:163-174 | the in-place `execute` matches `ExecuteReload` |
| `LegacyNameCaches.PerThreadNameCache.constructor` | src/main/java/com/googlesource/gerrit/plugins/cachedrefdb/PerThreadRefByNameCache.java:31-35 | a new per-thread cache is empty |
| `LegacyNameCaches.PerThreadNameCache.ComputeIfAbsent` | src/main/java/com/googlesource/gerrit/plugins/cachedrefdb/PerThreadRefByNameCache.java:41-57 | the loader runs iff the key is absent; its value, or empty on any failure, is stored and returned |
| `LegacyNameCaches.PerThreadNameCache.Evict` | src/main/java/com/googlesource/gerrit/plugins/cachedrefdb/PerThreadRefByNameCache.java:59-62 | exactly the `identifier$ref` key goes |
| `LegacyNameCaches.PerThreadCache.Get` | src/main/java/com/googlesource/gerrit/plugins/cachedrefdb/PerThreadRefByNameCache.java:37-39 | the registered instance, or a fresh empty one that is registered |
| `LegacyNameCaches.FailureStaysCached` | src/main/java/com/googlesource/gerrit/plugins/cachedrefdb/PerThreadRefByNameCache.java:49-54 | after a failed load, a later call for the key answers null without running its loader |
| `LegacyNameCaches.NoOpComputeIfAbsent` | src/main/java/com/googlesource/gerrit/plugins/cachedrefdb/NoOpRefByNameCache.java:31-41 | a ref is answered iff the loader produced one; failures answer null |
| `LegacyNameCaches.NoOpAll` | src/main/java/com/googlesource/gerrit/plugins/cachedrefdb/NoOpRefByNameCache.java:48-51 | `all` is always empty |
| `LegacyNameCaches.NoOpHasRefs` | src/main/java/com/googlesource/gerrit/plugins/cachedrefdb/NoOpRefByNameCache.java:53-56 | `hasRefs` is always false |
| `LegacyNameCaches.NoOpRefsByObjectId` | src/main/java/com/googlesource/gerrit/plugins/cachedrefdb/NoOpRefByNameCache.java:58-61 | the multimap is always empty |
| `LegacyNameCaches.NoOpAnswersStore` | src/main/java/com/googlesource/gerrit/plugins/cachedrefdb/NoOpRefByNameCache.java:31-41 | with no cache, `exactRef` answers the store's current ref of the name (null when the store cannot be read), whatever earlier calls answered |

## Left out

- Concurrency is not modelled: the tree's read/write lock in `renameRef`, Guava's concurrent loading and its eviction by size or time, and thread-local lifetimes. Each operation is one atomic step.
- The `TernarySearchTree` internals are not modelled. The tree is a sorted sequence with the same lookup, insert, delete and prefix-listing answers.
- Strings are compared by Unicode code point, where Java compares UTF-16 code units. The two agree outside surrogate pairs.
- Peeled refs and `peel` are not modelled, and neither are reflogs, the JGit `Repository` methods the wrapper only forwards, or the repository managers, Guice modules, wrappers and logging.
- The reflog, atomicity, push-certificate and option setters of both batch updaters (gerritforge `BatchRefUpdateWithCacheUpdate.java` lines 53-161, googlesource lines 53-161) only forward to the delegate, so they are not modelled.
- `RefDatabaseCacheImpl.hasFastTipsWithSha1` answers the constant true (`RefDatabaseCacheSpec.HasFastTipsWithSha1`); no lookup depends on it, so no property relates it to the others.
- `hasFastTipsWithSha1` and `performsAtomicTransactions` of both databases only forward to the delegate, so they are not modelled. `isNameConflicting`, `getConflictingNames` and `close` are also forwarders and are left out for the same reason.
- The JGit writers are parameters: each mutator's `RefUpdate.Result`, each batch command's result, and the store after the write.
- Every read of the store goes to one `RefStore` value. Whether `delegate.exactRef` and `delegate.getRefs` see the same store within one call is not modelled.
- The older generation's `CachedRefRepository` and its `newUpdate`/`newRename` interceptors are not part of this model. Neither is the older `RefUpdateWithCacheUpdate`/`RefRenameWithCacheUpdate`, nor the gerritforge `NoOpRefByNameCache`.
- The older batch updater and the older `CachedRefDatabase` are modelled with the `RefByNameCacheImpl` name cache only. `RefByNameCacheWrapper` (googlesource, lines 34-35) falls back to `NoOpRefByNameCache` when no cache is bound; the per-thread and no-op caches are modelled on their own, and `NoOpAnswersStore` states what a database over the no-op cache reads.
- The older batch updater catches an `IOException` and rethrows it as `RuntimeException`. The model has no such path, because `exactRef` cannot throw it: a store failure inside the loader comes back from the cache as null. A command on an unreadable store instead fails with the `NullPointerException` of `Optional.of(null)` (`ReloadStepUnreadable`).
- `updateObjectIdCache` is called by the interceptors but is not implemented by `RefDatabaseCacheImpl`. It is modelled as `evictObjectIdCache`.
- Guava's `UncheckedExecutionException` is modelled as the exception it wraps.
- The no-op cache's `evict` has no state to change, so it has no member.
- RefByNameCache.NameCache.All: returns a set, not Guava's list, so the order and repeats of `all` are not stated.
- LegacyCachedRefDatabase.CachedRefDatabase.GetAllRefs: states the listed refs as a set; the order of the cache's entries is not stated.
- LegacyCachedRefDatabase.CachedRefDatabase.ExactRefs: the list the map is collected from is a ghost out-parameter, known by its members only.
- LegacyCachedRefDatabase.CachedRefDatabase.FirstExactRef: "first" is relative to the same ghost list, whose order is not tied to the cache.
- LegacyCachedRefDatabase.CachedRefDatabase.GetRefsByPrefix: states the answer against the same ghost list.
- LegacyCachedRefDatabase.CachedRefDatabase.GetRefsByPrefixes: states the answer against the same ghost list.
- RefRenameWithCacheUpdate.RefRenameWithCacheUpdate.Rename: follows `RenameCorrected`, which reads the destination from the store, not lines 92-101 as written. The written `refsCache.get(project, dst)` goes through `RefByNameCacheWrapper.get`, which calls a `get` that the `RefByNameCache` interface in this source does not declare, so what that read answers is not in the source; `RenameAsWritten` takes it to answer from the cached tree only, as `RefDatabaseCacheImpl.get` does.
- RefDatabaseCacheSpec.UpdateRefRestoresCoherence, RefDatabaseCacheSpec.EvictRestoresCoherence, RefUpdateWithCacheUpdate.RunKeepsCoherence, BatchRefUpdateWithCacheUpdate.BatchRestoresCoherence, RefRenameWithCacheUpdate.RenameRestoresCoherence, LegacyBatchRefUpdateWithCacheUpdate.ReloadRestoresAgreement: each assumes the store changed only at the written names. A write also changes every symbolic ref pointing at a written name, and the code re-reads only the written names, so for such stores the lemmas do not apply; the corrected `UpdateRefCorrected` covers that case for one name.
- CachedRefDatabase.ByPrefix: the database's `refDbCache` field is a `RefByNameCacheWrapper`, which does not declare the `get`, `containsKey`, `all` and `allByPrefix` that `CachedRefDatabase.java` lines 98, 151-152 and 167-168 call; those calls match the `RefDatabaseCache` interface. The model reads the field as `RefDatabaseCacheImpl`, and `allByPrefix(project, prefix)` as its `allByPrefixes` with that one prefix. `CachedRefDatabase.ExactRef`, `GetRefs`, `GetRefsByPrefix` and `GetRefsByPrefixes` rest on the same reading.
- Null is modelled only where the code handles it: a missing ref (`Option`), a ref without an object id (indexed under `None` in the older multimap), and the older multimap before initialisation.

## Findings

| source | as written | input that shows it | evidently intended | confidence | as-written member | corrected member |
|---|---|---|---|---|---|---|
| src/main/java/com/gerritforge/gerrit/plugins/cachedrefdb/RefDatabaseCacheImpl.java:141-148 | `isDuplicated` drops a prefix that *contains* the last kept one | prefixes `refs/heads/` and `refs/meta/refs/heads/` with ref `refs/meta/refs/heads/x`: the second prefix is dropped and the ref is not listed | drop a prefix only when it *starts with* the last kept one, so every ref under a requested prefix is listed | latent: the database lists one prefix at a time, so no modelled caller passes several prefixes; not executed | `PrefixPolicies.AsWrittenLosesMatches` | `PrefixPolicies.AllByPrefixesComplete` |
| src/main/java/com/gerritforge/gerrit/plugins/cachedrefdb/RefsByObjectIdCacheImpl.java:64-67 | `evict(String objectId)` invalidates a String key in a cache keyed by `ObjectId` | any cached id `X`: after `evict(X.name())` the entry for `X` is still there | invalidate the entry of that object id | not executed | `RefsByObjectIdCache.EvictByNameKeepsEntry` | `RefsByObjectIdCache.ObjectIdCache.EvictId` |
| src/main/java/com/gerritforge/gerrit/plugins/cachedrefdb/RefRenameWithCacheUpdate.java:92-101 | after a successful rename, the destination is read back with `refsCache.get(project, dst)` and the result is put back. The model takes that read to answer from the cached tree only, as `RefDatabaseCacheImpl.get` does; the `RefByNameCacheWrapper.get` it resolves to calls a method the `RefByNameCache` interface here does not declare | a loaded project whose tree lacks `dst`, renamed from `src`: the read gives null, `put(null)` throws NullPointerException, and `dst` stays missing from the cache | read the destination from the underlying database, as `updateRef` does, and put it | low: rests on the reading of `refsCache.get` above, and `src/test/java/com/gerritforge/gerrit/plugins/cachedrefdb/CachedRefDbIT.java` lines 180-204 expect a renamed branch to be read and listed through the cache; not executed | `RefRenameWithCacheUpdate.RenameAsWrittenLosesDestination` | `RefRenameWithCacheUpdate.RenameFindsDestination` |
| src/main/java/com/googlesource/gerrit/plugins/cachedrefdb/CachedRefDatabase.java:219-238 | the loader in `getAllRefsFromDelegate` puts into `refsByObjectId` before `lazilyInitRefMaps` has created it | `refresh()` on a new database (as the pre-load in `LibSysModule.java` lines 69-83 does) whose store holds a ref not yet cached: NullPointerException | create the multimap first, or skip indexing while it does not exist | not executed | `LegacyCachedRefDatabase.SeedAsWrittenOnNewDatabase` | `LegacyCachedRefDatabase.SeedStores` |
| src/main/java/com/googlesource/gerrit/plugins/cachedrefdb/CachedRefDatabase.java:164-170 | `firstExactRef` answers the first ref *in listing order* whose name is requested | a store holding `refs/heads/x` and `refs/tags/x` and nothing cached: the listing is the store's sorted list, so `firstExactRef("refs/tags/x", "refs/heads/x")` answers `refs/heads/x` | answer the ref of the earliest requested name that exists, as `RefDatabase.firstExactRef` does and as the current generation's forwarder gives | medium: when the cache already holds the project's refs the order is the cache's own; not executed | `LegacyCachedRefDatabase.FirstNamedIgnoresRequestOrder` | `LegacyCachedRefDatabase.FirstByNameIsEarliest` |
| src/main/java/com/gerritforge/gerrit/plugins/cachedrefdb/RefDatabaseCacheImpl.java:194-202 | `updateRef` re-reads only the written name, while the loader (lines 86-87) also cached every symbolic ref, whose value embeds its target | a store holding `HEAD` pointing at `refs/heads/master` at id1, loaded into the cache; `master` moves to id2 and `updateRef(master)` runs: the cached `HEAD` still reports id1, and `exactRef("HEAD")` answers it | also re-read the cached symbolic refs that point through the written name | medium: JGit stores a symbolic ref by its target's name, but the cached `Ref` value carries the target's object id; not executed | `RefDatabaseCacheSpec.UpdateRefLeavesSymbolicStale` | `RefDatabaseCacheSpec.UpdateRefCorrectedRestoresCoherence` |
