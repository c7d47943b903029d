# Verified model of the HomeGraph core

HomeGraph indexes a repository into a SQLite graph of nodes and edges and answers questions over it. These modules
model the parts of it that carry state, loops or ordering, and prove what they promise. SQL statements, npm, the file
system and the event loop are small specified primitives; everything the TypeScript around them does is written out,
loop by loop and branch by branch. Classes that update their fields are classes here, proved against functions on
values, and the promises are lemmas about those functions.

| module | models |
|---|---|
| `NodeCache`, `NodeCacheLru` | the node table behind its 1000-entry LRU cache, under transactions that roll back |
| `Transactions` | the adapter's nested `transaction`, and the per-file bundle it makes atomic |
| `EdgeStore` | first-wins edge inserts, greedy multi-row batches, the endpoint-checking path |
| `Migrations` | schema upgrades under failures and reopens, and the version 6 deduplication |
| `NameVocab` | the segment vocabulary behind its bounded "already written" memo |
| `RefDrain`, `RetryRefs` | draining the pending references page by page; choosing the failed ones to retry |
| `BulkLoad` | the full-text bulk-load window with a crash possible between any two statements |
| `AffectedSearch` | the breadth-first search of `homegraph affected` |
| `CallPaths`, `ChainKeys`, `ChainRanking`, `CallPathsSection` | the budgeted call-path search, its ranking and sub-path filter |
| `SubgraphTrim`, `FileCap` | the node, file and test budgets of a context, and edge recovery; who stays in a crowded file |
| `MutexProtocol` | the async mutex as interleaved steps of its callers |
| `Semver`, `Addons` | version order, and the addon store's install and update transactions |
| `Common` | the option type, and that an unused number always exists |
| `Text`, `DfmForm`, `DfmLines`, `DfmPrint` | line handling; the Delphi form parser; its patterns; printed forms and their round trip |
| `Glob`, `GitHook` | the CLI's glob translation and its `post-commit` marker block |

## Where the code and its description part

The model follows the code. Each point below is a lemma or method with the failing case, next to the exact condition
under which the promise holds.

* Cached nodes: a rollback does not touch the cache. The cache stays coherent exactly when it holds no row that the
  transaction changed (`NodeCache.QueryBuilder.Rollback`); a lookup of such a row makes the next lookup wrong
  (`StaleAfterRollback`). The store's own transactions only write, so they are safe (`WritesRollBackCleanly`).
* Reading a row that is still cached makes a full cache give up its oldest row for nothing
  (`NodeCacheLru.LoadKeepsNewest`); `getNodesByIds` does so for an id it misses in two of its chunks.
* The segment memo has a wider gap. It can be trusted after a rollback exactly when the transaction wrote no
  new entry for a memoised name (`NameVocab.Vocabulary.Rollback`); otherwise the entry is left out when the name is
  written again (`LostAfterRollback`, `NameLostInNewStore`). A file bundle that is rolled back after its nodes is of
  this kind.
* If SQLite itself rolls a transaction back under a failing statement, `ROLLBACK` throws too, and the depth counter
  stays at one (`Transactions.StuckExactly`). Later "transactions" then commit every statement by itself
  (`DurableWhenStuck`, `NextTransactionSplits`). The transaction at hand is still all or nothing exactly unless a
  statement that works follows the one that ended it (`OutermostIsAtomic`, `CaughtEndingSplits`).
* The comment on opening a database promises a repaired full-text index. `INSERT OR REPLACE` over a stored id fires no
  delete trigger, because `recursive_triggers` is off; the stale entry survives every open while the three triggers are
  there (`BulkLoad.WriteInStep`, `StrandInNewDatabase`).
* Cleanup by key tuple, the form the row-id cleanup replaced, leaves nothing pending, but attempts every reference exactly
  when same-key references are never two pages apart (`RefDrain.KeyStore.Drain`, `KeyCleanupSkipsSibling`).
* A kept call chain is meant to hide only its sub-paths. The test is a substring test on joined ids; with the ids cut at
  the separators in them, it is the sub-path test exactly up to the first piece being a suffix and the last one a prefix
  of the pieces they meet (`ChainKeys.IncludesIsLooseSubPath`). For hashed ids it is the sub-path test
  (`HashedIncludesIsSubPath`). An `rn-export:` id ends in a name, so where one exported name begins another, a chain that
  ends at the one is dropped behind the same chain to the other (`ExportTakenForLongerName`).
* An entry point evicted by the node cap or the per-file cap stays in the list of roots; only the test cap takes its
  nodes off the list. `SubgraphTrim.DanglingRoots` says when by counting the nodes that come first, and
  `SixthEntryPointDangles` is an instance.
* Recovered edges are compared by a colon-joined key. A found edge is missed exactly when one with the same key, cut at
  another colon, comes before it (`SubgraphTrim.RecoveredExactly`, `KeyDecides`). That takes a target that ends, after a
  colon, in another one (`RecoveryIsComplete`), which hashed targets and files without a colon in the path never do
  (`OneColonTargetsApart`); files with one can (`ColonInPathLosesEdge`, `FilesRecut`).
* Versions are gated only as far as they parse: a text that is no version compares equal to everything
  (`Addons.Store.DowngradeThroughJunk`).
* Calling a mutex release closure a second time breaks exclusion exactly when the mutex is held
  (`MutexProtocol.StrayRelease`). `withLock` never does.
* A collection inside a collection ends the skip early, unless collections are nested in last items only
  (`DfmPrint.CollectionIsSkipped`): an item's `end` then closes a component. The text of a form gives its edges and
  handlers exactly when, within each component, no component or event follows a collection nested otherwise or a
  component that holds one (`TextParsesExactly`). `NestedCollectionMovesComponent` is a form whose inner component gets
  the wrong parent, `NestedCollectionAtEnd` one where the same collection does no harm.
* A begin marker without an end marker makes the hook commands drop the user's lines behind it
  (`GitHook.UnclosedBlockSwallows`). The first reinstall over a hook with nothing else in it adds a blank line; later
  ones change nothing (`GitHook.InstallSettles`).
* `affected --depth` with a non-number means no limit, since no depth is `>=` not-a-number (`AffectedSearch`, `Depth`).

## Model

| member | source | states |
|---|---|---|
| `NodeCache.QueryBuilder.InsertNode` | src/db/queries.ts:371-435 | a refused node changes nothing; otherwise the row is replaced and its cache entry dropped, and the cache stays coherent with both the open transaction's table and the one a rollback would restore |
| `NodeCache.QueryBuilder.UpdateNode` | src/db/queries.ts:495-558 | only an existing row changes; the entry is dropped even when the node is refused |
| `NodeCache.QueryBuilder.DeleteNode` | src/db/queries.ts:563-570 | row and entry go together |
| `NodeCache.QueryBuilder.DeleteNodesByFile` | src/db/queries.ts:575-586 | dropping entries by their own path reaches every entry whose row goes |
| `NodeCache.QueryBuilder.GetNodeById` | src/db/queries.ts:710-731 | the answer is the table's row, hit or miss; a hit moves to the end, a found miss is added |
| `NodeCache.QueryBuilder.GetNodesByIds` | src/db/queries.ts:748-783 | the answer is what uncached lookups give, whatever was cached, repeated or split into chunks |
| `NodeCache.QueryBuilder.CacheNode` | src/db/queries.ts:807-816 | a full cache loses its oldest entry before the new one joins |
| `NodeCache.QueryBuilder.Rollback` | src/db/queries.ts:204-206 | the cache is coherent after a rollback exactly when no cached row was changed by the transaction |
| `NodeCache.QueryBuilder.StaleAfterRollback` | src/db/queries.ts:710-731 | from any state, looking up a changed row and rolling back makes the next lookup return the row taken back |
| `NodeCache.QueryBuilder.Run` | src/db/queries.ts:371-586 | over every run that rolls back cleanly, the cached store answers as a store without a cache and ends in the same table |
| `NodeCache.WritesRollBackCleanly` | src/db/queries.ts:440-490 | a run without lookups always rolls back cleanly |
| `NodeCache.AddBounds` | src/db/queries.ts:804-816 | the cache never exceeds 1000 entries and its keys stay distinct |
| `NodeCache.RefusedExactly` | src/db/queries.ts:373-384 | a node is refused exactly when one of its five required columns is empty |
| `NodeCache.WritesMean` | src/db/queries.ts:371-586 | what each write does to the row of any id, said row by row |
| `NodeCache.AllOrNothing` | src/db/sqlite-adapter.ts:247-270 | a transaction keeps all it did when committed and nothing when rolled back |
| `NodeCacheLru.CacheIsTail` | src/db/queries.ts:371-816 | over every run of writes, lookups, batch lookups, clears and transactions the cache is a tail of the order in which rows were last handed out: every evicted row is older than every cached one |
| `NodeCacheLru.AfterKeepsTail` | src/db/queries.ts:710-816 | each operation keeps it so |
| `NodeCacheLru.CacheIsMostRecent` | src/db/queries.ts:204-206 | over every run that leaves no gap the cache is exactly the last 1000 rows of that order, least recent first |
| `NodeCacheLru.LoadKeepsNewest` | src/db/queries.ts:807-816 | reading a row leaves a gap exactly when the cache is full and will still hold the row |
| `NodeCacheLru.DropKeepsNewest` | src/db/queries.ts:563-570 | invalidating a row leaves a gap exactly when it was cached while others are evicted |
| `NodeCacheLru.DropFileKeepsNewest` | src/db/queries.ts:575-586 | invalidating a file leaves one exactly when a row of it was cached while a row of another file is evicted |
| `Transactions.Adapter.RunTransaction` | src/db/sqlite-adapter.ts:247-270 | BEGIN is issued at depth zero only; the depth returns to its entry value unless the outermost ROLLBACK threw |
| `Transactions.Adapter.Run` | src/db/sqlite-adapter.ts:247-270 | the same for every program of writes, nested transactions, throws and catches, with statements and COMMIT or ROLLBACK that end the transaction on their own |
| `Transactions.InsideStaysInside` | src/db/sqlite-adapter.ts:248-257 | inside a transaction a program executes exactly the statements it reaches and issues no transaction statement |
| `Transactions.DepthFollowsRollbacks` | src/db/sqlite-adapter.ts:247-270 | whether the counter is left at one is exactly whether a ROLLBACK threw |
| `Transactions.OutermostLeaves` | src/db/sqlite-adapter.ts:258-270 | a normal return leaves the sequential effects; an exception leaves the state at BEGIN and what was written after a statement had ended the transaction |
| `Transactions.OutermostIsAtomic` | src/db/sqlite-adapter.ts:258-270 | an outermost transaction is all or nothing exactly unless a statement that works is reached after one that ended the transaction |
| `Transactions.AutocommittedNone` | src/db/sqlite-adapter.ts:258-270 | nothing commits by itself exactly when no working statement follows an ending one |
| `Transactions.StuckExactly` | src/db/sqlite-adapter.ts:258-270 | the counter is left at one exactly when the transaction was ended from outside or ROLLBACK was not done |
| `Transactions.OutermostSucceeds` | src/db/sqlite-adapter.ts:258-270 | with BEGIN, COMMIT and ROLLBACK done it throws exactly when its body does or a statement ended the transaction |
| `Transactions.DurableWhenStuck` | src/db/sqlite-adapter.ts:249-256 | with the counter stuck, every statement that works is durable at once; if the transaction is still open, only what follows its end |
| `Transactions.NextTransactionSplits` | src/db/sqlite-adapter.ts:247-270 | after a transaction SQLite ended, the next one throws and leaves half of itself durable |
| `Transactions.CaughtEndingSplits` | src/db/sqlite-adapter.ts:247-270 | a caught statement that ended the transaction leaves what follows durable although the transaction throws |
| `Transactions.CaughtInnerEffectsStay` | src/db/sqlite-adapter.ts:248-257 | an inner transaction whose exception is caught is not undone |
| `Transactions.AllRowsOrNone` | src/db/sqlite-adapter.ts:247-270 | a transaction without handlers lands all of its rows in order or none, whichever statement fails and ends it |
| `Transactions.BundleLandsWholeOrNot` | src/db/queries.ts:459-490 | on an idle connection a file's nodes, edges, references and record, with their inner transactions, become durable together or not at all |
| `Transactions.BundleSplitsWhenStuck` | src/db/queries.ts:459-490 | with the counter stuck, a bundle lands exactly as far as it gets |
| `EdgeStore.Edges.InsertEdge` | src/db/queries.ts:1709-1726 | the first edge of an identity wins; an ignored one uses up an id; an edge whose nodes are not both stored is refused and changes nothing |
| `EdgeStore.Edges.InsertEdges` | src/db/queries.ts:1731-1749 | the table gains exactly the edges whose two endpoints are stored, in order |
| `EdgeStore.Edges.GetExistingNodeIds` | src/db/queries.ts:785-802 | chunked lookup finds exactly the stored ids |
| `EdgeStore.RunBatched` | src/db/queries.ts:255-287 | the statements concatenate to the rows in order, have 128, 32, 8 or 1 rows, and number at most n/128 + 13 |
| `EdgeStore.Edges.InsertBatched` | src/db/queries.ts:465-486 | greedy batches leave the table one-by-one inserts leave |
| `EdgeStore.IdentityTellsApart` | src/db/migrations.ts:79-102 | two edges count as one exactly when ends and kind are equal and coordinates are, an absent one being -1 |
| `EdgeStore.NewRows` | src/db/queries.ts:1709-1726 | every new row is an edge of the list, the first of its identity, with the id its place in the list gives it |
| `EdgeStore.FirstWins` | src/db/queries.ts:1709-1726 | inserting keeps identities unique and ids ascending, keeps every old row, and stores an edge only if it is the first of its identity |
| `EdgeStore.InsertedIdentities` | src/db/queries.ts:1709-1726 | the identities held afterwards are exactly those held or inserted |
| `EdgeStore.StatementsInsertAll` | src/db/queries.ts:259-287 | how rows are grouped into statements does not matter |
| `EdgeStore.SpentBound` | src/db/queries.ts:257-287 | the number of statements, exactly, and that no row is left over |
| `EdgeStore.SameTable` | src/db/queries.ts:459-490 | with all endpoints stored, the bundle path and `insertEdges` give the same rows with the same ids |
| `Migrations.Connection.GetCurrentVersion` | src/db/migrations.ts:159-169 | whatever versions the database was created with, the recorded maximum is that of the last migration applied, or theirs |
| `Migrations.Connection.RunMigrations` | src/db/migrations.ts:183-200 | each pending migration is applied once, in ascending order, exactly up to the first that throws, which leaves no trace |
| `Migrations.Connection.Open` | src/db/index.ts:140-156 | opening applies exactly what is missing |
| `Migrations.Connection.Reopen` | src/db/index.ts:140-156 | under any history of failing opens, what is applied is a prefix of the plan; one open without a failure completes it |
| `Migrations.MaxIsMaximum` | src/db/migrations.ts:159-169 | the recorded version is the highest recorded, or zero |
| `Migrations.PendingIsAscending` | src/db/migrations.ts:183-191 | the pending migrations are exactly those above the version, ascending |
| `Migrations.PendingShrinks` | src/db/migrations.ts:183-191 | after some of the pending migrations, exactly the others are pending |
| `Migrations.AscendingIsUnique` | src/db/migrations.ts:183-191 | there is only one ascending order |
| `Migrations.DedupKeepsLowest` | src/db/migrations.ts:79-102 | a row survives exactly when it has the lowest id of its identity, absent coordinates counting as -1 |
| `Migrations.DedupIsUnique` | src/db/migrations.ts:79-102 | afterwards the unique index is valid and no identity is lost |
| `Migrations.DedupTwice` | src/db/migrations.ts:79-102 | running it again changes nothing |
| `NameVocab.Vocabulary.InsertNameSegments` | src/db/queries.ts:594-606 | with a memo that can be trusted the table gains the name's segments and nothing else, skipped or not |
| `NameVocab.Vocabulary.ClearNameSegmentVocab` | src/db/queries.ts:615-618 | table and memo are emptied together |
| `NameVocab.Vocabulary.Run` | src/db/queries.ts:594-618 | over every run of writes, wipes and transactions whose rollbacks take nothing new back, the table is what a writer without a memo leaves |
| `NameVocab.VocabularyIsNamesSinceClear` | src/db/queries.ts:612-618 | that is exactly the segments of the segmentable names written since the last wipe |
| `NameVocab.Vocabulary.Rollback` | src/db/queries.ts:201-202 | the memo can be trusted after a rollback exactly when the transaction wrote no new entry for a memoised name |
| `NameVocab.Vocabulary.LostAfterRollback` | src/db/queries.ts:594-606 | whenever it did, writing that name again leaves the entry out |
| `NameVocab.NameLostInNewStore` | src/db/queries.ts:594-606 | a new store, a name rolled back and written again: the vocabulary stays empty |
| `RefDrain.RefStore.DeleteReferencesByRowIds` | src/db/queries.ts:2245-2266 | exactly the given rows go, and the count is theirs |
| `RefDrain.RefStore.MarkReferencesFailedByRowIds` | src/db/queries.ts:2276-2289 | exactly the given rows are parked with their name tail, and the count is what the updates touched |
| `RefDrain.RefStore.Persist` | src/resolution/index.ts:1148-1187 | chunked deleting and parking is one delete and one park, the changes reported are theirs, and a batch of stored rows always changes something |
| `RefDrain.RefStore.Drain` | src/resolution/index.ts:1721-1917 | every reference pending at the start is attempted once, in row-id order, and none stays pending, whatever the page size; unresolved ones are left failed under their name tails, all other columns as they were |
| `RefDrain.NameTailIsTail` | src/db/queries.ts:124-127 | the tail is a suffix of the name without dot or colon, and the whole name or what follows one of them |
| `RefDrain.TailIsUnique` | src/db/queries.ts:124-127 | a name has one such tail |
| `RefDrain.ParkRows` | src/db/queries.ts:2276-2289 | parking changes the status and stores the tail, and no other column and no other row |
| `RefDrain.DrainedIsSettled` | src/resolution/index.ts:1721-1917 | row by row: what was not pending stays, what did not resolve is parked under its tail, and nothing else is left |
| `RefDrain.CountIdsIs` | src/db/queries.ts:2276-2289 | each id given counts once, if its row is stored |
| `RefDrain.SeekIsDrop` | src/db/queries.ts:2165-2183 | seeking past the last row read gives exactly the rest |
| `RefDrain.PageUnaffected` | src/db/queries.ts:2157-2164 | settling earlier rows does not disturb a later page, so it may be read ahead |
| `RefDrain.PersistIsAttempt` | src/db/queries.ts:2237-2289 | deleting and parking by row id settles exactly the batch |
| `RefDrain.NextBatch` | src/resolution/index.ts:1721-1917 | the page read ahead continues where the current one ends |
| `RefDrain.DrainedHasNoPending` | src/db/queries.ts:2123-2131 | the pending count ends at zero |
| `RefDrain.KeyCleanupAttemptsAll` | src/db/queries.ts:2530-2543 | cleanup by key tuple attempts every reference exactly when same-key references are never two pages apart |
| `RefDrain.WithoutKeysExactly` | src/db/queries.ts:2530-2543 | deleting by key takes exactly the rows equal to a given reference in source, name and kind |
| `RefDrain.ParkKeysRows` | src/db/queries.ts:2222-2235 | parking by key parks exactly those |
| `RefDrain.CountKeyIs` | src/db/queries.ts:2222-2235 | a reference counts each row with its key |
| `RefDrain.KeyPersistedSeek` | src/db/queries.ts:2222-2235 | deleted or parked by key, exactly the same-key siblings of a batch stop being pending with it |
| `RefDrain.KeyStore.DeleteSpecificResolvedReferences` | src/db/queries.ts:2530-2543 | every row with the key of a given reference goes, and the count is theirs |
| `RefDrain.KeyStore.MarkReferencesFailed` | src/db/queries.ts:2222-2235 | every row with the key of a given reference is parked, and the count is what the updates touched |
| `RefDrain.KeyStore.Drain` | src/resolution/index.ts:1721-1917 | the loop with that cleanup, whatever resolves: the guard never ends it early, nothing is left pending, and all was attempted exactly when siblings are close |
| `RefDrain.KeyCleanupSkipsSibling` | src/db/queries.ts:2530-2543 | with pages of one row, a same-key reference two pages on is never attempted |
| `RetryRefs.GetRetryableFailedReferences` | src/db/queries.ts:2300-2341 | the two chunked passes return exactly the failed references with a listed, not too common tail, each once per loading chunk that lists its tail |
| `RetryRefs.RetryNamesHold` | src/db/queries.ts:2303-2316 | where the chunks of the counting pass fall does not matter to which tails survive |
| `RetryRefs.SurvivorsPerChunk` | src/db/queries.ts:2303-2316 | a surviving tail is listed once per counting chunk that names it |
| `RetryRefs.ReturnedPerChunk` | src/db/queries.ts:2319-2328 | a row comes back once per loading chunk that lists its tail |
| `RetryRefs.EachOnce` | src/db/queries.ts:2319-2328 | no row comes back twice exactly when no tail with failed rows is in two loading chunks |
| `BulkLoad.WriteInStep` | src/db/queries.ts:371-376 | with the triggers on, a write leaves the index in step exactly when it displaces no stored row |
| `BulkLoad.WriteMeans` | src/db/queries.ts:371-376 | what each write does to the stored nodes, by id |
| `BulkLoad.Connection.BeginBulkNodeLoad` | src/db/index.ts:183-187 | the triggers go before any row of the window is written, or the process died |
| `BulkLoad.Connection.EndBulkNodeLoad` | src/db/index.ts:195-198 | rebuild, then triggers: wherever it is cut off, a full set of triggers implies an index in step |
| `BulkLoad.Connection.HealBulkNodeLoad` | src/db/index.ts:369-377 | an open ends with all three triggers, and repairs an index left behind by a cut-off window |
| `BulkLoad.Connection.WriteNode` | src/db/index.ts:176-187 | a write inside or outside a window keeps the crash invariant |
| `BulkLoad.Connection.Session` | src/db/index.ts:140-167 | one process executes exactly the statements it sets out to, in order, as far as it lives, and keeps the invariant |
| `BulkLoad.Connection.Life` | src/db/index.ts:140-167 | over any sequence of such processes, an open completes exactly when the triggers are there or four statements suffice, and then has the triggers, and an index in step unless an entry was stranded |
| `BulkLoad.Connection.StrandedSurvivesOpen` | src/db/index.ts:158-162 | re-storing a stored id leaves the index out of step across an open |
| `BulkLoad.Connection.StrandInNewDatabase` | src/db/queries.ts:371-376 | a new database, one id stored twice, an open: the index still holds the old entry |
| `BulkLoad.TriggerCount` | src/db/index.ts:370-376 | counting three triggers is having all three |
| `AffectedSearch.WalkIsSettled` | src/bin/homegraph.ts:2018-2038 | no path is shorter than the recorded distance: the visited set hides none |
| `AffectedSearch.SearchIsComplete` | src/bin/homegraph.ts:2018-2038 | with the queue empty exactly the files within the limit were visited |
| `AffectedSearch.Expand` | src/bin/homegraph.ts:2023-2037 | scanning one file's dependents keeps the first-in-first-out argument |
| `AffectedSearch.SearchFrom` | src/bin/homegraph.ts:2018-2038 | finds exactly the tests to which some path through non-test files leads in one to n steps, or in any number without a limit, on any graph |
| `AffectedSearch.Affected` | src/bin/homegraph.ts:2006-2039 | the tests among the changed files, plus every test reached so from the others |
| `CallPaths.BuildAdjacency` | src/context/index.ts:345-352 | exactly the `calls` edges inside the subgraph, callers in the order of their first call |
| `CallPaths.StartsAreRight` | src/context/index.ts:371-374 | the search starts exactly from the first five listed roots that call something, or without roots from the first five callers |
| `CallPaths.Search.Dfs` | src/context/index.ts:358-370 | restores `seen`; reports only flows extending its path, and all of them unless the budget ran out |
| `CallPaths.FindChains` | src/context/index.ts:355-375 | the first 2000 calls do work and no other; with budget left, the chains are exactly the complete simple paths of three to six nodes from those starts |
| `ChainKeys.JoinMore` | src/context/index.ts:388 | a key is the ids with `>` between them |
| `ChainKeys.PrefixKey` | src/context/index.ts:388-391 | for any ids: a key is a prefix of another exactly when their pieces are equal but for the last one, which is a prefix |
| `ChainKeys.IncludesIsLooseSubPath` | src/context/index.ts:389-390 | for any ids: what the substring test decides, exactly |
| `ChainKeys.IncludesIsSubPath` | src/context/index.ts:389-390 | where no piece ends or begins another, it is the sub-path test on the pieces |
| `ChainKeys.PartsJoin` | src/context/index.ts:388 | cutting ids at the separators in them leaves the key as it is |
| `ChainKeys.SubPathIncluded` | src/context/index.ts:389-390 | every sub-path is caught |
| `ChainKeys.KindsAreUnrelated` | src/types.ts:18-41 | no kind of node ends another |
| `ChainKeys.HashedIdsAreUnaffixed` | src/extraction/tree-sitter-helpers.ts:18-30 | no hashed id ends or begins another |
| `ChainKeys.HashedIncludesIsSubPath` | src/extraction/tree-sitter-helpers.ts:18-30 | so for hashed ids the test is the sub-path test |
| `ChainKeys.ExportTakenForLongerName` | src/resolution/frameworks/react-native.ts:388 | a chain that ends at an exported method is dropped behind the same chain to one whose name continues it, though it is no sub-path |
| `ChainRanking.RootCountCounts` | src/context/index.ts:384 | the rank counts the places of a chain that hold a root |
| `ChainRanking.SortRanks` | src/context/index.ts:386 | chains are ordered by roots, then length |
| `ChainRanking.SubPathRanksAfter` | src/context/index.ts:381-386 | a longer chain comes before its sub-paths |
| `ChainRanking.Keep` | src/context/index.ts:387-393 | the kept chains are ranked and none hides a later one; whatever is left out is covered, or ranks behind the third kept |
| `ChainRanking.Select` | src/context/index.ts:385-393 | at most three relevant chains, none a contiguous sub-path of another; every other relevant one is covered or ranks behind them |
| `CallPathsSection.FlowIsWorthShowing` | src/context/index.ts:358-385 | in terms of edges, starts and roots: which chains the search finds and the filter lets pass |
| `CallPathsSection.KeptChains` | src/context/index.ts:344-394 | from subgraph to shown chains: each follows `calls` edges from one of the first five starts through three to six different nodes to where it cannot go on, past two roots; none is part of another, and every such chain left out is covered or ranks behind the third |
| `SubgraphTrim.MergeEdges` | src/context/index.ts:1116-1124 | merging a traversal's edges adds no duplicate and misses none |
| `SubgraphTrim.NeighboursHavePriority` | src/context/index.ts:1131-1140 | both ends of every edge at an entry point have priority |
| `SubgraphTrim.TrimToMax` | src/context/index.ts:1130-1163 | priority nodes first, then the others in order, up to the budget |
| `SubgraphTrim.EntryPointsSurvive` | src/context/index.ts:1142-1149 | if the entry points fit the budget none is lost to it |
| `SubgraphTrim.CapPerFile` | src/context/index.ts:1170 | the least whole number that is five at least and no less than a fifth of the budget |
| `SubgraphTrim.CapTests` | src/context/index.ts:1203 | the least whole number that is three at least and no less than fifteen percent of the budget |
| `SubgraphTrim.TrimPerFile` | src/context/index.ts:1170-1196 | every file loses exactly its overflow, whatever order the files come in |
| `SubgraphTrim.LeftOfFile` | src/context/index.ts:1193-1196 | a file keeps its cap, or all it had |
| `SubgraphTrim.EvictedRankNoHigher` | src/context/index.ts:1180-1196 | no evicted node outranks a retained one of its file |
| `SubgraphTrim.SurvivesFile` | src/context/index.ts:1178-1196 | a node survives its file's cap exactly when fewer nodes than the cap go before it, by rank and then by order |
| `SubgraphTrim.PlaceIsAhead` | src/context/index.ts:1185-1191 | the sort puts a node behind exactly those |
| `FileCap.KeptExactly` | src/context/index.ts:1178-1196 | a node survives its file's cap exactly when fewer nodes of the file than the cap are preferred to it: entry points, then types, then code, then the rest, then the earlier |
| `FileCap.EntryPointsOutlast` | src/context/index.ts:1185-1196 | no entry point is evicted while another node of its file is kept |
| `FileCap.KindsOutlast` | src/context/index.ts:1180-1196 | among equals in that, a type outlasts a method or function, and those the rest |
| `FileCap.EntryPointsFit` | src/context/index.ts:1170-1196 | the entry points of a file all stay when there are no more of them than the cap |
| `FileCap.EntryPointStays` | src/context/index.ts:1127-1218 | end to end: an entry point outside test files is in the result when the entry points fit the budget and its file's cap |
| `SubgraphTrim.SurvivesTrim` | src/context/index.ts:1130-1158 | a node survives the cap on nodes exactly when fewer than `maxNodes` come before it |
| `SubgraphTrim.SortIsStable` | src/context/index.ts:1185-1191 | nodes of equal rank keep their order |
| `SubgraphTrim.SortFalls` | src/context/index.ts:1185-1191 | the ranking is by falling rank |
| `SubgraphTrim.TrimTests` | src/context/index.ts:1202-1218 | the later test-file nodes go, from the nodes and from the roots |
| `SubgraphTrim.TestsLeft` | src/context/index.ts:1210-1217 | the earliest test-file nodes stay, exactly up to the cap |
| `SubgraphTrim.BudgetsHold` | src/context/index.ts:1127-1218 | the node, per-file and test budgets hold together at the end |
| `SubgraphTrim.RecoveredDistinct` | src/context/index.ts:1232-1241 | recovery adds no second edge with one source, target and kind |
| `SubgraphTrim.RecoveredCovers` | src/context/index.ts:1235-1241 | every edge found is there, or one with its key |
| `SubgraphTrim.EdgesAre` | src/context/index.ts:1220-1241 | the edges of the result are those there were between its nodes and the stored calls, extensions, implementations, references and overrides between them |
| `SubgraphTrim.RecoveredExactly` | src/context/index.ts:1225-1241 | for any ids: exactly which edges are there after recovery |
| `SubgraphTrim.RecoveryIsComplete` | src/context/index.ts:1225-1241 | whatever the sources, no found edge is missed when no target ends, after a colon, in another |
| `SubgraphTrim.OneColonTargetsApart` | src/extraction/tree-sitter-helpers.ts:18-30 | targets with one colon, hashed ids and files without a colon in the path, never do |
| `SubgraphTrim.KeyDecides` | src/context/index.ts:1232-1236 | for any ids: two edges share the key exactly when they agree or are the same text cut at two colons |
| `SubgraphTrim.ColonInPathLosesEdge` | src/extraction/tree-sitter.ts:498 | for any two paths: of the edges from `p` to `file:q` and from `p:file` to `q` one is lost |
| `SubgraphTrim.FilesRecut` | src/extraction/tree-sitter.ts:498 | between files, exactly which paths make edges share a key |
| `SubgraphTrim.TrimSubgraph` | src/context/index.ts:1127-1243 | the result is closed under its edges, without duplicate edges, and holds the nodes the three caps leave |
| `SubgraphTrim.DanglingRoots` | src/context/index.ts:1193-1218 | a listed root is no node of the result exactly when `maxNodes` nodes come before it, or as many of its file as the cap allows |
| `SubgraphTrim.SixthEntryPointDangles` | src/context/index.ts:1170-1196 | with a budget of 20, the sixth of six entry points in one file |
| `SubgraphTrim.FoundHolds` | src/db/queries.ts:1823-1837 | exactly the stored edges of the kinds with both ends among the nodes |
| `MutexProtocol.StepKeepsInv` | src/utils.ts:384-400 | one holder, each waiter queued once, and an unlocked mutex with waiters has a woken one, whoever barges in |
| `MutexProtocol.SomeStepEnabled` | src/utils.ts:384-400 | until all are done some step is possible: no wake-up is lost |
| `MutexProtocol.StepDecreases` | src/utils.ts:384-400 | every step makes progress |
| `MutexProtocol.EveryRunCompletes` | src/utils.ts:405-412 | n calls of `withLock` take at most 3n steps, never two inside, and a run that cannot go on has all done |
| `MutexProtocol.WokenInOrder` | src/utils.ts:384-400 | over every run callers are woken in the order in which they queued up |
| `MutexProtocol.StrayRelease` | src/utils.ts:393-399 | a second call of a release closure is harmless exactly when the mutex is unlocked |
| `MutexProtocol.StrayReleaseBreaksExclusion` | src/utils.ts:393-399 | otherwise the next caller joins the holder |
| `MutexProtocol.Mutex.Acquire` | src/utils.ts:384-392 | takes a free lock or queues, and keeps the invariant |
| `MutexProtocol.Mutex.ReleaseBy` | src/utils.ts:393-399 | unlocks and wakes the first waiter |
| `Semver.CompareIsPrecedence` | src/addons/semver.ts:14-71 | on version texts, the order of section 11 of Semantic Versioning 2.0.0, antisymmetric, zero exactly up to build metadata, leading `v` and leading zeros |
| `Semver.ParsesExactly` | src/addons/semver.ts:14-15 | exactly which texts are versions, and that major, minor, patch and prerelease are read as they stand there |
| `Semver.TextIsRead` | src/addons/semver.ts:14-15 | every text built from such parts is read as those parts |
| `Semver.ReadIsText` | src/addons/semver.ts:14-15 | nothing else is read |
| `Semver.ComparesTexts` | src/addons/semver.ts:60-71 | on the texts themselves, the comparison is section 11's precedence of their parts |
| `Semver.JunkComparesEqual` | src/addons/semver.ts:60-63 | a text that is no version compares equal to everything |
| `Semver.CompareIsTransitive` | src/addons/semver.ts:60-71 | the order is transitive |
| `Semver.LowerIsTransitive` | src/addons/semver.ts:24-71 | so is precedence itself, pre-release lists included |
| `Semver.ListsAgree` | src/addons/semver.ts:24-50 | pre-release lists: first difference decides, numeric before alphanumeric, shorter prefix first |
| `Semver.SameNumber` | src/addons/semver.ts:65-69 | leading zeros, and nothing else, make different digits equal |
| `Semver.LeadingV` | src/addons/semver.ts:14-15 | one leading `v` is ignored |
| `Semver.BuildMetadata` | src/addons/semver.ts:14-15 | build metadata is ignored |
| `Addons.Store.UpsertEntry` | src/addons/registry.ts:93-102 | replaces in place or appends |
| `Addons.UpsertInPlace` | src/addons/registry.ts:89-102 | position kept, names unique, nothing else changed |
| `Addons.Store.RemoveEntry` | src/addons/registry.ts:107-113 | exactly the entries of the name go, and the answer says whether there were any |
| `Addons.RemoveDrops` | src/addons/registry.ts:107-113 | an entry survives exactly when it has another name |
| `Addons.Store.SetEntryEnabled` | src/addons/registry.ts:119-131 | one flag of one entry changes |
| `Addons.Store.BackupAddonPackage` | src/addons/manager.ts:223-234 | the package moves out, or there was none |
| `Addons.Store.RestoreAddonPackage` | src/addons/manager.ts:243-263 | whatever npm left is replaced by the backup |
| `Addons.Store.InstallAddon` | src/addons/manager.ts:283-361 | success exactly when gate, npm and validation pass; a failure leaves the registry and a registered package as they were, and says what else is left on disk |
| `Addons.Store.UpdateAddon` | src/addons/manager.ts:433-485 | no entry is added, removed or moved; of the targets reached exactly those that validated change version; it throws exactly at the first target that must not or cannot be updated |
| `Addons.AllTried` | src/addons/manager.ts:438-441 | without a name every entry is a target, with one exactly the entry of that name |
| `Addons.UpdateStep` | src/addons/manager.ts:447-483 | one target's update changes one entry at most |
| `Addons.GateKeepsNoneLower` | src/addons/manager.ts:319-330 | an install the gate lets pass lowers no version of an addon so trusted |
| `Addons.Store.Run` | src/addons/manager.ts:283-361 | over any run of installs no entry moves, and no version goes down of an addon whose own requests resolve, install what they resolve to and parse |
| `Addons.Store.DowngradeThroughJunk` | src/addons/manager.ts:319-330 | by way of an unparseable version two accepted installs reach any version |
| `DfmForm.DfmExtractor.ParseComponents` | src/extraction/dfm-extractor.ts:79-158 | the line loop is the stack machine the lemmas are about |
| `DfmForm.StepKeepsInv` | src/extraction/dfm-extractor.ts:91-157 | any line keeps the stack a path of the tree from the file down |
| `DfmForm.AnyInputGivesTree` | src/extraction/dfm-extractor.ts:79-158 | for any lines the edges are a tree rooted at the file, one earlier parent per component |
| `DfmLines.ObjectLineExactly` | src/extraction/dfm-extractor.ts:83 | exactly which lines declare a component, and what name and type are read |
| `DfmLines.EventLineExactly` | src/extraction/dfm-extractor.ts:84 | exactly which lines bind an event, and what handler is read |
| `DfmLines.OpenerExactly` | src/extraction/dfm-extractor.ts:86-87 | exactly which lines open a skipped property |
| `DfmLines.CloserExactly` | src/extraction/dfm-extractor.ts:95-98 | exactly which lines end one |
| `DfmLines.EndLineExactly` | src/extraction/dfm-extractor.ts:85 | exactly which lines end a component |
| `DfmLines.WordLetters` | src/extraction/dfm-extractor.ts:83-84 | a word is made of ASCII letters, digits and underscores |
| `DfmPrint.ParsePrinted` | src/extraction/dfm-extractor.ts:79-158 | a printed form, read from any position, adds its components in preorder, its parent relation and its handlers on their innermost component, and restores the stack |
| `DfmPrint.PrintedFormParses` | src/extraction/dfm-extractor.ts:79-158 | the same for the text of a whole form |
| `DfmPrint.ObjectLineOf` | src/extraction/dfm-extractor.ts:83 | an object line yields its name and type |
| `DfmPrint.EventLineOf` | src/extraction/dfm-extractor.ts:84 | an event line yields its handler and is no object line |
| `DfmPrint.SkipEndsAtFirstClose` | src/extraction/dfm-extractor.ts:95-109 | a property is skipped up to the first line ending in its closing character |
| `DfmPrint.EarlyCloseExposesRest` | src/extraction/dfm-extractor.ts:95-109 | what follows that line inside the property is read as form lines |
| `DfmPrint.RunItems` | src/extraction/dfm-extractor.ts:95-109 | what reading a collection's items does, collections in them included: how many components it closes |
| `DfmPrint.NoPopsIsTame` | src/extraction/dfm-extractor.ts:95-109 | none exactly when collections are nested in last items only |
| `DfmPrint.CollectionIsSkipped` | src/extraction/dfm-extractor.ts:95-109 | a collection property leaves no trace exactly then |
| `DfmPrint.RunForm` | src/extraction/dfm-extractor.ts:79-158 | what reading any printed form does, from any position and whatever its collections are |
| `DfmPrint.ParsesExactlyTame` | src/extraction/dfm-extractor.ts:79-158 | a form read inside a component adds what it stands for and leaves that component open exactly when all its collections are of that kind |
| `DfmPrint.AgreesExactlyRight` | src/extraction/dfm-extractor.ts:111-157 | inside a component, edges and handlers are the form's own exactly when no component or event follows a collection not of that kind, or a component that holds one |
| `DfmPrint.TextParsesExactly` | src/extraction/dfm-extractor.ts:79-158 | the text of any form: components in preorder, the file alone left open, and edges and handlers the form's own exactly when that holds inside every component |
| `DfmPrint.NestedCollectionMovesComponent` | src/extraction/dfm-extractor.ts:95-157 | a printed form whose inner component gets the file for a parent |
| `DfmPrint.NestedCollectionAtEnd` | src/extraction/dfm-extractor.ts:95-157 | the same collection at the end of its component: not of that kind, and harmless |
| `Glob.PipelineIsSinglePass` | src/bin/homegraph.ts:1389-1397 | the five replacements are one left-to-right pass, for every pattern |
| `Glob.EscapeWrites` | src/bin/homegraph.ts:1391 | escaping touches literals only |
| `Glob.StarStarStage` | src/bin/homegraph.ts:1392 | the second stage rewrites double stars only |
| `Glob.StarStage` | src/bin/homegraph.ts:1393 | the third stage rewrites the remaining stars only |
| `Glob.QuestionStage` | src/bin/homegraph.ts:1394 | the fourth stage rewrites question marks only |
| `Glob.PlaceholderStage` | src/bin/homegraph.ts:1395 | the last stage rewrites exactly the placeholders of the second |
| `Glob.BraceIsNoPlaceholder` | src/bin/homegraph.ts:1391-1395 | no brace of the pattern completes a placeholder |
| `Glob.TranslationIsReversible` | src/bin/homegraph.ts:1389-1397 | different patterns have different regexes |
| `GitHook.Strip` | src/bin/homegraph.ts:3000-3009 | keeps exactly the lines outside every block |
| `GitHook.OutsideExactly` | src/bin/homegraph.ts:3000-3009 | a line is kept exactly when it is no marker and no begin marker before it is still unclosed |
| `GitHook.InstalledLines` | src/bin/homegraph.ts:2996-3016 | the lines of an installed hook, one by one: what is kept, the markers, and the generated lines between them |
| `GitHook.Install` | src/bin/homegraph.ts:2996-3016 | what is written, over a hook or without one |
| `GitHook.Uninstall` | src/bin/homegraph.ts:3063-3097 | deletes, rewrites or leaves the hook alone |
| `GitHook.ExactlyOneBlock` | src/bin/homegraph.ts:2996-3016 | after any install over any text there is exactly one block |
| `GitHook.Reinstall` | src/bin/homegraph.ts:2998-3013 | a reinstall replaces the block and keeps the user's part |
| `GitHook.InstallSettles` | src/bin/homegraph.ts:2996-3016 | a second install changes the text exactly when the first had nothing to keep; a third never does |
| `GitHook.InstallThenUninstall` | src/bin/homegraph.ts:3071-3096 | uninstalling gives the trimmed user text back, or deletes a hook that was only a shebang |
| `GitHook.UnclosedBlockSwallows` | src/bin/homegraph.ts:3000-3009 | everything behind an unclosed begin marker is dropped |
| `Text.CoreIsTrim` | src/bin/homegraph.ts:3003 | trimming leaves the core without white space at its ends, whatever is around it |
| `Text.SpaceCodes` | src/bin/homegraph.ts:3003 | which characters are white space |
| `Text.LinesUnlines` | src/bin/homegraph.ts:3001-3010 | joining lines and splitting the text gives the lines back |

## Left out

* SQL text, FTS ranking and LIKE search in `searchNodes` and `findRelevantContext`: their results depend on SQLite and on scoring tables.
* `rebind`: it swaps the database under the cache and the memo without clearing them, so no cache claim is made across it.
* Which object a cached lookup returns: nodes are values here, so a caller that changes a returned node in place is not modelled.
* JSON encoding of columns, default values and the statement caches (`stmts`, `batchStmts`): columns no result depends on are folded into one field.
* Hash collisions of node ids: a form component is identified by its name and line, as if the hash were injective.
* The wall-clock, worker pool and WAL handling of the resolution loop: `RefDrain` takes which references resolve as a parameter and keeps the paging, the read-ahead and the guard.
* `getUnresolvedReferencesBatch` with an offset, and the bulk deletes by node or file: they would add only easy members.
* The order in which SQLite returns grouped tails and `IN` rows: `RetryRefs` fixes one, and its contract does not mention order.
* The npm process, `resolveTargetVersion`, `validateAddonPackage`: their outcomes are parameters. File operations succeed.
* The install path that learns a name by comparing `node_modules`, and addon removal with `--purge`: the first has no gate and no backup, the second is a registry removal.
* `updateAddon` has no version gate, so the monotone-version result is about installs only.
- Addons.Store.Run: says nothing about the version of an addon one of whose requests does not resolve, installs something else or does not parse; `DowngradeThroughJunk` shows why for the last.
- Semver.CompareIsPrecedence: numbers are naturals, so components above 2^53, where `parseInt` rounds, are not captured.
- GitHook.Install: the generated script between the markers is any list of lines without a line break or a marker in them; a binary path with a line break in it is not captured.
- DfmPrint.PrintedFormParses: the lines of a skipped property do not end in its closing character (`EarlyCloseExposesRest` says what happens when one does), and in a collection printed item by item they are no object, event or `end` lines either.
- NameVocab.Vocabulary.Run: a rollback that takes a new entry back is outside it; `LostAfterRollback` is that case.
- Transactions.Adapter.Run: a program is fixed in advance, so a caller that chooses its next statement by what it reads is not captured.
- SubgraphTrim.BudgetsHold: the budgets 0.2 and 0.15 are exact fractions and `maxNodes` is an integer.
- MutexProtocol.EveryRunCompletes: callbacks of `withLock` end; a caller that never ends holds the lock for good.
* How the context search fills the subgraph before trimming, and the text the call-path section prints: traversal and formatting.
* The glob of `affected --filter`: a shorter pipeline of the same shape, matched anywhere in a path; `isTest` is a parameter.
* What a translated glob matches: `Glob` is about the regex text.
* `FileLock`: removing a stale lock file and creating the new one are two steps, so exclusion does not follow from the code.
* Healing of dropped secondary indexes: opening a database does not run the schema again.
* The resolver, orchestrator, watcher, MCP server, formatter output, templates, keyword tables and evaluation scripts.
