# Verified models of the SACAI platform, OpenWebUI and pystac-client

This project models the stateful stores, protocols, pagination loops and query encoders that
the platform is built on, and proves what they keep over every run and every input.

- **Task registry** (`RedisTasks`, `LocalTasks`). With Redis, operations are cut at their await
  points and interleave freely; without, two dictionaries are updated in place.
- **Configuration store** (`JsonTrees`, `ConfigDicts`, `ApiFragment`, `ConfigRepair`,
  `ConfigFlatten`, `ConfigStartup`, `ConfigFamilies`). Startup renames a key prefix, rebuilds
  dictionaries from flattened rows and seeds defaults. `JsonTrees` compares trees by what is
  found at each path.
- **Search pages** (`PageChain`, `CollectionPages`, `ItemPages`, `CatalogSearch`). A server maps
  links to pages. Each loop is measured against one expression over the chain of pages. The
  pystac generators become classes whose `Next` pulls one page; the chain may be endless as long
  as the search settles within some number of pages (`bound`), by the cap or by an end of chain.
- **Cleanup** (`Cleanup`, `CleanupHistory`, `StaleTargets`). Previews and executes are steps of a state machine in
  which the clock moves, files change, executes fail, are retried and overlap.
- **Access** (`AccessGrants`, `LegacyAccess`). Four readings of one table and a legacy form.
- **Notebook cells** (`CellOutput`). The event loop under a character budget.
- **Query encoding** (`Calendar`, `ExtentMatch`, `DictMerge`, `QueryList`, `SortAndFields`,
  `Queryables`).

`Wrappers`, `Strings` and `Sequences` hold shared helpers. A Python method that updates state is a
Dafny method proved against a function of the old state; the theorems are about that function.

Some stronger claims that the code or its documentation suggests are false. Each of these is
answered by a lemma that says exactly when it holds and one with an input for which it does
not: `RegistryIsSoundIff` (`StopBeforeSave`), `RegistryIsCompleteIff`
(`SaveBetweenCountAndDelete`), `DeletesAgainIff` (`CommittedTokenDeletesAgain`),
`SplitInvertsPrinting` (`LaterMarkerWins`), `OldLeafSurvivesIff` (`OldLeafIsReplaced`),
`AccessSurvivesIff` (`WriterIsForgotten`), `ReadOnlyFilterIff` (`PublicWriteIsKept`),
`MergeIsAssociativeIff` (`MergeIsNotAssociative`), `TemporalOverlapIff`
(`ReversedIntervalMatches`), `BoxOverlapIff` (`ReversedBoxMatches`), `DocumentedIff`
(`ThirdBringsItBack`), `FlagAsDocumentedIff` (`FlagIsNotCombined`). Two disagreements between
code and documentation follow the code: `get_merged_queryables` says a key with differing
definitions is dropped, but a later collection can put it back; and its comment says additional
properties become false when any collection forbids them, but the combined flag is never
stored.

Check the whole project with `dafny verify dfyconfig.toml`.

## Model

| member | source | states |
|---|---|---|
| `RedisTasks.RegistryIsSound` | source-code/open-webui/backend/open_webui/tasks.py:49-67 | However the segments of saves, cleanups and stops interleave, in every state of the run a member of an item's set is hashed to that item, and the hash holds exactly the tasks saved and not removed since, each with the item it was created for. Assumes each stop looks its id up after that id was saved. |
| `RedisTasks.RegistryIsSoundIff` | source-code/open-webui/backend/open_webui/tasks.py:57-67 | For every run: members stay hashed to their item throughout it if and only if no removal in it takes a task out of the hash that is in the set of another item than the one the removal names. |
| `RedisTasks.StopBeforeSave` | source-code/open-webui/backend/open_webui/tasks.py:145-163 | A run in which they do not: a stop reads the hash before the save, and later removes the task from the hash only. |
| `RedisTasks.RegistryIsCompleteIff` | source-code/open-webui/backend/open_webui/tasks.py:57-67 | The converse, for every run: each hashed task with an item is in its item's set at all times if and only if no delete in the run hits a set that holds a task hashed to the item, saved after the count. |
| `RedisTasks.OneStepCleanupIsComplete` | source-code/open-webui/backend/open_webui/tasks.py:64-65 | If nothing ever comes between a count of zero and its delete, that converse holds throughout. |
| `RedisTasks.SaveBetweenCountAndDelete` | source-code/open-webui/backend/open_webui/tasks.py:64-65 | With the two steps apart it fails: a concrete run in which a save lands between them and its task is missing from the set. |
| `RedisTasks.ListingIsExact` | source-code/open-webui/backend/open_webui/tasks.py:74-75 | While no members were lost, an item lists exactly its tasks saved and not removed since. |
| `RedisTasks.RemovedStaysRemoved` | source-code/open-webui/backend/open_webui/tasks.py:57-67 | A task once removed is in neither the hash nor any set in any later state of any timely run. |
| `RedisTasks.NothingIsLeft` | source-code/open-webui/backend/open_webui/tasks.py:57-67 | When every saved task has been removed, the hash and all sets are empty. |
| `LocalTasks.Registry.CreateTask` | source-code/open-webui/backend/open_webui/tasks.py:104-119 | The two dictionaries stay determined by the history of creations, finished callbacks and stops (`Valid`), and the task joins that history last. |
| `LocalTasks.Registry.CleanupTask` | source-code/open-webui/backend/open_webui/tasks.py:88-101 | Keeps `Valid`: the callback takes the task off the registry and off its item's list, dropping an empty list, and touches nothing of other items. |
| `LocalTasks.Registry.StopTask` | source-code/open-webui/backend/open_webui/tasks.py:165-169 | Succeeds exactly for a registered task, which leaves the registry but stays listed until its callback. |
| `LocalTasks.Registry.HasActiveTasks` | source-code/open-webui/backend/open_webui/tasks.py:198-201 | True exactly when some task created for the item has not had its callback run or, for a falsy item, whose list never shrinks, when any task was ever created for it. |
| `LocalTasks.FinishIsRemove` | source-code/open-webui/backend/open_webui/tasks.py:98-101 | Removing the first occurrence of a finished task from the list is the same as listing the unfinished tasks in creation order. |
| `LocalTasks.ListsAreExact` | source-code/open-webui/backend/open_webui/tasks.py:97-119 | In every reachable state the list of a truthy item is non-empty, free of duplicates, and holds exactly the tasks created for it whose callback has not run, in both directions, so every task still registered is listed. |
| `LocalTasks.AllFinished` | source-code/open-webui/backend/open_webui/tasks.py:88-101 | Once all callbacks have run no task is registered and only lists of falsy items remain. |
| `ApiFragment.SplitApiConfigFragment` | source-code/open-webui/backend/open_webui/models/config.py:54-76 | The loop of rfind calls finds the last marker of any known field, and cuts there or at a leading index. |
| `ApiFragment.SplitIsLossless` | source-code/open-webui/backend/open_webui/models/config.py:54-76 | Whenever a split is returned, key, dot and the path joined by dots give the fragment back; the key and the path are not empty and no path part holds a dot. |
| `ApiFragment.LaterMarkerWins` | source-code/open-webui/backend/open_webui/models/config.py:62-69 | A field path that recovery fails for: connection "u" with field "headers", "keyring" is split at ".key". |
| `ApiFragment.SplitInvertsPrinting` | source-code/open-webui/backend/open_webui/models/config.py:54-76 | Splitting a printed connection and field path recovers them if and only if the connection is a plain index with a non-empty field, or it does not begin with an index and is not empty, and the printed field path begins with a known field name and holds no later marker. |
| `ApiFragment.PrintedIndexIsRead` | source-code/open-webui/backend/open_webui/models/config.py:54-60 | A connection of decimal digits is read back with any field path but the empty one, whatever names are known. |
| `ApiFragment.KnownNamesAreRead` | source-code/open-webui/backend/open_webui/models/config.py:37-52 | Each of the twelve known names is read back as the field of any connection that does not begin with a digit. |
| `JsonTrees.AssignAtEveryPath` | source-code/open-webui/backend/open_webui/models/config.py:79-87 | What the walk does to every path of a tree: the value at and below its path, dictionaries above it, everything else unchanged. |
| `ConfigDicts.DictNode.AssignPath` | source-code/open-webui/backend/open_webui/models/config.py:79-87 | The walk on mutable dictionaries in place, of which each owns the ones below it: afterwards the structure stands for the tree that `Assign` describes. |
| `JsonTrees.AssignAllAtEveryPath` | source-code/open-webui/backend/open_webui/models/config.py:308-358 | A whole list of rows with prefix-free paths: each value ends up at its path, and what lies off all paths is as before. |
| `JsonTrees.AssignAllOffPaths` | source-code/open-webui/backend/open_webui/models/config.py:308-358 | Any list of rows, in conflict or not, leaves alone every path that none of them touches. |
| `JsonTrees.AssignAllOwnPath` | source-code/open-webui/backend/open_webui/models/config.py:308-358 | And a row that no other one is in conflict with has its value at its path. |
| `JsonTrees.OrderDoesNotMatter` | source-code/open-webui/backend/open_webui/models/config.py:308-358 | For prefix-free paths the tree depends neither on the order of rows nor on a row being visited twice. |
| `ConfigRepair.VisitRowsAssignsAll` | source-code/open-webui/backend/open_webui/models/config.py:322-346 | The row loop assigns exactly the rows that apply to the starting dictionary, and collects exactly those as orphans; whether a row applies does not change on the way. |
| `ConfigRepair.ListingDoesNotMatter` | source-code/open-webui/backend/open_webui/models/config.py:308-358 | When the rows' paths are prefix-free, any two answers of the row query that cover the family's rows, in any order, with repeats and foreign rows, give the same store and delete the same rows. |
| `ConfigRepair.RepairRestoresTree` | source-code/open-webui/backend/open_webui/models/config.py:308-358 | From rows that are the leaves of a dictionary without empty sub-dictionaries, printed readably, the repair rebuilds exactly that dictionary and marks all of them for deletion. |
| `ConfigRepair.DotFreeIsReadable` | source-code/open-webui/backend/open_webui/models/config.py:334-335 | Keys without dots make all rows of an ordinary family readable. |
| `ConfigRepair.SplittableIsReadable` | source-code/open-webui/backend/open_webui/models/config.py:328-333 | Rows of an API-connection family are readable when each leaf lies below its connection and its fragment splits where it was printed; connections may hold dots. |
| `ConfigFlatten.WalkBlob` | source-code/open-webui/backend/open_webui/migrations/versions/3ff2c63645b8_reshape_config_to_per_key_rows.py:443-459 | The flattening recursion makes one row of each value at a known key and of each other value that is no dictionary, unchanged and under the key joined on the way, and no other row; where two of these values get one key, one of them has the row. |
| `ConfigFlatten.EveryValueHasItsRow` | source-code/open-webui/backend/open_webui/migrations/versions/3ff2c63645b8_reshape_config_to_per_key_rows.py:451-458 | Where no two values get one key, every value has its own row. |
| `ConfigFlatten.DotFreeIsApart` | source-code/open-webui/backend/open_webui/migrations/versions/3ff2c63645b8_reshape_config_to_per_key_rows.py:451-452 | No two values get one key when no key holds a dot and no top-level key is empty, |
| `ConfigFlatten.ReadableIsApart` | source-code/open-webui/backend/open_webui/migrations/versions/3ff2c63645b8_reshape_config_to_per_key_rows.py:451-452 | and also when the repair can read every row key, which covers connections with dotted keys. |
| `ConfigFlatten.StopsAtLeaves` | source-code/open-webui/backend/open_webui/migrations/versions/3ff2c63645b8_reshape_config_to_per_key_rows.py:453-458 | Where no key below the prefix is known, the walk stops exactly at the leaves. |
| `ConfigFlatten.RepairUndoesFlattening` | source-code/open-webui/backend/open_webui/models/config.py:295-358 | Flatten one family's dictionary, then repair the whole store, with any rows of any other family in it: the result is what the repair makes of the store without the flattened rows, with the original dictionary put at its key. |
| `ConfigFlatten.NoFlattenedRowIsLeft` | source-code/open-webui/backend/open_webui/models/config.py:353-354 | After that no row of the family is left. |
| `ConfigStartup.FamiliesAreSeparate` | source-code/open-webui/backend/open_webui/models/config.py:304-354 | Repairing all families one after another, deleting orphans at the end, is as if each had been repaired alone from the original rows. |
| `ConfigStartup.RepairAllByKey` | source-code/open-webui/backend/open_webui/models/config.py:295-358 | The repaired store key by key: applied rows are gone, rewritten families hold their rebuilt dictionary, all else is unchanged. |
| `ConfigStartup.RowIsKeptIff` | source-code/open-webui/backend/open_webui/models/config.py:337-346 | A row whose place can be told from its key is deleted, unless it belongs to an API connection whose stored entry is no dictionary; then, and only then, it stays, with its value. |
| `ConfigStartup.StoredEntryIsKept` | source-code/open-webui/backend/open_webui/models/config.py:341-344 | That stored entry stays as it is. |
| `ConfigStartup.ConfigTable.RenamePrefix` | source-code/open-webui/backend/open_webui/models/config.py:261-292 | The row loop moves every row of the old prefix to its new key, where a row already under the new key wins, whatever order the rows come in: which keys there are afterwards, and with which values, is said of the rows before. |
| `ConfigStartup.ConfigTable.VisitFamily` | source-code/open-webui/backend/open_webui/models/config.py:322-346 | The row loop of one family computes the dictionary and the orphans that `VisitRowsAssignsAll` describes. |
| `ConfigStartup.ConfigTable.RepairFlattened` | source-code/open-webui/backend/open_webui/models/config.py:295-358 | The nested loops over families and rows leave the rows as `RepairAll` says; without persistence nothing changes. |
| `ConfigStartup.ConfigTable.SeedDefaults` | source-code/open-webui/backend/open_webui/models/config.py:237-258 | The keys afterwards are those of the rows and of the defaults together; every row is unchanged, and every default whose key had no row has its value. |
| `ConfigStartup.ConfigTable.SeedRegisteredDefaults` | source-code/open-webui/backend/open_webui/config.py:40-43 | The three startup steps together, after which every key with a default has a row. |
| `ConfigStartup.DefaultsAreSeeded` | source-code/open-webui/backend/open_webui/config.py:40-43 | After the whole startup every key with a default is there; it holds the default when it had no row, no row was moved to it and no flattened row made it a family's dictionary. |
| `ConfigStartup.StartupIsIdempotent` | source-code/open-webui/backend/open_webui/config.py:40-43 | Running the startup again changes no row of the store, whatever order the second queries answer in. |
| `ConfigStartup.OldValueKeepsItsRow` | source-code/open-webui/backend/open_webui/models/config.py:261-292 | An old-prefix value with no row under the new key is stored under the new key after startup, not replaced by a default, |
| `ConfigStartup.OldValueJoinsItsDictionary` | source-code/open-webui/backend/open_webui/models/config.py:322-346 | or, when its row belongs to a dictionary, is found at its path inside that dictionary, unless the path of another row runs through its own path or the other way round; conflicts among other rows do not matter, |
| `ConfigStartup.OldDictionaryKeepsItsEntries` | source-code/open-webui/backend/open_webui/models/config.py:319-358 | or, when it is such a dictionary, keeps every entry that no flattened row touches, whatever the rows do to each other. |
| `ConfigStartup.OldLeafSurvivesIff` | source-code/open-webui/backend/open_webui/models/config.py:319-350 | An old-prefix value that is no dictionary but lands on a dictionary's key survives if and only if no row of that family applies. |
| `ConfigFamilies.OldLeafIsReplaced` | source-code/open-webui/backend/open_webui/models/config.py:319-350 | A store of two rows whose old value is lost that way. |
| `ConfigFamilies.ApplicationRepairUndoesFlattening` | source-code/open-webui/backend/open_webui/models/config.py:295-358 | The round trip for each of the eleven families of the table, under its key or its alias: ordinary dictionaries without dots in keys, and API connections whose fields split where printed. |
| `ConfigFamilies.TableIsUnambiguous` | source-code/open-webui/backend/open_webui/models/config.py:23-52 | The store's own table meets the assumption of these theorems: none of its keys and aliases can be read as another one. |
| `ConfigFamilies.ApplicationStartupIsIdempotent` | source-code/open-webui/backend/open_webui/config.py:40-43 | Idempotence for that table and the prefixes "rag.web" and "web". |
| `PageChain.PageSource.Next` | source-code/pystac-client/pystac_client/stac_api_io.py:296-326 | One pull makes one request while a link is pending and ends at the first page without features and collections. |
| `PageChain.PartsAre` | source-code/pystac-client/pystac_client/stac_api_io.py:306-326 | The pages of the chain: the k-th holds the documents behind its k-th link, and the chain ends exactly at a missing link or a page without documents. |
| `PageChain.FilterKeeps` | source-code/pystac-client/pystac_client/collection_search.py:448-474 | Filtering a page keeps exactly the documents that pass; `FilterAppend` adds that it keeps their order. |
| `PageChain.SettledAgree` | source-code/pystac-client/pystac_client/stac_api_io.py:296-326 | However many pages past the deciding one are considered, the capped result is the same, so the result is well defined. |
| `PageChain.CutAtCap` | source-code/pystac-client/pystac_client/collection_search.py:476-486 | The negative slice cuts the page exactly where the running total meets the cap, and never to nothing. |
| `CollectionPages.CollectionStream.Next` | source-code/pystac-client/pystac_client/collection_search.py:432-494 | One pull of the generator in each of the three server modes: skips pages that filter to nothing, yields a non-empty page that continues the result, and requests pages in chain order, each while the cap is not met. |
| `CollectionPages.CollectionStream.StoppedIsComplete` | source-code/pystac-client/pystac_client/collection_search.py:432-494 | When the generator ends, its pages concatenate to the first collections of the chain, as many as wanted, that pass: the whole match without server-side search, the text match when the server cannot search text and there is one, and all of them otherwise. |
| `CollectionPages.CollectionList` | source-code/pystac-client/pystac_client/collection_search.py:517-534 | The list equals that result, in each of the three modes. |
| `CollectionPages.Matched` | source-code/pystac-client/pystac_client/collection_search.py:347-383 | Equals the count the first page reports when the server filters everything, that page has collections and the count is given and not 0, and the length of the list in all other cases. |
| `ItemPages.PagesAsDicts` | source-code/pystac-client/pystac_client/item_search.py:816-840 | The pages concatenate to the features of the chain, as many as wanted, where 0 wants all of them; none is empty, and the links were requested in chain order, each while that number was not met. |
| `CatalogSearch.SearchAll` | sacai-platform/openwebui_tools/stac_catalog.py:457-499 | Ends for every server whose links come from a finite set, even one that answers a link differently each time; returns the features up to the document where the chain ends, the limit is met or a link repeats; unless a link repeats these are the first `limit` features of the whole chain; is not truncated if and only if the chain ends cleanly and the reported count is not larger, and then nothing is missing. |
| `CatalogSearch.FeaturesAreObjects` | sacai-platform/openwebui_tools/stac_catalog.py:468-470 | A document yields all its objects and nothing else; `FeaturesAppend` adds that it keeps their order. |
| `CatalogSearch.ChainFollowsLinks` | sacai-platform/openwebui_tools/stac_catalog.py:460-496 | The chain begins with the first reply; from each document it goes on with the reply to the first "next" link, and it ends exactly where there is no such link. |
| `CatalogSearch.ReadsUpToOne` | sacai-platform/openwebui_tools/stac_catalog.py:467-496 | There is one such document, so the result is determined. |
| `CatalogSearch.SearchIds` | sacai-platform/openwebui_tools/stac_catalog.py:642-646 | An id reported as not found is the id of no object of any document of the chain; every selected id is returned, not found or unresolved; ids are only called not found when the result is complete. |
| `Cleanup.StepKeepsInv` | sacai-platform/service/app/cleanup.py:88-160 | Every step of every preview and execute, with failures, retries, overlaps and outside changes, keeps the invariant. |
| `Cleanup.CleanupIsSafe` | sacai-platform/service/app/cleanup.py:116-160 | In every run each deletion was listed in an unexpired preview of the same admin, lies below an approved root and was not begun after its token's commit; the audit trail of each execute is a prefix of its deletions, shorter by one at most. |
| `CleanupHistory.DeletionHasHistory` | sacai-platform/service/app/cleanup.py:88-160 | Behind every deletion of every run, read off the list of actions: an administrator previewed the listed path under the token; then the same administrator began this execute with that token, no later than the preview's time plus its lifetime; then a step of this execute resolved the path. |
| `CleanupHistory.RecordsAreDeletions` | sacai-platform/service/app/cleanup.py:136-154 | Every audit record of every run names a deletion that took place, with its run, token, user and path. |
| `Cleanup.CommitIsAudited` | sacai-platform/service/app/cleanup.py:157-160 | An execute that commits has all its deletions audited. |
| `Cleanup.DeletesOnlyListed` | sacai-platform/service/app/cleanup.py:134-156 | While listed paths resolve to themselves, every deleted path is a listed one, over all executes including retries. |
| `Cleanup.DeletesAgainIff` | sacai-platform/service/app/cleanup.py:128-160 | A committed token deletes again in some continuation if and only if another execute of it, begun before the commit, still has a target to visit. |
| `Cleanup.CommittedTokenDeletesAgain` | sacai-platform/service/app/cleanup.py:128-160 | Such a state is reached: a run from the start in which a stale directory is previewed, two executes of the preview begin, and the first one deletes it, records that and commits; and a continuation in which the directory is there again and the second one deletes it. |
| `StaleTargets.ListStale` | sacai-platform/service/app/cleanup.py:39-67 | The nested listing loops. |
| `StaleTargets.StaleIs` | sacai-platform/service/app/cleanup.py:50-66 | The list holds exactly the files directly under a root, the directories there without subdirectories, and the directories one level down, that are older than the cutoff. |
| `StaleTargets.TargetsAreApart` | sacai-platform/service/app/cleanup.py:39-67 | For disjoint roots no listed path equals another or lies inside it. |
| `StaleTargets.DeleteTargets` | sacai-platform/service/app/cleanup.py:133-156 | The deletion loop of an execute. |
| `StaleTargets.SweepIsExact` | sacai-platform/service/app/cleanup.py:134-156 | Pairwise apart targets that exist at the start still exist when their turn comes, so the deleted list is the target list, in order. |
| `StaleTargets.SweepLeaves` | sacai-platform/service/app/cleanup.py:134-156 | The loop takes away exactly the listed paths and all that listed directories hold; every other file is still there, unchanged. |
| `StaleTargets.UndisturbedIsSwept` | sacai-platform/service/app/cleanup.py:134-160 | Every run of one execute alone to its end does to the files what the deletion loop does, with every deletion on record and the preview marked executed. |
| `StaleTargets.UndisturbedRun` | sacai-platform/service/app/cleanup.py:134-160 | From every stage of an execute there is such a run. |
| `StaleTargets.BegunExecuteDeletesThePreview` | sacai-platform/service/app/cleanup.py:134-160 | An execute that has begun and runs alone to its end deletes exactly its list when that is a preview's, in any order. |
| `StaleTargets.ExecuteDeletesThePreview` | sacai-platform/service/app/cleanup.py:39-67 | A preview of disjoint approved roots, sorted or in any other order, then an execute of it to its end with nothing in between: deletes exactly the list, records exactly that, and leaves what no listed path holds. |
| `AccessGrants.AccessTable.HasAccess` | source-code/open-webui/backend/open_webui/models/access_grants.py:497-555 | The point check is the grant relation. |
| `AccessGrants.AccessTable.GetAccessibleResourceIds` | source-code/open-webui/backend/open_webui/models/access_grants.py:557-611 | The batch check is the set of given ids for which the same relation holds. |
| `AccessGrants.AccessTable.GetUsersWithAccess` | source-code/open-webui/backend/open_webui/models/access_grants.py:613-656 | A known user is listed if and only if the relation holds with the user's own groups and, where the grant is public, the user is not pending. |
| `AccessGrants.GrantedByOneOfThree` | source-code/open-webui/backend/open_webui/models/access_grants.py:520-555 | The relation, row by row: exactly one of three kinds of rows gives access, to everyone, to the user, or to one of the groups, each for this resource and permission; a grant is public exactly for the first. |
| `AccessGrants.FilterAgrees` | source-code/open-webui/backend/open_webui/models/access_grants.py:658-765 | The query filter, built from conditions as in the source: with a user given it keeps a document if and only if the user owns it or the relation holds; with groups only, what is public or granted to one of them; with neither, everything. |
| `AccessGrants.PermittedIsGranted` | source-code/open-webui/backend/open_webui/models/access_grants.py:658-765 | What the filters call permitted, which is defined without a user too, is the grant relation when a user is given. |
| `AccessGrants.ReadOnlyFilterIff` | source-code/open-webui/backend/open_webui/models/access_grants.py:767-877 | With a user or groups given, the read-only filter keeps what it is documented to keep, except exactly for documents everyone may write that are shared by name for reading only. |
| `AccessGrants.PublicWriteIsKept` | source-code/open-webui/backend/open_webui/models/access_grants.py:767-877 | A document of that kind. |
| `AccessGrants.AccessTable.GrantAccess` | source-code/open-webui/backend/open_webui/models/access_grants.py:283-320 | Adds the grant once; the table stays free of duplicates. |
| `AccessGrants.AccessTable.RevokeAccess` | source-code/open-webui/backend/open_webui/models/access_grants.py:322-343 | Takes exactly that grant away and says whether it was there. |
| `AccessGrants.GrantWidensExactly` | source-code/open-webui/backend/open_webui/models/access_grants.py:283-320 | Granting adds access for exactly the users the grant reaches. |
| `AccessGrants.RevokeNarrowsExactly` | source-code/open-webui/backend/open_webui/models/access_grants.py:322-343 | After revoking, access holds exactly where another grant gives it. |
| `AccessGrants.RevokeUndoesGrant` | source-code/open-webui/backend/open_webui/models/access_grants.py:322-343 | Revoking a grant that was just added restores the table. |
| `AccessGrants.NormalizeAccessGrants` | source-code/open-webui/backend/open_webui/models/access_grants.py:145-181 | Said of the raw entries: the grants are those that some entry gives with usable fields, each once, in the order of first occurrence, with the id of the last entry that gives it or a fresh one. |
| `AccessGrants.AccessTable.SetAccessGrants` | source-code/open-webui/backend/open_webui/models/access_grants.py:400-435 | The resource then has exactly the grants that the entries give, in the normalised order, and every other resource keeps its own; the table stays free of duplicates. |
| `LegacyAccess.AccessControlToGrants` | source-code/open-webui/backend/open_webui/models/access_grants.py:78-142 | The legacy value as rows, in the order the loops produce them. |
| `LegacyAccess.GrantsAreListed` | source-code/open-webui/backend/open_webui/models/access_grants.py:78-142 | The rows are exactly the groups and users listed for reading and for writing; null is everyone's reading, except of a file. |
| `LegacyAccess.GrantsToAccessControl` | source-code/open-webui/backend/open_webui/models/access_grants.py:232-274 | The rows as a legacy value, with lists deduplicated in first-occurrence order. |
| `LegacyAccess.ListedAreGranted` | source-code/open-webui/backend/open_webui/models/access_grants.py:232-274 | The value is null exactly when everyone may read; otherwise each of its four lists names exactly the principals of such grants, once. |
| `LegacyAccess.RoundTrip` | source-code/open-webui/backend/open_webui/models/access_grants.py:78-142 | To grants and back gives the normal form: lists deduplicated, permissions filled in, no entries the empty dictionary, public reading null, null on a file the empty dictionary. |
| `LegacyAccess.AccessSurvivesIff` | source-code/open-webui/backend/open_webui/models/access_grants.py:232-274 | The round trip keeps every user's access if and only if the value does not combine public reading with write entries or with the file type. |
| `LegacyAccess.WriterIsForgotten` | source-code/open-webui/backend/open_webui/models/access_grants.py:232-274 | A value that loses its writer that way. |
| `LegacyAccess.SetAccessControl` | source-code/open-webui/backend/open_webui/models/access_grants.py:362-398 | Replaces the resource's grants; a value that repeats an id violates uniqueness and then nothing is stored. |
| `CellOutput.ExecuteCode` | sacai-platform/service/app/notebook_runtime.py:124-197 | The event loop with its running budget equals collecting all own outputs first and fitting them afterwards; what it returns costs no more than the budget, or all but the last output does and that one is cut to the rest. |
| `CellOutput.KeptNext` | sacai-platform/service/app/notebook_runtime.py:182-196 | With each output the characters charged stay min(budget, total cost) and the kept outputs the fitted ones. |
| `CellOutput.FitIsPrefixAndOne` | sacai-platform/service/app/notebook_runtime.py:181-196 | The fitted list is a verbatim prefix of the outputs and at most one truncated output, there exactly when the budget runs out inside it. |
| `CellOutput.TruncatedIsCut` | sacai-platform/service/app/notebook_runtime.py:185-193 | Truncating keeps exactly the first characters of a stream's text or of plain text, as many as are left, and adds the marker; JSON data and tracebacks become stubs, and all else stays. |
| `CellOutput.ImagesAreNotCharged` | sacai-platform/service/app/notebook_runtime.py:173-180 | An output costs the same whatever image it holds, and without one the size of its text form. |
| `CellOutput.OthersDoNotMatter` | sacai-platform/service/app/notebook_runtime.py:136-141 | Messages of other requests and reads that time out never change the outcome. |
| `CellOutput.OutcomeAtIdle` | sacai-platform/service/app/notebook_runtime.py:144-147 | At idle the cell fails with its last error if it had one, whatever the budget, and otherwise returns its own outputs fitted to the budget. |
| `CellOutput.OtherOutcomes` | sacai-platform/service/app/notebook_runtime.py:131-197 | A cancellation, an image above twice the limit, or the deadline ends the cell in that way, whatever harmless messages came before. |
| `CellOutput.OneOtherDoesNotMatter` | sacai-platform/service/app/notebook_runtime.py:136-141 | A read that timed out, or a message of another request, changes nothing wherever it comes. |
| `CellOutput.ErrorTextIsStripped` | sacai-platform/service/app/notebook_runtime.py:166-167 | An error's text is name, colon and value without the white space at both ends. |
| `CellOutput.ErrorTextIsNotEmpty` | sacai-platform/service/app/notebook_runtime.py:166-167 | An error's text is never empty after stripping, so an error is never taken for none. |
| `Calendar.ExpansionIsExact` | source-code/pystac-client/pystac_client/item_search.py:392-409 | A valid date-time lies between the expanded start and end if and only if it lies in the period, leap years included. |
| `Calendar.ExpandsIff` | source-code/pystac-client/pystac_client/item_search.py:392-409 | A period expands if and only if a valid date-time lies in it and adding the period does not pass year 9999. |
| `Calendar.EndIsLastSecond` | source-code/pystac-client/pystac_client/item_search.py:392-409 | The end is valid, in the period, and 23:59:59. |
| `Calendar.PeriodsTile` | source-code/pystac-client/pystac_client/item_search.py:392-409 | The next year, month or day starts one second after the end of this one. |
| `Calendar.PeriodsNest` | source-code/pystac-client/pystac_client/item_search.py:392-409 | Day ranges lie in month ranges and month ranges in year ranges. |
| `Calendar.RangeCoversBothPeriods` | source-code/pystac-client/pystac_client/item_search.py:413-443 | A range of two partial dates holds exactly the date-times not before the first period and not after the second. |
| `Calendar.FormatOfOne` | source-code/pystac-client/pystac_client/item_search.py:423-432 | A partial date alone becomes the range of exactly its own date-times, a timestamp stays, with a zone, ".." stays open, and one that is not given, a date without a range, or a third component is an error. |
| `Calendar.OpenRanges` | source-code/pystac-client/pystac_client/item_search.py:433-438 | A range open at the end holds exactly what does not come before the period, one open at the start exactly what does not come after it; open at both ends by None is an error. |
| `ExtentMatch.TemporalOverlapIff` | source-code/pystac-client/pystac_client/collection_search.py:38-47 | The comparison means a shared instant if and only if neither interval is reversed with both its bounds inside the other. |
| `ExtentMatch.MissingBoundIsOpen` | source-code/pystac-client/pystac_client/collection_search.py:44-47 | A missing bound excludes no instant from year 1 to the last microsecond of year 9999. |
| `ExtentMatch.ReversedIntervalMatches` | source-code/pystac-client/pystac_client/collection_search.py:38-47 | A search and a reversed interval that match without a shared instant. |
| `ExtentMatch.BoxOverlapIff` | source-code/pystac-client/pystac_client/collection_search.py:50-54 | The comparison means a shared point, except exactly where both sides meet or are reversed inside one another and at least one is reversed. |
| `ExtentMatch.ReversedBoxMatches` | source-code/pystac-client/pystac_client/collection_search.py:50-54 | Two boxes that match without a shared point. |
| `ExtentMatch.ExtentMatches` | source-code/pystac-client/pystac_client/collection_search.py:57-108 | Both answers mean that some collection interval or box shares an instant or point with the search, unless one is reversed inside the other; a search without "/" is an error. |
| `DictMerge.DictMerge` | source-code/pystac-client/pystac_client/item_search.py:91-122 | The recursive in-place merge. |
| `DictMerge.MergeAtEveryPath` | source-code/pystac-client/pystac_client/item_search.py:91-122 | What is found at every path of the merge: what the second dictionary has there; nothing where it has a leaf above; and what the first one has everywhere else. |
| `DictMerge.MergeAbsorbs` | source-code/pystac-client/pystac_client/item_search.py:91-122 | Merging the same dictionary again changes nothing, with and without new keys. |
| `DictMerge.CoveredIsReplaced` | source-code/pystac-client/pystac_client/item_search.py:91-122 | Merging one dictionary over another shows nothing of the other if and only if it has all its keys, and so on below wherever both hold dictionaries. |
| `DictMerge.MergeIsAssociativeIff` | source-code/pystac-client/pystac_client/item_search.py:91-122 | Merging is associative if and only if nowhere a non-dictionary stands between two dictionaries of which the last lacks, in that sense, some key of the first. |
| `DictMerge.MergeIsNotAssociative` | source-code/pystac-client/pystac_client/item_search.py:91-122 | A concrete triple that shows the difference. |
| `QueryList.ParsingUndoesPrinting` | source-code/pystac-client/pystac_client/item_search.py:254-262 | Parameter, operator and value free of operator characters are read back exactly for all six operators. |
| `QueryList.SixConditionsAreRead` | source-code/pystac-client/pystac_client/item_search.py:77-87 | The six operators by symbol and name: ">=", "<=", "=", "<>", ">" and "<" are read as gte, lte, eq, neq, gt and lt. |
| `QueryList.ParseTakesFirst` | source-code/pystac-client/pystac_client/item_search.py:254-262 | For any text, the operator taken is the first one that splits it into exactly two parts, and there is none if no operator does. |
| `QueryList.OpsAreInOrder` | source-code/pystac-client/pystac_client/item_search.py:77-87 | No operator is found inside one that comes after it in the table. |
| `QueryList.ParseCondition` | source-code/pystac-client/pystac_client/item_search.py:254-262 | The loop over operators stops at the first one that splits the text in two, or finds none. |
| `QueryList.MergeEntry` | source-code/pystac-client/pystac_client/item_search.py:249-264 | One entry is merged as JSON or as a condition, is skipped, or fails. |
| `QueryList.FormatQuery` | source-code/pystac-client/pystac_client/item_search.py:247-268 | The loops over entries and operators equal folding the merge over the list, and fail where an entry does. |
| `QueryList.OneEntryMore` | source-code/pystac-client/pystac_client/item_search.py:247-264 | One entry more: JSON that is no dictionary fails; a JSON dictionary wins at every path; a text that no operator splits in two changes nothing; an error stays. |
| `QueryList.QueryKeepsConditions` | source-code/pystac-client/pystac_client/item_search.py:247-268 | For a list of printed conditions, each parameter and operator in it is in the result, with the value given last, and no others; values of "gsd" are held as numbers, and the list fails if and only if one of them is none. |
| `SortAndFields.SortbyRoundTrip` | source-code/pystac-client/pystac_client/item_search.py:486-515 | For every text, parsing the printed sort order gives it back. |
| `SortAndFields.PrintedSortbyIsRead` | source-code/pystac-client/pystac_client/item_search.py:486-515 | Any non-empty sort order on fields without commas is read back from its print, signs included. |
| `SortAndFields.FieldsToDict` | source-code/pystac-client/pystac_client/item_search.py:538-548 | The loop over signed fields. |
| `SortAndFields.PrintedFieldsAreRead` | source-code/pystac-client/pystac_client/item_search.py:524-554 | Any two lists of fields without commas, not both empty, are read back from their print. |
| `SortAndFields.FieldsRoundTrip` | source-code/pystac-client/pystac_client/item_search.py:524-554 | For every text, parsing the printed fields gives them back. |
| `Queryables.MergeOne` | source-code/pystac-client/pystac_client/client.py:377-381 | Popping keys from both sides and then updating leaves exactly the keys without disagreement. |
| `Queryables.MergeQueryables` | source-code/pystac-client/pystac_client/client.py:362-382 | The loop over collections is the fold of that merge, with the first collection's flag for additional properties. |
| `Queryables.FlagAsDocumentedIff` | source-code/pystac-client/pystac_client/client.py:372-374 | That flag is false exactly when some collection forbids additional properties, as the comment says, if and only if no later collection forbids what the first one allows. |
| `Queryables.FlagIsNotCombined` | source-code/pystac-client/pystac_client/client.py:366-382 | Two collections for which it is not. |
| `Queryables.KeysAreIndependent` | source-code/pystac-client/pystac_client/client.py:367-381 | The outcome for a key depends only on its own definitions, in order. |
| `Queryables.KeptIs` | source-code/pystac-client/pystac_client/client.py:377-381 | What the fold leaves of a key with any number of definitions: the last one if, counted back from it, an even number of definitions in a row differ from the one before them, and nothing if an odd number do. |
| `Queryables.DocumentedIff` | source-code/pystac-client/pystac_client/client.py:345-347 | A key is kept exactly when all its definitions agree, as documented, if and only if they do agree or that number is odd. |
| `Queryables.TwoDifferentAreDropped` | source-code/pystac-client/pystac_client/client.py:377-380 | A key that exactly two of any number of collections define, differently, is dropped. |
| `Queryables.ThirdBringsItBack` | source-code/pystac-client/pystac_client/client.py:377-381 | Of three collections, the third puts back the key that the second made the loop drop. |

## Left out

- HTTP, Redis, SQLite and SQLAlchemy: a Redis pipeline is one atomic step, tables are maps or lists, and a dictionary changed in place counts as stored.
- Hashing, uuids and clocks: distinct previews have distinct tokens, task ids are fresh, times are inputs. `updated_at` timestamps are not modelled.
- RedisTasks.RegistryIsSound: assumes that a stop reads the hash after the save of its id; `RegistryIsSoundIff` says what holds without that.
- `stop_item_tasks` without Redis: it iterates the live list that callbacks shrink, so it can skip tasks; nothing is claimed of it.
- LocalTasks.Registry.StopTask: ends at the await; waiting for the cancelled task and the result messages are not modelled.
- Row queries by LIKE: a listing may be any answer that covers the family's rows, with rows that do not belong. For the rename the listing is exactly the rows under the prefix; SQLite's case-insensitive LIKE is not modelled.
- ConfigDicts.DictNode.AssignPath: the turn of the source's loop is a recursive call on the next dictionary; the value assigned shares no dictionary with the target. The store-wide theorems use trees as values, so two conflicting rows that share one dictionary object are not modelled.
- ConfigFlatten.WalkBlob: which of two values with one row key is kept depends on the order of the dictionary and is not said; JSON leaves are opaque texts; lists are leaves.
- ApiFragment.SplitApiConfigFragment: `isdigit` is ASCII only.
- CollectionPages.CollectionStream.Next: a cap of 0 counts as no cap, as in the code; user modifiers that change pages, `lru_cache` and the free-text matcher are not modelled (the matchers are parameters).
- PageChain.PageSource.Next: the link's method and body, request parameters and failures of a request.
- CatalogSearch.SearchAll: POST bodies and their merging; replies of the server are a function of the request number and link.
- Cleanup.CleanupIsSafe: a preview's row and its audit event are one step; OpenWebUI file ids are carried along by the code and not modelled; what a listed path resolves to is an input of each step.
- Cleanup.StepKeepsInv: removing one target is one step. A directory removal that fails half-way can take part of a listed directory with it, and then neither a deletion nor an audit event is recorded; the model's failing execute changes no files.
- Cleanup.DeletesAgainIff: overlapping executes of one token are not excluded, because the code checks `executed_at` only once at the start; so "a committed token never deletes again" holds only without such an overlap.
- StaleTargets.ListStale: file times and kinds are those of one listing; concurrent changes while listing are not modelled. Sorting is covered by allowing any order.
- AccessGrants.FilterAgrees: documents and grants are values; joins and other parts of the query are not modelled.
- AccessGrants.ReadOnlyFilterIff: a user id or groups are given; without both the built query has an empty choice, whose meaning is SQLAlchemy's.
- Sharing helpers that strip or look up grants by resource: simple comprehensions.
- Calendar.ExpansionIsExact: text parsing by regular expression and rendering of date-times are left out; components arrive parsed. Instants have whole seconds.
- ExtentMatch.ExtentMatches: boxes have two dimensions and real coordinates, without rounding; parsing of instants is left out.
- Queryables.MergeQueryables: starts from the first collection's schema; the error for an empty list, the conformance check and the removal of `$id` are not modelled.
- QueryList.FormatQuery: `json.loads` and `float` are parameters; dictionaries passed as the whole query are returned as they are and need no model.
- CellOutput.ErrorTextIsStripped: stripping knows four white-space characters, not all of Unicode; that the text is not empty does not depend on which as long as a colon is none.
- CellOutput.ExecuteCode: the size of an encoded output is a parameter; JSON conversion of values is not modelled. Reading stops when the list of ticks ends, which stands for the deadline.
- Regular-expression parsing of natural language in the catalogue tool, image processing, ISIS wrappers, Celery and LangGraph wiring, full-text search, front end and build files.
