# CartoDB: reconciliation, locks, migrations and small compilers, verified

A Dafny model of the algorithmic parts of the CartoDB Rails application, and proofs about them.
`dafny verify dfyconfig.toml` checks the whole project. Each module follows one source file or one
layer of it.

| module | what it models |
|---|---|
| `TableFacades`, `AlteredTables` | the two id-sorted lists of ghost-table reconciliation, their merge and the four classes of stale entries |
| `SyncPass`, `Convergence`, `OnePass`, `UserTables` | one pass of row changes whose failures are swallowed, repeated passes, the order of a pass, and the rows as an object that the facade methods update |
| `Bolt` | the Redis lock with its TTL and its reschedule flag, as a state machine over any number of processes and a clock |
| `LockedSync` | passes run under the lock, interleaved step by step, while users change the catalogue |
| `UuidMigration`, `MigrationScript`, `RelationGraph` | the integer-to-UUID migration of a relational store, for any relation graph, as functions and as the script's loops; the script's own graph |
| `ImportSwap`, `ImportOutcome`, `Importer` | the importer's renames, drops and moves over a connection with transactions that can be aborted, as functions, told from the inputs alone, and as the importer object |
| `FormatterTranslation` | the geocoding formatter compiler, against a reader of its output |
| `QueryRewriter`, `ReplacementText` | the whole-word table rename in SQL text, against token replacement, and what `gsub` makes of backslashes in a new name |
| `IpRanges` | address ranges, the mask predicates, `prefix` and `normalize` |
| `GeocodingBilling` | overage credits and their price over many runs |
| `Release` | version bumps and the changelog round trip |
| `Wrappers` | the option type they share |

Where the source changes something step by step the model does too: the merge loop, `sync` and the
facade methods, the migration script's nested loops, the importer, the shifting loop of `prefix`,
`Version#bump` on an array and the `news_sections` loop are methods, each proved equal to (or an
instance of) a function or relation about which the lemmas are stated.

## What the proofs found

- **Convergence of reconciliation.** If renames and creations fail only on a name that another row
  holds, passes reach the catalogue if and only if the pending renames form no cycle. Two tables
  that swapped names never get their rows back in sync, however often the pass is repeated. One
  pass is enough if and only if every name that is wanted is free, or held by a row whose own rename
  comes earlier: renames go in the order of ids, so a chain of renames whose ids run the other way
  needs more than one pass.
- **Reschedule throttling.** Over any run, fail calls are at most locked executions plus one. But
  "at most one call between two resets" is true of the grants of the flag, not of the calls: a
  process granted the flag just before a reset may call after it. The exact condition is that no
  granted call is outstanding at the reset; a run whose holders are all in time shows that one can be.
- **Overwriting a table.** The swap is all-or-nothing, but it does not always say which. The index
  rename swallows its error inside the transaction; if that statement fails and there are no
  support tables to run into the aborted transaction, COMMIT rolls everything back and the
  overwrite goes on as if it had succeeded, with the old contents still in place. In the other
  direction, a call that raises after COMMIT (while cartodbfying, restoring permissions or
  persisting metadata) leaves the new contents in place. The target holds the imported contents
  exactly when the transaction's block raises nothing and the index rename has not failed silently.
- **Rolling back the migration.** `rollback` restores the database exactly if and only if none of
  the new columns existed before `schema`; otherwise it drops a column the script did not add.
- **Formatter.** The translation preserves meaning if and only if no field name has a comma in it
  or whitespace around it.
- **Query rewriting.** The fold over renamed tables is simultaneous substitution if and only if no
  later renaming changes a word of an earlier new name. That no new name equals a later old name
  is not enough. One rename is token replacement by the new name itself if and only if no backslash
  in the new name begins a sequence that `gsub` expands; table names have none.
- **Address ranges.** Looking at the base address alone decides the whole range exactly from these
  prefix lengths on: private 13 (IPv4) and 6 (IPv6), link-local 15 and 9, loopback 8 and 128. The
  address blocks are those of section 3 of RFC 1918, section 3.1 of RFC 4193, section 2.1 of
  RFC 3927, sections 2.5.3 and 2.5.6 of RFC 4291 and section 3.2.1.3 of RFC 1122.
- **`clean` with a missing table.** The rescue around dropping an old id refers to a variable that
  is not in scope there, so a missing table ends the stage instead of being ignored
  (script/migrate_to_uuid.rb:414-418). The model stops there too.

## Modelling choices

- A table facade is its id and name; all facades of one manager share the user.
- Row changes are atomic: they succeed and obey the unique index on names, or change nothing.
  Which steps the persistence layer refuses is left open in every theorem about passes.
- A pass reads the catalogue in one step and compares it with the rows in another; users may change
  the catalogue at any time, in between too. Only the lock holder changes rows.
- A Redis command is one step; a key set with PX is gone when the clock reaches its expiry.
- A database statement may fail for any reason; `Faults` says which ones do. A failed statement in a
  transaction aborts it, and COMMIT of an aborted transaction rolls back without raising. What
  follows COMMIT is six calls for an overwrite and one for the metadata, any of which may raise.
- Word characters are a parameter of the query model, so the results hold for the source's class of
  letters, digits, `_` and `$` and for every other choice.
- Geocoding prices are reals. The usage counter is taken to count every high-resolution `heremaps`
  run once and nothing else within the quota period.
- The changelog is a sequence of lines, and the release date a parameter of the fixed shape.
- Whitespace in the formatter model is blank, tab, newline and carriage return.

## Model

| member | source | states |
|---|---|---|
| TableFacades.CounterpartsPairUp | lib/carto/ghost_tables_manager.rb:129-138 | rows and catalogue entries are paired one to one by id, or by name when neither id is known to the other side; unpaired rows are exactly the dropped ones and unpaired entries exactly the new ones |
| AlteredTables.MergeSorted | lib/carto/ghost_tables_manager.rb:101-127 | the two-pointer loop computes the merge for all inputs, sorted or not |
| AlteredTables.FetchAlteredTables | lib/carto/ghost_tables_manager.rb:97-141 | for unique ids the four lists hold exactly the entries of the set definition, each list in id order; with unique names too, the lists are empty exactly when both sides hold the same pairs |
| AlteredTables.MergeCollects | lib/carto/ghost_tables_manager.rb:107-127 | on id-sorted lists the leftovers are exactly the catalogue entries whose id no row has and the rows whose id the catalogue has not |
| AlteredTables.MergeRenames | lib/carto/ghost_tables_manager.rb:114-119 | the renamed list is exactly the entries with a matching id under another name |
| AlteredTables.MergeStaysSorted | lib/carto/ghost_tables_manager.rb:108-127 | the collected lists stay strictly sorted by id, so nothing is listed twice |
| AlteredTables.ClassifyLists | lib/carto/ghost_tables_manager.rb:132-140 | merge and classification refine the set definition of regenerated, renamed, new and dropped |
| AlteredTables.EachEntryInOneClass | lib/carto/ghost_tables_manager.rb:129-138 | every catalogue entry and every row is in exactly one of its four classes |
| AlteredTables.SyncedIffEqual | lib/carto/ghost_tables_manager.rb:54-62 | the check reports synced exactly when the two sorted lists are the same, repeated ids and names included |
| AlteredTables.NothingStaleIffEqual | lib/carto/ghost_tables_manager.rb:54-56 | with unique ids and names nothing is stale exactly when both sides hold the same pairs |
| AlteredTables.SyncedIffSameEntries | lib/carto/ghost_tables_manager.rb:54-56 | the check on the four lists of two sets reports synced exactly when the sets are equal |
| AlteredTables.CountsBalance | lib/carto/ghost_tables_manager.rb:126-138 | on id-sorted lists catalogue minus new equals rows minus dropped exactly when as many entries bring a new id under the name of a row whose id is gone as there are such rows |
| AlteredTables.UniqueNamesBalance | lib/carto/ghost_tables_manager.rb:126-138 | the counts balance whenever names are unique on both sides, as they are in one schema and in one user's rows |
| SyncPass.RegeneratedRow | lib/carto/ghost_tables_manager.rb:284-291 | at any stage of a pass the lookup by name hits the row that lost its table |
| SyncPass.RenamedRow | lib/carto/ghost_tables_manager.rb:262-271 | at any stage of a pass the lookup by id hits the row whose table was renamed |
| SyncPass.StepEvolves | lib/carto/ghost_tables_manager.rb:239-291 | every step, failed or not, keeps ids and names unique and only moves a row to its own counterpart, adds a new table's row or removes a dropped one |
| SyncPass.StaleIsWhatIsNotDone | lib/carto/ghost_tables_manager.rb:97-157 | at any stage a fresh comparison lists exactly what was listed at the start minus what is done |
| SyncPass.CorrectRowsStay | lib/carto/ghost_tables_manager.rb:143-157 | rows that agree with the catalogue keep key and value through any pass |
| SyncPass.DoneIffOwnStepSucceeded | lib/carto/ghost_tables_manager.rb:143-157 | an entry becomes done at its own step and no other, and stays done |
| SyncPass.PassLeavesExactlyTheFailures | lib/carto/ghost_tables_manager.rb:143-157 | whichever steps fail, correct rows are unchanged and the recomputed lists are exactly the failed steps |
| SyncPass.PassReachesCatalogueIffAllSucceed | lib/carto/ghost_tables_manager.rb:143-157 | a pass leaves exactly the catalogue's pairs if and only if all its steps succeed |
| SyncPass.SyncedPassIsEmpty | lib/carto/ghost_tables_manager.rb:54-56 | a pass over rows that equal the catalogue has nothing to do |
| Convergence.ConvergesIffNoCycle | lib/carto/ghost_tables_manager.rb:143-157 | passes that fail only on held names end in sync, given as many passes as mismatches, if and only if no renames form a cycle |
| Convergence.ConvergesWithoutCycle | lib/carto/ghost_tables_manager.rb:143-157 | without a cycle at most as many passes are needed as there were mismatches |
| Convergence.DiligentPassProgresses | lib/carto/ghost_tables_manager.rb:143-157 | each such pass strictly shrinks the set of mismatches |
| Convergence.CycleNeverConverges | db/migrate/20110118160935_user_tables.rb:18 | with a cycle of renames the unique name index blocks every pass for ever, whatever else succeeds |
| Convergence.SwappedNamesAreACycle | lib/carto/ghost_tables_manager.rb:262-271 | two tables that swapped names are such a cycle |
| OnePass.PassActionsInOrder | lib/carto/ghost_tables_manager.rb:146-156 | a pass takes regenerations, renames, creations and drops in this order, and smaller ids first in each |
| OnePass.OnePassIffNamesComeFree | lib/carto/ghost_tables_manager.rb:143-157 | one pass that fails only on held names leaves exactly the catalogue if and only if every name a rename or creation wants is free or held by a row that is renamed before it |
| OnePass.ChainComesFree | lib/carto/ghost_tables_manager.rb:149-150 | table 1 giving up the name that table 2 takes is done in one pass |
| UserTables.UserTableRows.RegenerateUserTable | lib/carto/ghost_tables_manager.rb:284-291 | the row found by name gets the new id, or nothing changes |
| UserTables.UserTableRows.RenameUserTableVis | lib/carto/ghost_tables_manager.rb:262-271 | the row found by id gets the new name if it is free, or nothing changes |
| UserTables.UserTableRows.CreateUserTable | lib/carto/ghost_tables_manager.rb:247-260 | a row under a fresh key if the name is free, or nothing changes |
| UserTables.UserTableRows.DropUserTable | lib/carto/ghost_tables_manager.rb:273-282 | the row with that id and name goes, or nothing changes |
| UserTables.UserTableRows.FetchUserTables | lib/carto/ghost_tables_manager.rb:160-164 | exactly the stored pairs, without repeated ids |
| UserTables.UserTableRows.RunBatch | lib/carto/ghost_tables_manager.rb:146-156 | one batch applies its facade actions in order, each failing alone |
| UserTables.UserTableRows.Sync | lib/carto/ghost_tables_manager.rb:143-157 | a whole call is a pass of the protocol whatever is refused, takes its steps in the order of batches and ids, and when nothing is refused leaves exactly the catalogue if and only if every wanted name comes free in time |
| UserTables.PendingCanFire | lib/carto/ghost_tables_manager.rb:239-291 | a pending change whose name is free always has a row to work on |
| Bolt.MutualExclusion | lib/carto/bolt.rb:24-81 | if no holder outlives its TTL, at most one process is between lock and unlock in every reachable state, and every unlock deletes the caller's own key, which was there and is gone |
| Bolt.KeyIffHeld | lib/carto/bolt.rb:43-45 | in every such run the key is there exactly while somebody holds the lock |
| Bolt.GetsTheLockIff | lib/carto/bolt.rb:79-81 | whoever tries gets the lock exactly when nobody holds it |
| Bolt.DeniedAfterAllAttempts | lib/carto/bolt.rb:50-62 | nobody is denied before having asked exactly as often as the request allows, with the timeout in between |
| Bolt.OverlapMeansOverstay | lib/carto/bolt.rb:24-81 | two holders at once imply that some holder had overstayed |
| Bolt.OverstayBreaksExclusion | lib/carto/bolt.rb:68-81 | a run in which an overstaying holder meets a second one and deletes its key, so that the second holds a lock without a key |
| Bolt.CallsAreThrottled | lib/carto/bolt.rb:33-40 | in every run fail calls are at most flag grants, and these at most resets plus one |
| Bolt.OneGrantPerEpoch | lib/carto/bolt.rb:83-89 | between two resets the flag is granted at most once |
| Bolt.GrantedIffSomeoneDenied | lib/carto/bolt.rb:38-40 | from a reset to the next the flag is granted once if a process with a fail function has been denied, and otherwise not at all |
| Bolt.OneCallPerEpochIff | lib/carto/bolt.rb:33-40 | after a reset every continuation up to the next one has at most one call exactly when no granted call was outstanding |
| Bolt.CallOutstandingAtReset | lib/carto/bolt.rb:33-40 | a timely run that ends in a reset with a call outstanding |
| LockedSync.SyncsAreSerial | lib/carto/ghost_tables_manager.rb:93-95 | in every timely interleaving the rows are those of the finished blocks run one after the other in the order of their unlocks, each comparing the rows its predecessor left with the catalogue it read and changing them with exactly the outcomes logged, plus what the present holder has done so far |
| LockedSync.HistoryIsTrue | lib/carto/bolt.rb:30-45 | every logged block was entered, read its catalogue, compared it and was left by its process at the moments logged, in that order, and no two blocks overlap |
| LockedSync.LoggedIffFinished | lib/carto/bolt.rb:30-45 | an unlock is logged exactly when it ends a finished block |
| LockedSync.FinishedBlockReachesIff | lib/carto/ghost_tables_manager.rb:143-157 | a finished block keeps ids and names unique and leaves exactly the catalogue it read if and only if none of its steps failed |
| LockedSync.SettledForEver | lib/carto/ghost_tables_manager.rb:143-157 | with a fixed catalogue rows in sync never change again |
| LockedSync.FailureFreePassSettles | lib/carto/ghost_tables_manager.rb:93-95 | once a locked pass has gone through without a failure and the catalogue stays as it was read, the rows equal it ever after |
| UuidMigration.KeyIsOfTheGraph | script/migrate_to_uuid.rb:267-273 | every key is the id of a table or refers to it through the column the graph gives for the related table, and through the singular where it gives none |
| UuidMigration.ReferenceHasItsKey | script/migrate_to_uuid.rb:310-318 | every related table of every table has such a key |
| UuidMigration.NamesDoNotClash | script/migrate_to_uuid.rb:306-314 | no old column is named like a new one, and new columns clash exactly when the old ones do |
| UuidMigration.RollbackRestoresIff | script/migrate_to_uuid.rb:301-341 | after `schema`, or `schema` and `meta`, `rollback` restores the database exactly if and only if no new column was there before |
| UuidMigration.RollbackLosesColumn | script/migrate_to_uuid.rb:322-341 | a table that already had a `uuid` column loses it |
| UuidMigration.MetaTwiceIsOnce | script/migrate_to_uuid.rb:343-358 | running `meta` twice equals running it once, on any database |
| UuidMigration.MetaWritesAre | script/migrate_to_uuid.rb:343-358 | the nested loops issue exactly one update for every reference and row of its parent |
| UuidMigration.NullsChangeNothing | script/migrate_to_uuid.rb:350-350 | rows without an id or UUID write nothing, and null references are not written |
| UuidMigration.MetaStops | script/migrate_to_uuid.rb:343-346 | `meta` ends at the first table it cannot read |
| UuidMigration.CellAfter | script/migrate_to_uuid.rb:350-350 | after all updates every cell holds the value of the last update that matches its row, and its old value if none does |
| UuidMigration.MetaTranslates | script/migrate_to_uuid.rb:343-358 | after `schema` and `meta` a reference holds the UUID of the row its integer names, null when none |
| UuidMigration.ReplacedOnce | script/migrate_to_uuid.rb:394-434 | `clean` puts every UUID column under the old column's name with its values |
| UuidMigration.KeyedOnce | script/migrate_to_uuid.rb:412-432 | `clean` makes a new id the primary key of its table exactly when its values are unique and not null |
| UuidMigration.CleanStops | script/migrate_to_uuid.rb:412-418 | `clean` ends at the first missing table, once its references are replaced |
| UuidMigration.MigratedDatabase | script/migrate_to_uuid.rb:301-434 | after the whole migration ids are the generated UUIDs and primary keys, references are translated, dangling ones null, and no UUID column is left |
| UuidMigration.OtherColumnsUnchanged | script/migrate_to_uuid.rb:301-434 | all other columns keep their values |
| UuidMigration.MigrationPreservesJoins | script/migrate_to_uuid.rb:301-434 | a related row and a parent row join on the new columns if and only if they joined on the old ones |
| RelationGraph.GraphKeysAreDistinct | script/migrate_to_uuid.rb:267-273 | a graph whose tables are listed once and refer to a common related table through different columns has distinct key columns |
| RelationGraph.ShippedColumns | script/migrate_to_uuid.rb:108-175 | the 23 references the script migrates, column by column |
| RelationGraph.ShippedIsDistinct | script/migrate_to_uuid.rb:108-175 | the script's own graph is one |
| RelationGraph.ShippedMigrationPreservesJoins | script/migrate_to_uuid.rb:108-175 | so the script's own migration preserves every join of its graph |
| RelationGraph.EveryReferenceStillJoins | script/migrate_to_uuid.rb:108-175 | through each of those columns exactly the same rows join after the migration |
| RelationGraph.OneRowEachIsReady | script/migrate_to_uuid.rb:301-358 | over every graph there is a database that meets the hypotheses and in which every reference joins |
| MigrationScript.Connection.AlterSchema | script/migrate_to_uuid.rb:301-320 | the loops perform the schema stage |
| MigrationScript.Connection.RollbackSchema | script/migrate_to_uuid.rb:322-341 | the loops perform the rollback |
| MigrationScript.Connection.MigrateMeta | script/migrate_to_uuid.rb:343-358 | the interleaved reads and updates equal updates read off the database at the start, up to the first table that cannot be read |
| MigrationScript.Connection.CleanDb | script/migrate_to_uuid.rb:394-434 | the loops perform the clean stage, primary keys included, and raise exactly when a table is missing |
| ImportSwap.SwapOutcome | app/connectors/importer.rb:290-303 | the overwrite block ends without raising either with every statement done or aborted by the index rename alone |
| ImportSwap.OverwriteIsAllOrNothing | app/connectors/importer.rb:290-311 | if a step of the block raises, or the index rename fails unnoticed, no table changes; otherwise the new contents are in place and nothing else but support tables changed; the call returns exactly when the block raises nothing and none of the six steps after COMMIT fails |
| ImportSwap.SilentRollback | app/connectors/importer.rb:253-262 | that case exists: the overwrite returns with the old contents |
| ImportSwap.NewRegisterIsAllOrNothing | app/connectors/importer.rb:319-330 | a raising placement changes no table; one that returns puts the imported table at its destination with its contents and touches no table outside the origin schema |
| ImportOutcome.NewRegisterReturnsIff | app/connectors/importer.rb:319-330 | a placement returns exactly when its renames and moves find their tables and free names, one after the other, and none of its 3 + 3n statements faults |
| ImportOutcome.PlainRegisterReturnsIff | app/connectors/importer.rb:319-330 | without support tables: the table is there, its name is free in both schemas, and the three statements work |
| ImportOutcome.UnlikeRegisterReturnsIff | app/connectors/importer.rb:319-330 | with support tables of unlike names: all are there, all new names are free in both schemas, no statement faults; and then each is at the destination with its contents |
| ImportOutcome.SupportNameChangesEnding | app/models/visualization/support_tables.rb:55-58 | a support table keeps its prefix and gets the new parent's name as its ending |
| ImportOutcome.MoveEachIff | app/models/visualization/support_tables.rb:53-65 | renames or moves of unlike names go through exactly when the tables are there and the new names free, and put each table under its new name with its contents, changing nothing else |
| ImportOutcome.BlockEndsIff | app/connectors/importer.rb:290-303 | no step of an overwrite's block raises exactly when old and imported table are there, the statements before the index rename work and, with support tables, that one and theirs as well |
| ImportOutcome.OverwrittenTables | app/connectors/importer.rb:105-111 | after an overwrite that takes effect the import has the target's name and the support tables theirs |
| ImportOutcome.ReachesCommitIff | app/connectors/importer.rb:105-111 | an overwriting registration reaches COMMIT exactly when the schemas are compatible, import and support tables can move, and the block ends there |
| ImportOutcome.NewTableReturnsIff | app/connectors/importer.rb:112-119 | a registration that overwrites nothing returns exactly when the table can be placed and neither those statements nor the metadata fault |
| ImportOutcome.PlainTableReturnsIff | app/connectors/importer.rb:112-119 | for an ordinary import: the table is there, its name is free in both schemas, and the four statements work |
| ImportOutcome.FailureCleansUp | app/connectors/importer.rb:122-135 | incompatible schemas and statement timeouts leave no table in the origin schema unless the drop itself faults |
| ImportOutcome.FailedMoveCleansUp | app/connectors/importer.rb:202-204 | nor does a failed move |
| ImportSwap.MoveKeepsDestination | app/connectors/importer.rb:190-205 | the move before an overwrite touches no table outside the origin schema and only goes to free names |
| ImportSwap.OverwriteDelivers | app/connectors/importer.rb:96-135 | an overwriting registration leaves the imported contents in the target exactly when its transaction takes effect, the old ones otherwise, and all other tables outside the origin schema alone; it returns exactly when the transaction ends without raising and none of the seven calls after it fails |
| ImportSwap.NewTableDelivers | app/connectors/importer.rb:96-135 | any other registration that returns has put the imported table at its destination with its contents; whatever happens, the tables outside the origin schema keep theirs |
| ImportSwap.RegisterKeepsDestination | app/connectors/importer.rb:96-135 | whatever fails, tables outside the origin schema keep their contents, except the one overwritten by a transaction that takes effect |
| ImportSwap.ImportKeepsDestination | app/connectors/importer.rb:83-94 | over a whole import a table that no result is named after keeps its contents |
| ImportSwap.ImportDelivers | app/connectors/importer.rb:83-94 | over a whole import of results that bring different tables along, each registered result that no later one is named like ends up at its destination with the contents it came with, or with the old ones if the silent index failure undid its overwrite |
| Importer.ConnectorImporter.RenameSupportTables | app/models/visualization/support_tables.rb:48-79 | the loop renames the support tables until one fails |
| Importer.ConnectorImporter.ChangeSupportSchema | app/models/visualization/support_tables.rb:81-91 | the loop moves the support tables until one fails |
| Importer.ConnectorImporter.Overwrite | app/connectors/importer.rb:290-311 | all or nothing on the connection itself, with the exact condition for either and for returning |
| Importer.ConnectorImporter.PlaceNew | app/connectors/importer.rb:319-330 | a call that raises changes no table; one that returns delivers the imported contents and touches nothing outside the origin schema; it returns exactly when the names are there and free and no statement faults |
| Importer.ConnectorImporter.RegisterOne | app/connectors/importer.rb:96-135 | no table outside the origin schema changes but the one named like the result, which holds the imported contents exactly when an overwrite takes effect and whenever a new registration returns; either kind returns exactly under its condition |
| Importer.ConnectorImporter.RegisterResults | app/connectors/importer.rb:83-94 | results in order up to the first that raises; exactly those before it are registered, and each of them ends up at its destination with the contents it came with, or had its overwrite undone silently |
| FormatterTranslation.BalancedIsTemplate | app/models/geocoding.rb:230-239 | every balanced, quote-free text is a template of literals and fields |
| FormatterTranslation.SquishIsUnwords | app/models/geocoding.rb:232-232 | squishing keeps the words in order with one blank between them and nothing around |
| FormatterTranslation.TranslationDropsEmptyEnds | app/models/geocoding.rb:231-239 | for every one-line text the output is the uniformly quoted squished template without an empty literal where the text begins or ends in a brace |
| FormatterTranslation.TranslationText | app/models/geocoding.rb:231-239 | for every one-line text, reading the output and concatenating it gives the literals in order with, for every field, what the reader makes of its name |
| FormatterTranslation.TranslationPreservesMeaningIff | app/models/geocoding.rb:231-239 | output and template give the same text for every row exactly when no field name has a comma or outer whitespace, however the text is spaced |
| FormatterTranslation.BalancedTextIsTranslated | app/models/geocoding.rb:230-239 | every one-line text with balanced braces and no quotes squishes to a template for which this holds |
| FormatterTranslation.CommaInNameIsMisread | app/models/geocoding.rb:231-239 | the template `{a,b}` is translated to something else |
| QueryRewriter.TokensSplit | lib/carto/query_rewriter.rb:33-38 | words and separators of a query: words are maximal, separators single |
| QueryRewriter.SplitIsUnique | lib/carto/query_rewriter.rb:33-38 | there is only one such splitting of a query |
| QueryRewriter.RenameIsTokenReplacement | lib/carto/query_rewriter.rb:36-38 | the substitution replaces exactly the words equal to the old name and no other character |
| QueryRewriter.FoldIsSimultaneousIff | lib/carto/query_rewriter.rb:34-40 | the fold is simultaneous substitution on every query if and only if no later renaming changes a word of an earlier new name |
| QueryRewriter.PhraseChains | lib/carto/query_rewriter.rb:35-38 | a new name that merely contains a later old name as a word is rewritten again |
| QueryRewriter.InverseRestores | lib/carto/query_rewriter.rb:34-40 | the inverse renamings give back the query when new names are distinct words, no old names, and not in the query |
| ReplacementText.RenameIsTokenReplacementIff | lib/carto/query_rewriter.rb:36-38 | with Ruby's expansion of the replacement, one rename puts the new name itself in place of the old on every query if and only if no backslash in it begins a sequence |
| ReplacementText.SequenceMeans | lib/carto/query_rewriter.rb:38-38 | what each backslash sequence in a new name is replaced by |
| ReplacementText.ExpandingFoldIsSimultaneousIff | lib/carto/query_rewriter.rb:34-40 | for new names without such a sequence the fold that Ruby runs is simultaneous substitution on every query exactly when there is no chain |
| IpRanges.AndMask | lib/ip_checker.rb:105-109 | masking clears exactly the bits outside the prefix, for every width |
| IpRanges.KindIsBlocks | lib/ip_checker.rb:102-143 | the mask tests are membership in the address blocks |
| IpRanges.BaseDecides | lib/ip_checker.rb:27-61 | from the deciding prefix length on, a range with an address of a kind has a base address of that kind |
| IpRanges.ShorterDoesNotDecide | lib/ip_checker.rb:27-61 | with any shorter prefix some range holds such an address under an innocent base |
| IpRanges.AcceptedIff | lib/ip_checker.rb:27-61 | a range is accepted exactly when its prefix is long enough, by its own minimum or by `max_host_bits`, and its base address is in no block of an excluded kind |
| IpRanges.AcceptedRangeIsClean | lib/ip_checker.rb:27-61 | an accepted range of deciding length has no excluded address |
| IpRanges.HostBitsAreEnough | lib/ip_checker.rb:36-48 | `max_host_bits` alone is enough when it leaves that length |
| IpRanges.BaseDecidesIff | lib/ip_checker.rb:49-61 | acceptance means no excluded address for all ranges of a prefix length exactly from the deciding length on |
| IpRanges.PrefixLength | lib/ip_checker.rb:80-96 | the loop ends and returns p on the mask of p leading ones, for both families and every p |
| IpRanges.NormalizeDenotesSame | lib/ip_checker.rb:68-74 | normalising is idempotent, names the prefix unless it is the full width, and denotes the addresses that agree with the given one under the mask (section 3.1 of RFC 4632) |
| GeocodingBilling.CreditsTelescope | app/models/geocoding.rb:193-203 | the credits of any sequence of runs add up to the growth of the overage |
| GeocodingBilling.PricesAreLinear | app/models/geocoding.rb:205-209 | prices of credits add up to the price of their sum |
| GeocodingBilling.NothingIsFree | app/models/geocoding.rb:205-209 | no credits yet, or none, cost nothing; any others their share of the block price |
| GeocodingBilling.BillIsPriceOfOverage | app/models/geocoding.rb:193-209 | the bill of any sequence of runs is the price of the growth of the overage |
| Release.Bump | bump.rb:30-33 | the loop on the array gives the bumped version |
| Release.BumpIsLeast | bump.rb:30-33 | a bump is the least later version that differs at or before the bumped part |
| Release.TagRoundTrip | bump.rb:35-45 | the version of a printed tag is the version printed |
| Release.HeadingVersionIff | bump.rb:7-7 | a line is a version heading exactly when it is three dotted numbers and a date in parentheses, and then of that version |
| Release.NewReleaseIsFirst | bump.rb:54-61 | the first heading of the updated changelog is the new release's |
| Release.ReleaseBegins | bump.rb:54-61 | the updated text begins with the bare development section and the new heading, with its date, underlined |
| Release.NewsRoundTrip | bump.rb:47-61 | the version read from the updated changelog is the new one, for any changelog |
| Release.HistoryIsKept | bump.rb:63-75 | everything from the first heading on stands verbatim at the end, whatever has been written before it, and so does this whole release after the next one |
| Release.NewsSections | bump.rb:77-96 | the loop computes the sections |
| Release.DevelopmentLinesAre | bump.rb:64-67 | the development notes are the lines before the first heading in order, but for trailing empty ones, the title and its underline |
| Release.BulletKeepsText | bump.rb:88-90 | a note keeps its text: only a dash right after the indent becomes a star |
| Release.BareHeading | bump.rb:80-87 | what follows a bare `###` is dropped up to the next heading |
| Release.WorthwhileIff | bump.rb:71-71 | a section counts when some line has a character that is no whitespace |
| Release.SectionsKeepLines | bump.rb:77-96 | the sections hold every line from the first heading on, in order, except the placeholder, up to the bullets |
| Release.WrittenOutIsWorth | bump.rb:68-74 | exactly the sections with a non-blank line are written, whole and in order |
| Release.NotesSurvive | bump.rb:63-96 | the released text is the worthwhile sections of the development notes, and all the notes when every section is worthwhile |
| Release.NoNoteTwice | bump.rb:54-75 | a release with no notes written since the last one has no notes |

## Left out

- Sync: does not model why the persistence layer refuses a change, because that is inside the visualization and table classes; any refusal is covered.
- OverwriteDelivers: treats cartodbfying, sanitizing, permissions and metadata as calls that may raise; what they add to a table is not modelled.
- SwapOutcome: for a support table called like the target its contents clause says nothing, which after the move of a registration cannot be (OverwriteDelivers has no such case).
- OverwriteIsAllOrNothing: carries the same clause, for the same reason.
- SyncsAreSerial: does not cover callers that run unlocked after failing to get the lock (`run_synchronized` with warning parameters, lib/carto/ghost_tables_manager.rb:78-82), which is by design not exclusive.
- MigratedDatabase: assumes unique non-null ids, distinct derived column names and no new column present beforehand; rows inserted between the stages and foreign-key constraints are not modelled.
- TranslationPreservesMeaningIff: is for single-line templates without quotes and with balanced braces; the translation itself is modelled for every text.
- RenameIsTokenReplacement: is for old names made of word characters and takes the new name verbatim; ReplacementText says when Ruby does.
- ExpandingFoldIsSimultaneousIff: is for new names that Ruby takes verbatim; folds of other new names are not characterised.
- HistoryIsKept: dates are taken to have the fixed shape the heading pattern asks for.
- CreditsTelescope: does not model where the usage counter is stored nor the choice between user and organization quota.
- Whether a ghost-table check runs at once or as a job (`link_ghost_tables`), and the size limit behind that choice.
- A denied request is never lost: the lock does not promise it, since a rescheduled job that is denied while the flag is set does not reschedule again.
- Processes that crash between taking and releasing the lock, and Redis failures.
- The SQL of `fetch_cartodbfied_tables`, visualization and table internals.
- Passes over rows or catalogues with repeated ids or names; the comparison itself is covered for them.
- `migrate_data` and the Redis key rewriting.
- `rewrite_query_for_new_user`, `qualify_query`, the probe of the database in `test_query`, and `Layer#rename_in`.
- Cleaning up the temporary table after a failed overwrite: the cleanup is inside the transaction that is rolled back.
- `ValidTableNameProposer`: the proposed name is a parameter.
- Parsing and printing of addresses by Ruby's `IPAddr`.
- The interactive part of the release script and its git commands.
