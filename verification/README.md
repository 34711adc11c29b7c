# Moraine, modelled and proved in Dafny

Moraine stores a DuckLake catalog and serves it to DuckDB through a bridge. This
project models the parts of the bridge where the logic is hardest, and two parts
of the core the bridge leans on, and proves what they keep over every input and
every run. `dafny verify dfyconfig.toml` checks the whole project.

| files | what they model | main results |
|---|---|---|
| `MetadataRows`, `MetadataCache`, `MetadataCacheSafety`, `MetadataCacheTheorems`, `MetadataCacheStaged` | the stamped metadata-row cache, the per-transaction pin and rowid resolution, as steps of any number of transactions against a moving store | a cache entry equals the dump at its stamp; a first read is a state that was head during the call; a writer reads the head its staged transaction opened at with all it staged since; rowids resolve to the rows the scan emitted, with the exact tables for which that holds |
| `LogBuffer`, `LogRouting`, `LogRoutingSafety`, `LogRoutingTheorems`, `LogRoutingOrder`, `LogRoutingDrops`, `LogRoutingEvents` | log routing under two locks, any number of threads | every event in exactly one place, drop accounting, the oldest dropped, finality of unregistering, order with its exact side condition |
| `InlineNames`, `InlineScan`, `InlineEmit`, `InlineDelete` | inline tables: names, lazy chunk decoding, run-coalesced copying, DELETE by threshold | round trips, refinement of the row-by-row scan, when the threshold is SQL's DELETE |
| `ColumnTypes`, `ColumnTypeReturns`, `ColumnTypeTheorems`, `ColumnTypeTrees` | nested types rebuilt from flat rows | the rebuild inverts flattening, for trees of types and for any rows; exactly when it returns |
| `Transactions`, `TransactionRuns`, `TransactionOwners` | snapshot and staged-transaction handles over start, write, commit, rollback and destruction | every handle follows its lifecycle, none leaks, and a client touches only its own |
| `StagedWrite`, `StagedRead`, `StagedWriteTheorems`, `StagedMoves`, `OptionsUpdate`, `OptionsCommit` | UPDATE and DELETE on metadata tables, staged as rows, and how the core decodes the staged rows, reads a table again over them and, for the options, commits them | staging has SQL's meaning, with the exact conditions, refusals of the core among them |
| `MaintenanceOptions`, `MaintenanceOptionTheorems`, `MaintenanceOptionNames`, `MaintenancePass`, `Scheduler` | option parsing, a maintenance pass, the timer and its callers | order-independent parsing, abort semantics, one pass at a time, finality and progress of `Stop` |
| `OrderedKey`, `OrderedKeyTheorems` | the index key encoding | byte order is SQL's tuple order |

`Values` holds what they share: cells and rows, options and results, filtering,
ASCII lower case, and the rowid check of the sinks.

Code that loops or updates state is a method or a class with its invariants,
proved against a function that the lemmas then speak about. Concurrent code is a
state machine whose steps are the code's critical sections and calls; `Run` folds
any list of steps, so a statement about `Run` is about every interleaving. The
store, the clock, conversions and the outcome of calls into code that is not
modelled are parameters or fields of the state: which states the store passes
through, whether a stamp read succeeds, what decoding a body gives, how a
maintenance step turns out.

Where a promise turns out false of the code, there is a lemma with the input or
the run that breaks it and a lemma with the exact condition under which it holds:
`SaturatedStampServesStaleRows` and `HeldAgreesIff`, `OptionsReadStraddles` and
`OptionsDumpIff` with `DumpsAreHeadsIff`, `OptionsRowidMisresolves`,
`RegistryRowidMisresolves` and `AlwaysResolvesIff`, `GapReversesOneThread` and
`InOrderIff` with `NothingStrandedIff`, `LeadingZeroParses` and `ReprintIff`,
`RowFilterDeletesTooMuch` and `CollapseExactIff`, `RepeatedIdNeverReturns` and
`ReturnsIff`, `NegativeIntervalAccepted` and `IntervalPeriodIff` with
`SecondsPeriodIff`, `NullCountUnreadable` and `StatisticsUpdateIff`,
`HistoryRowMisses`, `BeginMoveRefused` and `MovesMeanUpdateIff`,
`FactUpdateIsLost`, `NullReadsEmpty` and `OptionsUpdateMeans`,
`DeleteUnreadable` and `CommittedDeleteIff`.

The code is followed where its comments say otherwise:

- `metadata_tables.cpp:756-759` says most stored options override a fixed row; none can, since every fixed row is one of the excepted facts.
- `metadata_tables.cpp:1522-1523` says the fixed rows are the same in a staged transaction; they are re-read from the head, where the data root can have changed.
- `logging.rs:395-398` says a registration delivers exactly once and in order; the event between registry check and buffer push breaks the order.
- `inline_tables.cpp:334-339` says rows of another schema version would be misdecoded; the code skips them.
- `maintenance.cpp:147` speaks of a longest match; the loop takes the first match, and no name matches twice.
- `overlay.rs:582-587` says a staged delete of an option removes its key, matching translation; the overlay decodes the three staged cells as a whole row of four, so the read fails, while translation removes the key.
- `staged_write.hpp:21-29` describes re-reading rows in the sink; the sink pins the scanned list.
- `index_encoding.rs:3-8` promises equality only; the function's own comment promises order, and that is proved.

## Model

| member | source | states |
|---|---|---|
| `MetadataRows.MergeStored` | crates/moraine-duckdb/cpp/metadata_tables.cpp:767-791 | The erase-and-append loop computes the fold of the stored rows over the base rows. |
| `MetadataRows.MergedServes` | crates/moraine-duckdb/cpp/metadata_tables.cpp:767-791 | What the merge serves, without the loop: a row is served if and only if it is the last user setting of its key, or a base row whose key no user setting carries. |
| `MetadataRows.ListServes` | crates/moraine-duckdb/cpp/metadata_tables.cpp:694-791 | `ducklake_metadata` row by row, names written out: exactly the three or four fact rows with their values, and each stored row that is in a scope or under none of the four fact names, if no later such row has its key, scope and scope id. |
| `MetadataRows.ServedPathIs` | crates/moraine-duckdb/cpp/metadata_tables.cpp:713-727 | The data root is served as the recorded path less its trailing slashes, plus one slash. |
| `MetadataRows.MergedKeysUnique` | crates/moraine-duckdb/cpp/metadata_tables.cpp:776-789 | Merging never serves two rows of one (key, scope, scope id). |
| `MetadataRows.FixedRowsSurvive` | crates/moraine-duckdb/cpp/metadata_tables.cpp:756-791 | The fixed rows come out first and unchanged whatever the store holds, although the comment says most stored rows override one: every fixed row is a store fact. |
| `MetadataRows.SameListIff` | crates/moraine-duckdb/cpp/metadata_tables.cpp:694-791 | Two materializations are the same list if and only if their encryption flags are equal, their data roots are served alike after normalizing trailing slashes, and their stored rows hold the same user settings. |
| `MetadataRows.SameListIffSameFacts` | crates/moraine-duckdb/cpp/metadata_tables.cpp:694-743 | In particular over the same stored rows: the lists are equal if and only if the facts are served alike. |
| `MetadataCacheSafety.StepKeepsInv` | crates/moraine-duckdb/cpp/metadata_tables.cpp:1536-1588 | Every step of any transaction, commit or maintenance batch keeps the invariant that ties pins, cache entries, reads in progress and running statements to the history of store states. |
| `MetadataCacheSafety.RunKeepsInv` | crates/moraine-duckdb/cpp/metadata_tables.cpp:1536-1588 | Every run of any number of transactions keeps it. |
| `MetadataCacheTheorems.HeldRowsStandAtTheirStamp` | crates/moraine-duckdb/cpp/metadata_tables.cpp:1561-1587 | In every run a cache entry with a stamp below saturation is what the state carrying that stamp has of its table, also for a provider of several reads and when a slow reader overwrites a newer entry. |
| `MetadataCacheTheorems.HeldAgreesIff` | crates/moraine-duckdb/cpp/metadata_tables.cpp:1561-1587 | For every stamp: in every run a cache entry under it equals the dump of its table at every state that carries it, if and only if the stamp's batch count is below saturation. |
| `MetadataCacheTheorems.SharedStampMeansSaturation` | crates/moraine/src/transaction/commit.rs:482-497 | Two states of a run share a stamp if and only if the batch count has saturated and no snapshot was minted between them. |
| `MetadataCacheTheorems.SaturatedStampServesStaleRows` | crates/moraine-duckdb/cpp/catalog.cpp:994-1015 | At saturation the property fails: for any snapshot id, a run where the entry disagrees with the state carrying its stamp and a hit serves rows the head had at no moment of the call. |
| `MetadataCacheTheorems.FirstReadIsAHeadDuringTheCall` | crates/moraine-duckdb/cpp/metadata_tables.cpp:1536-1588 | A first read of a single-fetch table returns the rows of that table, the registry's or the kind's dump, at a state that was head during the call: every miss, and every hit on a state whose stamp is below saturation. |
| `MetadataCacheTheorems.DumpReadsStatesInOrder` | crates/moraine-duckdb/cpp/metadata_tables.cpp:793-799 | A provider of several reads returns what its reads found at states in order, all within the call. |
| `MetadataCacheTheorems.OptionsReadStraddles` | crates/moraine-duckdb/cpp/metadata_tables.cpp:793-799 | For `ducklake_metadata` the single-state form fails: a run whose list is the dump of no state. |
| `MetadataCacheTheorems.OptionsDumpIff` | crates/moraine-duckdb/cpp/metadata_tables.cpp:694-799 | In every run, a list of `ducklake_metadata` is put together from the first read's encryption flag, the second's data root and the third's stored rows, and it is a given state's dump if and only if that state serves that flag, that root and those user settings. |
| `MetadataCacheTheorems.DumpsAreHeadsIff` | crates/moraine-duckdb/cpp/metadata_tables.cpp:793-799 | Every dump of a table, in every run, is the dump of one state that was head during the call, if and only if its provider makes at most one read. |
| `MetadataCacheTheorems.LaterReadsRepeatTheFirst` | crates/moraine-duckdb/cpp/transaction_manager.cpp:55-65 | Until a staged transaction opens, every later read of a table returns the first read's list, whatever commits land. |
| `MetadataCacheStaged.WriterReadsItsRows` | crates/moraine-duckdb/cpp/metadata_tables.cpp:1447-1554 | Told by the steps of the run: every answer is of the table its call asked for and spans the heads from the call's start to the answer; it is the staged transaction's if and only if one was opened since the transaction began, and then it is the overlay, on the head at the opening, of exactly the rows staged since, in order: alone for a dumped table, below the facts of heads of the call for `ducklake_metadata`; the registry is a head's of the call. |
| `MetadataCacheStaged.FilledOnlyBetweenStamps` | crates/moraine-duckdb/cpp/metadata_tables.cpp:1561-1587 | In every run the cache changes only where a call holds what it dumped: one entry, of the table that call asked for, and only if both its stamp reads succeeded. |
| `MetadataCacheTheorems.RowidsResolve` | crates/moraine-duckdb/cpp/staged_write.cpp:113-143 | For every UPDATE or DELETE on a table with a staged dump, including the statement that opens the staged transaction, rowid i resolves to row i of the list its scan emitted; NULL, a value that is no integer and an index out of range are refused. |
| `MetadataCacheTheorems.OptionsRowidsResolveIff` | crates/moraine-duckdb/cpp/metadata_tables.cpp:1521-1528 | For `ducklake_metadata` inside an open staged transaction the sink's list is the scan's if and only if the store facts it re-reads are served as they were at bind. |
| `MetadataCacheTheorems.AlwaysResolvesIff` | crates/moraine-duckdb/cpp/metadata_tables.cpp:1447-1532 | Rowids are safe in every run if and only if the table is always empty or read whole from the staged dump. |
| `MetadataCacheTheorems.OptionsRowidMisresolves` | crates/moraine-duckdb/cpp/metadata_tables.cpp:1521-1528 | A run where a data root recorded between bind and pin makes a rowid of `ducklake_metadata` name another row. |
| `MetadataCacheTheorems.RegistryRowidMisresolves` | crates/moraine-duckdb/cpp/metadata_tables.cpp:1549-1554 | A run where a commit between bind and pin makes a rowid of the registry table name another row. |
| `LogBuffer.LogBuffer.Push` | crates/moraine-duckdb/src/logging.rs:258-265 | A full buffer drops its oldest record and counts it, saturating; the new record goes last. `OldestIsDropped` and `BufferIsTheLatest` say so without naming the push. |
| `LogBuffer.LogBuffer.TakeAll` | crates/moraine-duckdb/src/logging.rs:289-297 | A drain takes the whole buffer and the count, leaving both empty. |
| `LogBuffer.LogBuffer.TakeHandle` | crates/moraine-duckdb/src/logging.rs:445-463 | A flush takes exactly one handle's records, oldest first, and leaves the others in their order. |
| `LogBuffer.SplitKeepsRecords` | crates/moraine-duckdb/src/logging.rs:449-460 | The split neither loses nor doubles a record. |
| `LogBuffer.SinkRegistry.Register` | crates/moraine-duckdb/src/logging.rs:402-411 | Registering replaces the handle's sink in place or appends it. |
| `LogBuffer.SinkRegistry.Unregister` | crates/moraine-duckdb/src/logging.rs:431-436 | Unregistering removes the handle's sink and keeps the others in order. |
| `LogBuffer.SinkRegistry.Find` | crates/moraine-duckdb/src/logging.rs:248-251 | Returns the handle's sink, and none if and only if no entry has the handle. |
| `LogBuffer.RegisteredLookup` | crates/moraine-duckdb/src/logging.rs:402-411 | After registering, the handle has the new sink and every other handle what it had. |
| `LogBuffer.UnregisteredLookup` | crates/moraine-duckdb/src/logging.rs:431-436 | After unregistering, the handle has no sink and every other handle what it had. |
| `LogRoutingSafety.StepKeepsInv` | crates/moraine-duckdb/src/logging.rs:233-466 | Every step of any thread keeps conservation, drop accounting, lock ownership, routing and per-thread order. |
| `LogRoutingSafety.RunKeepsInv` | crates/moraine-duckdb/src/logging.rs:233-466 | Every run of any number of threads keeps them. |
| `LogRoutingTheorems.EveryRecordInOnePlace` | crates/moraine-duckdb/src/logging.rs:233-266 | In every run each event is in exactly one place: handed to a sink, buffered, evicted, or in one thread's hands, including between registry check and buffer push. |
| `LogRoutingTheorems.BufferBounded` | crates/moraine-duckdb/src/logging.rs:258-264 | The buffer never exceeds 512 records. |
| `LogRoutingTheorems.DropsAccounted` | crates/moraine-duckdb/src/logging.rs:289-314 | Evictions equal the drops warned of, those a drain is about to warn of, and the counter; past saturation of the counter they can only exceed them. |
| `LogRoutingDrops.OldestIsDropped` | crates/moraine-duckdb/src/logging.rs:258-265 | In every run no record is pushed twice, the buffer keeps the order of pushes, and every record dropped was pushed before every record still there. |
| `LogRoutingDrops.BufferIsTheLatest` | crates/moraine-duckdb/src/logging.rs:258-265 | While nothing is drained or flushed the buffer is exactly the last 512 records pushed, or all of them, and what was dropped is exactly the ones before. |
| `LogRoutingEvents.EmittedAreTheEvents` | crates/moraine-duckdb/src/logging.rs:233-247 | The events of a run are its emitting steps, in order, each with the thread, handle, level and message of its step. |
| `LogRoutingEvents.SinkIsTheRegistered` | crates/moraine-duckdb/src/logging.rs:402-436 | In every run a handle has the sink of the registration that ended last, unless it was unregistered since. |
| `LogRoutingEvents.HandedWhereAsked` | crates/moraine-duckdb/src/logging.rs:243-256 | Every hand-over of every run: an event's own call goes to the sink its handle has, a flush to the sink being registered, a drain to the drain's. |
| `LogRoutingEvents.DrainHandsOverAll` | crates/moraine-duckdb/src/logging.rs:283-314 | An undisturbed drain from any state warns once of what was dropped, if anything was, before it hands over anything, then hands over the whole buffer oldest first, and changes nothing else. |
| `LogRoutingTheorems.SinkHearsOnlyItsHandle` | crates/moraine-duckdb/src/logging.rs:243-256 | A registered sink only ever receives records of its own handle. |
| `LogRoutingTheorems.UnregisterIsFinal` | crates/moraine-duckdb/src/logging.rs:431-436 | When unregistering returns no call to the handle's sink is in flight; none starts and nothing more is sent until the handle registers again. |
| `LogRoutingTheorems.BacklogThenLive` | crates/moraine-duckdb/src/logging.rs:391-411 | From a clean registration on, in every continuation, the sink gets exactly what was pending and then the handle's events since, in order; none is left behind. |
| `LogRoutingTheorems.RegistrationDeliversInOrder` | crates/moraine-duckdb/src/logging.rs:395-411 | If no event of the handle stands between registry check and buffer push when the backlog is taken, the sink gets the surviving backlog oldest first and then the live events in order, and each thread's own order is kept. |
| `LogRoutingTheorems.NothingStrandedIff` | crates/moraine-duckdb/src/logging.rs:395-411 | That side condition is exact: nothing of the handle is ever stranded behind its sink if and only if it holds. |
| `LogRoutingOrder.InOrderIff` | crates/moraine-duckdb/src/logging.rs:391-411 | For every registration in every run: whatever follows, short of unregistering, each thread's events reach the handle's sinks in that thread's order, if and only if no event of the handle stood in the gap when the backlog was taken. |
| `LogRoutingOrder.ReversedThroughGap` | crates/moraine-duckdb/src/logging.rs:248-265 | From every state where one does, a continuation in which one sink gets that thread's next event before it. |
| `LogRoutingOrder.GapReversesOneThread` | crates/moraine-duckdb/src/logging.rs:248-265 | So the comment's promise of order fails: a run from the start that ends so, both events at one sink. |
| `InlineNames.ParseTrailingU64` | crates/moraine-duckdb/cpp/inline_tables.cpp:59-76 | The digit loop accepts a run if and only if it is nonempty, all digits and its value fits in 64 bits, and returns that value. |
| `InlineNames.ParseInlinedDataTableName` | crates/moraine-duckdb/cpp/inline_tables.cpp:80-96 | Accepts a name if and only if it is the data prefix and two such runs joined by an underscore, and returns their values. |
| `InlineNames.ParseInlinedDeleteTableName` | crates/moraine-duckdb/cpp/inline_tables.cpp:98-104 | Accepts a name if and only if it is the delete prefix and one such run, and returns its value. |
| `InlineNames.DataNameRoundTrip` | crates/moraine-duckdb/cpp/inline_tables.cpp:46-48 | A printed data name denotes its own two ids and no others, for all 64-bit values. |
| `InlineNames.DeleteNameRoundTrip` | crates/moraine-duckdb/cpp/inline_tables.cpp:50-52 | A printed delete name denotes its own id and no other. |
| `InlineNames.NamesInjective` | crates/moraine-duckdb/cpp/inline_tables.cpp:46-52 | Both printers are injective. |
| `InlineNames.FamiliesDisjoint` | crates/moraine-duckdb/cpp/inline_tables.cpp:80-104 | No name belongs to both families. |
| `InlineNames.ReprintIff` | crates/moraine-duckdb/cpp/inline_tables.cpp:59-96 | Printing what a name parses to gives the name back if and only if neither run has a leading zero. |
| `InlineNames.DeleteReprintIff` | crates/moraine-duckdb/cpp/inline_tables.cpp:59-104 | Likewise for a delete name and its one run. |
| `InlineNames.CanonicalIff` | crates/moraine-duckdb/cpp/inline_tables.cpp:59-76 | A digit run is what the printer writes for its value if and only if it has no leading zero. |
| `InlineNames.LeadingZeroParses` | crates/moraine-duckdb/cpp/inline_tables.cpp:59-76 | A name the parser accepts and the printer never writes. |
| `InlineScan.DecodeInlineChunkPieces` | crates/moraine-duckdb/cpp/inline_tables.cpp:262-274 | Decoding fails exactly for an undecodable body or a column count other than expected; otherwise row o of the batch is row o mod 2048 of piece o div 2048, and the sizes add up. |
| `InlineScan.AppendPieces` | crates/moraine-duckdb/cpp/inline_tables.cpp:414-419 | Appends a chunk's pieces and counts its rows. |
| `InlineScan.EnsureDecoded` | crates/moraine-duckdb/cpp/inline_tables.cpp:409-420 | A chunk is decoded on first use only, and no earlier piece moves. |
| `InlineScan.PlaceRow` | crates/moraine-duckdb/cpp/inline_tables.cpp:404-428 | A kept row is refused exactly for an out-of-range chunk, a failing decode or an out-of-range offset; otherwise its piece coordinates denote row `offset_in_chunk` of its chunk. |
| `InlineScan.RefusedFor` | crates/moraine-duckdb/cpp/inline_tables.cpp:262-274 | Which refusal is for what, each if and only if: an unknown chunk, an undecodable body, a column count other than expected, an offset past the chunk. |
| `InlineScan.ScanInlineData` | crates/moraine-duckdb/cpp/inline_tables.cpp:340-433 | Exactly the requested version's rows survive, in order, each standing for its own stored values; every chunk they name is decoded once and no other; the first unservable row's error is returned; without values nothing is decoded. |
| `InlineEmit.ServedCellsAreStored` | crates/moraine-duckdb/cpp/inline_tables.cpp:388-432 | The cells such a scan serves are the cells of the stored chunk rows. |
| `InlineEmit.RunLength` | crates/moraine-duckdb/cpp/inline_tables.cpp:521-529 | The inner loop finds the longest run within the window. |
| `InlineEmit.RunCells` | crates/moraine-duckdb/cpp/inline_tables.cpp:513-531 | A run's cells are one slice of its piece's column. |
| `InlineEmit.CopyRun` | crates/moraine-duckdb/cpp/inline_tables.cpp:519-532 | One copy call writes the cells of the longest run from its start, and nothing else. |
| `InlineEmit.EmitUserColumn` | crates/moraine-duckdb/cpp/inline_tables.cpp:517-534 | The run-coalesced copy writes what copying row by row would, touches nothing else, and makes one copy call per maximal run. |
| `InlineEmit.EmitMetadataColumn` | crates/moraine-duckdb/cpp/inline_tables.cpp:489-511 | The three metadata columns, end snapshot NULL when absent, cast to signed 64 bits. |
| `InlineEmit.ServedCellShows` | crates/moraine-duckdb/cpp/inline_tables.cpp:546-571 | What a column shows, said without the copy: unsigned 64-bit values read as signed ones, as they are below 2^63. |
| `InlineEmit.EmitColumn` | crates/moraine-duckdb/cpp/inline_tables.cpp:546-571 | Each requested column shows what it is there to show: the row's index as rowid; id, begin, and end or NULL in the first three; the stored values after them; NULL anywhere else. |
| `InlineEmit.InlineDataCursor.Next` | crates/moraine-duckdb/cpp/inline_tables.cpp:536-575 | One call fills the next window of at most 2048 rows in every column, each showing that, and moves past it. |
| `InlineEmit.ReadWholeScan` | crates/moraine-duckdb/cpp/inline_tables.cpp:536-575 | Repeated calls emit every row exactly once, in order, each column showing that, and each emitted rowid resolves back to its row. |
| `InlineDelete.InlineDeleteOp.Sink` | crates/moraine-duckdb/cpp/inline_tables.cpp:953-966 | However rowids are chunked, the state keeps the largest begin among the matched rows and their count; the first bad rowid is refused; the row list is taken once. |
| `InlineDelete.InlineDeleteOp.GetData` | crates/moraine-duckdb/cpp/inline_tables.cpp:968-981 | The flush is staged once, and not at all when nothing matched. |
| `InlineDelete.MaximumIs` | crates/moraine-duckdb/cpp/inline_tables.cpp:960-962 | The running maximum is the maximum. |
| `InlineDelete.SinkCollapses` | crates/moraine-duckdb/cpp/inline_tables.cpp:953-966 | Sinking the rowids the scan emits for the matched rows leaves the collapsed threshold of the predicate. |
| `InlineDelete.CollapseExactIff` | crates/moraine/src/transaction/staged/inline.rs:32-63 | For any predicate and store content, the one-threshold flush is SQL's DELETE if and only if whenever the predicate matches a row of the version it matches every row of the version begun no later. |
| `InlineDelete.BeginFilterExactIff` | crates/moraine-duckdb/cpp/inline_tables.cpp:953-981 | For every `begin_snapshot <= F`, on the signed value the scan shows: the flush is SQL's DELETE if and only if no begin of the version wraps past an unmatched row, hence always below 2^63; nothing is staged if and only if no row of the version matches. |
| `InlineDelete.RowFilterDeletesTooMuch` | crates/moraine-duckdb/cpp/inline_tables.cpp:953-981 | A predicate on `row_id` for which the flush also removes an unmatched row. |
| `ColumnTypes.IndexColumns` | crates/moraine-duckdb/cpp/catalog.cpp:407-414 | The index finds the first row with each id, and each parent's children in row order. |
| `ColumnTypes.LoadColumns` | crates/moraine-duckdb/cpp/catalog.cpp:416-429 | Only top-level rows become columns, with the types the rebuild gives them or its first failure, called as deep as there are rows, which `LoadSettles` shows to be as deep as matters; NOT NULL positions count top-level columns only. |
| `ColumnTypes.NotNullMembers` | crates/moraine-duckdb/cpp/catalog.cpp:424-428 | A NOT NULL index is the position of a non-nullable top-level column, and every such position is listed. |
| `ColumnTypeTheorems.ListsDistinct` | crates/moraine-duckdb/cpp/catalog.cpp:404-414 | A listing that keeps siblings in order has distinct ids when the forest has. |
| `ColumnTypeTheorems.ChildrenListed` | crates/moraine-duckdb/cpp/catalog.cpp:409-414 | With distinct ids, the rows naming a node as parent are its children in order. |
| `ColumnTypeTheorems.NodeRebuilds` | crates/moraine-duckdb/cpp/catalog.cpp:36-68 | Every node, wherever it is, rebuilds to its own type or its own arity failure, where a type is nested if its name spells "list", "struct" or "map" in any letter case. |
| `ColumnTypeTheorems.LoadInvertsFlatten` | crates/moraine-duckdb/cpp/catalog.cpp:404-429 | For every column forest with distinct ids, listed in any order that keeps siblings in order, loading returns the forest's own types, and NOT NULL marks exactly its non-nullable top-level columns. |
| `ColumnTypeTheorems.TypeIffWellFormed` | crates/moraine-duckdb/cpp/catalog.cpp:42-66 | A tree has a type if and only if every column spelled "list" has one child and every one spelled "map" two, as far down as types are nested. |
| `ColumnTypeTheorems.MarkerSpells` | crates/moraine-duckdb/cpp/catalog.cpp:42-58 | The three names are recognized in any letter case, each as its own, and no name is two of them. |
| `ColumnTypeTrees.LoadRestoresColumns` | crates/moraine-duckdb/cpp/catalog.cpp:36-68 | For every tree of scalar, LIST, STRUCT and MAP columns with distinct ids, nested ones written "list", "struct", "map" in any letter case and scalars as anything else, rows in any order that keeps siblings in order: loading returns each column under its name with the type it was written from, fields in order, key before value. |
| `ColumnTypeReturns.ReturnsIff` | crates/moraine-duckdb/cpp/catalog.cpp:36-68 | For any rows, repeated ids and all: the rebuild of a row returns if and only if no chain of the columns it goes into comes back to one of them; it goes into a child if the parent's arity is right and everything listed below the siblings before it is sound, which is said of the rows alone; and if it returns at all, it does within as many nested calls as there are rows. |
| `ColumnTypeReturns.BuiltIsSound` | crates/moraine-duckdb/cpp/catalog.cpp:36-68 | What rebuilds at any depth is sound: every path of listed children below it ends at a scalar or at a column of the right arity, and none comes back. |
| `ColumnTypeReturns.SoundBuilds` | crates/moraine-duckdb/cpp/catalog.cpp:36-68 | And what is sound rebuilds, within as many nested calls as there are rows. |
| `ColumnTypeReturns.LoadSettles` | crates/moraine-duckdb/cpp/catalog.cpp:404-429 | So what a table loads to within that many calls is what it loads to within any more. |
| `ColumnTypeReturns.TopLevelReturns` | crates/moraine-duckdb/cpp/catalog.cpp:36-68 | With distinct ids every top-level column rebuilds within that many, whatever the rows say. |
| `ColumnTypeReturns.NeverMissing` | crates/moraine-duckdb/cpp/catalog.cpp:36-68 | No lookup of a child by its id misses, for any rows. |
| `ColumnTypeTheorems.RepeatedIdNeverReturns` | crates/moraine-duckdb/cpp/catalog.cpp:36-68 | With a repeated id it can fail: rows whose rebuild has not returned at any depth. The store itself lists columns from a map keyed by id (`crates/moraine/src/catalog/snapshot.rs:290-309`), so it lists none such. |
| `Transactions.TransactionManager.TakeOut` | crates/moraine-duckdb/cpp/transaction_manager.cpp:134-144 | Under the lock: the staged handle is handed over, the snapshot freed, the transaction removed; an unknown transaction changes nothing. |
| `TransactionRuns.StepKeepsInv` | crates/moraine-duckdb/cpp/transaction_manager.cpp:102-189 | Every step keeps the handle books: opened equals closed plus held, for every handle. |
| `TransactionRuns.RunKeepsInv` | crates/moraine-duckdb/cpp/transaction_manager.cpp:102-189 | Every run of any number of clients keeps them. |
| `TransactionRuns.HandlesFollowTheirLifecycle` | crates/moraine-duckdb/cpp/transaction_manager.cpp:16-53 | In every run each handle is opened once, used only while open, and closed at most once: a snapshot by freeing, a staged transaction by exactly one of commit and rollback; nothing follows its close. |
| `TransactionRuns.OpenHandlesHeldOnce` | crates/moraine-duckdb/cpp/transaction_manager.cpp:102-189 | An open handle is held in exactly one place. |
| `TransactionRuns.NothingLeaks` | crates/moraine-duckdb/cpp/transaction_manager.cpp:16-29 | When no transaction is listed and no call runs, whether transactions ended or the manager was destroyed, every opened handle has been closed exactly once. |
| `TransactionRuns.CommitReachesItsEnd` | crates/moraine-duckdb/cpp/transaction_manager.cpp:145-170 | A commit's staged handle is committed, whatever the other clients do in between. |
| `TransactionRuns.RollbackReachesItsEnd` | crates/moraine-duckdb/cpp/transaction_manager.cpp:172-189 | A rollback's is rolled back. |
| `TransactionOwners.TouchesOnlyItsOwn` | crates/moraine-duckdb/cpp/transaction_manager.cpp:31-53 | In every run an open transaction can always read, write, commit and roll back, and every handle it touches is one it opened itself, told by the client's own steps: reads use its snapshot, writes its staged transaction, the end frees that snapshot and commits or rolls back that staged transaction, if it opened one. |
| `StagedWrite.MetadataDml.PinScannedRows` | crates/moraine-duckdb/cpp/staged_write.cpp:122-126 | The row list is taken once and kept. |
| `StagedWrite.MetadataDml.Sink` | crates/moraine-duckdb/cpp/staged_write.cpp:239-334 | A chunk stages one operation per row, built from the row its rowid names, or stops at the first bad rowid. |
| `StagedWriteTheorems.StagedOps` | crates/moraine-duckdb/cpp/staged_write.cpp:251-291 | With good rowids, the i-th staged operation is the one of the i-th input row. |
| `StagedWriteTheorems.OverlaidIs` | crates/moraine-duckdb/cpp/staged_write.cpp:271-289 | The staged row is SQL's SET of the old one, column by column: each column set has the value its last assignment gives, taken from the sink column it arrives in, and every other column what it had. |
| `StagedWriteTheorems.OverlaidKeepsKey` | crates/moraine-duckdb/cpp/staged_write.cpp:274-277 | Overlaying columns outside the key keeps the key. |
| `StagedRead.StoredIff` | crates/moraine/src/transaction/staged/decode.rs:8-109 | A staged row is decoded as it was given if and only if its cells number the table's, each is of its column's type, NULL only where that is optional, and no text holds a NUL, at which a C string ends. |
| `StagedRead.RefusalStays` | crates/moraine/src/transaction/staged/overlay.rs:64-97 | A staged row that cannot be decoded fails every later read of its table, alike. |
| `StagedWriteTheorems.StatisticsUpdateIff` | crates/moraine/src/transaction/staged/overlay.rs:138-162 | On the three statistics tables, for every UPDATE that sets no key column: reading again over the staged full rows gives exactly SQL's result, matched rows changed, others as they were, none added or doubled, if and only if every row to be can be stored as it is. |
| `StagedWriteTheorems.NullCountUnreadable` | crates/moraine-duckdb/cpp/staged_write.cpp:271-289 | Setting a record count to NULL: planned, staged, and from then on the table cannot be read. |
| `StagedWriteTheorems.OverwriteExactIff` | crates/moraine-duckdb/cpp/staged_write.cpp:483-494 | Overwriting one row by key is SQL's UPDATE of it if and only if the row keeps its key, which is what the planner refuses otherwise. |
| `StagedWriteTheorems.StatisticsPlans` | crates/moraine-duckdb/cpp/metadata_tables.cpp:981-1034 | On the three statistics tables an UPDATE is refused if and only if it sets a key column or asks for RETURNING, and a DELETE is keyed. |
| `StagedWriteTheorems.DeletePlans` | crates/moraine-duckdb/cpp/staged_write.cpp:508-527 | On every table a DELETE is keyed if and only if there is a delete key, goes to the registry if and only if there is none and the table is the void-insertable one, is void on any other, and is refused only for RETURNING. |
| `StagedWriteTheorems.VoidUpdateIff` | crates/moraine-duckdb/cpp/staged_write.cpp:450-506 | On every table an UPDATE is void if and only if it sets `end_snapshot` alone and the table has neither a lifecycle nor overlays. |
| `StagedWriteTheorems.DeletesMeanDeleteIff` | crates/moraine-duckdb/cpp/staged_write.cpp:311-334 | On every table with a delete key, for any matched rows: reading again over the staged deletes leaves exactly the unmatched rows, in order, if and only if the overlay looks for deletes of that table and no unmatched row shares the columns it removes by, or nothing was matched. |
| `StagedWriteTheorems.KeyedDeleteMeansDelete` | crates/moraine-duckdb/cpp/staged_write.cpp:311-334 | In particular always where no two rows share the delete key, on every table but the options, the schema versions and those whose rows are part of other records; column mappings go by their first column. |
| `StagedWriteTheorems.EmbeddedDeletesUnseen` | crates/moraine/src/transaction/staged.rs:759-780 | No staged delete of a row that is part of another record is seen on reading again: snapshot changes, partition columns, file partition values, sort expressions, column tags, macro implementations and parameters, name mappings. |
| `StagedMoves.LifecyclePlans` | crates/moraine-duckdb/cpp/staged_write.cpp:450-482 | On a lifecycle table the planner takes exactly `SET end_snapshot` and `SET begin_snapshot`, each of one column. |
| `StagedMoves.MoveExactIff` | crates/moraine/src/transaction/staged/overlay.rs:78-117 | Reading the staged move of one matched row again is SQL's UPDATE of it if and only if the core looks at the move, the value is an integer, and the row is live, or holds the value already and so does any live version of its entity. Begins are looked at for data files only, refused for the other entity records; ends and begins of column tags and begins of tags are not looked at, which is right only if the row holds the value already. |
| `StagedMoves.MovedPrefix` | crates/moraine/src/transaction/staged/overlay.rs:78-93 | What the staged rows of a lifecycle statement leave of any row: history is left alone, a live row takes the first end or the last begin that names its entity. |
| `StagedMoves.MovesMeanUpdateIff` | crates/moraine/src/transaction/staged/overlay.rs:64-117 | Every statement the planner takes on every lifecycle table, on any matched rows, live or history: reading again gives SQL's UPDATE if and only if, where the core moves versions, every value is an integer and for every row of the table the staged row that decides it carries the value SQL gives it, or it holds that value already; where it does not look, every matched row holds its value already; where it refuses, nothing was matched. |
| `StagedMoves.MovesMeanUpdate` | crates/moraine-duckdb/cpp/staged_write.cpp:256-270 | In particular always for integers on live rows, ends of all but column tags and begins of data files: exactly those rows change, each to its own value. |
| `StagedMoves.BeginMoveRefused` | crates/moraine/src/transaction/staged/overlay.rs:100-117 | `SET begin_snapshot` on any other entity record is planned and staged, and from the first matched row on the table cannot be read. |
| `StagedMoves.TagMoveUnseen` | crates/moraine/src/transaction/staged/overlay.rs:530-579 | Ends of column tags and begins of either kind of tag are planned and staged, and reading again shows the table as it was. |
| `StagedMoves.SecondTagStays` | crates/moraine/src/transaction/staged/overlay.rs:530-579 | Of two live entries with one key a tag's container ends the first only. |
| `StagedMoves.HistoryRowMisses` | crates/moraine-duckdb/cpp/staged_write.cpp:256-270 | A table where the matched row is history and the live version is ended instead. |
| `OptionsUpdate.StoredAgain` | crates/moraine/src/transaction/staged/overlay.rs:582-628 | The staged rows of an UPDATE of `ducklake_metadata` can be read again if and only if every value is a text or NULL, and then the stored options are overwritten by them, NULL as the empty text. |
| `OptionsUpdate.OverwrittenMembers` | crates/moraine/src/transaction/staged/overlay.rs:609-624 | After overwriting with rows of distinct keys the stored options hold each of those rows, and every row of another key as it was, and nothing else. |
| `OptionsUpdate.ListMembers` | crates/moraine-duckdb/cpp/metadata_tables.cpp:767-791 | With one stored row per key, the list is the store facts and the stored settings that are none. |
| `OptionsUpdate.OptionsUpdateMeans` | crates/moraine-duckdb/cpp/metadata_tables.cpp:1273-1294 | For every stored content and every UPDATE of `ducklake_metadata` that sets no key column: the list the transaction reads again is SQL's UPDATE of the list it scanned if and only if no served fact was to change and every matched user setting was given a text, neither NULL nor one with a NUL in it. A changed fact keeps its old value; a NULL is read as the empty text; what is no text cannot be read. |
| `OptionsUpdate.FactUpdateIsLost` | crates/moraine-duckdb/cpp/metadata_tables.cpp:776-783 | Setting any served fact to any other text is accepted and not seen on reading again. |
| `OptionsUpdate.NullReadsEmpty` | crates/moraine/src/transaction/staged/decode.rs:655-667 | Setting any user setting to NULL is accepted and read again as the empty text. |
| `OptionsCommit.CommittedUpdateIff` | crates/moraine/src/transaction/staged/apply.rs:406-413 | After the commit, for every committed content and every such UPDATE: the list served is SQL's UPDATE of the list scanned if and only if every matched user setting was given such a text, the encryption flag `true` or `false`, the data root a path with exactly one trailing slash, and version and writer what they are; the flag and the root are read from the committed options. |
| `OptionsCommit.ServedPathIff` | crates/moraine-duckdb/cpp/metadata_tables.cpp:694-743 | A data root is served as recorded if and only if it has exactly one trailing slash. |
| `OptionsCommit.DeleteUnreadable` | crates/moraine/src/transaction/staged/overlay.rs:598-601 | A DELETE on `ducklake_metadata` that matches any row is accepted, and from then on the transaction cannot read the table: three cells are staged and four decoded. |
| `OptionsCommit.CommittedDeleteIff` | crates/moraine/src/transaction/staged/apply.rs:757-773 | Its commit always goes through, and the list served afterwards is what SQL's DELETE leaves of the list scanned if and only if no matched row is a served fact other than the data root. |
| `MaintenanceOptions.MatchStep` | crates/moraine-duckdb/cpp/maintenance.cpp:150-166 | The loop over step specs finds the first step the option names. |
| `MaintenanceOptions.ReadOption` | crates/moraine-duckdb/cpp/maintenance.cpp:75-200 | Each option has the one effect its name and value call for, or is refused; `MaintenanceOptionNames` and `StepOptionReachesItsStep` say which, by name. |
| `MaintenanceOptions.CollectSteps` | crates/moraine-duckdb/cpp/maintenance.cpp:215-225 | Wanted steps come out in spec order; refused if and only if some step is switched off and parameterized. |
| `MaintenanceOptions.ParseMaintenanceOptions` | crates/moraine-duckdb/cpp/maintenance.cpp:69-227 | The parser returns the first refusal, or the finished configuration. |
| `MaintenanceOptionTheorems.NoTwoSteps` | crates/moraine-duckdb/cpp/maintenance.cpp:37-47 | No option string matches two steps. |
| `MaintenanceOptionTheorems.SecondsExactIff` | crates/moraine-duckdb/cpp/maintenance.cpp:82-94 | A count of seconds becomes that many milliseconds if and only if it is positive and the product fits in 64 bits. |
| `MaintenanceOptionTheorems.IntervalExactIff` | crates/moraine-duckdb/cpp/maintenance.cpp:82-94 | An INTERVAL becomes its whole milliseconds if and only if it has one; one shorter than a millisecond, of either sign, is refused and no other. |
| `MaintenanceOptionTheorems.IntervalPeriodIff` | crates/moraine-duckdb/cpp/maintenance.cpp:424-425 | The period the timer waits is signed, so for an accepted INTERVAL it is the interval's own whole milliseconds, sign and all, and positive if and only if the interval is a millisecond or longer. |
| `MaintenanceOptionTheorems.SecondsPeriodIff` | crates/moraine-duckdb/cpp/maintenance.cpp:424-425 | For an accepted count of seconds it is positive if and only if the milliseconds modulo 2^64 are below 2^63, and the count's own if and only if they are so without the modulus. |
| `MaintenanceOptionTheorems.NegativeIntervalAccepted` | crates/moraine-duckdb/cpp/maintenance.cpp:91-93 | The positive-duration check lets a negative INTERVAL through: minus one second is kept as 2^64 - 1000 milliseconds, and the timer's period is minus 1000 milliseconds, which is no wait at all. |
| `MaintenanceOptionTheorems.SlotHasOneName` | crates/moraine-duckdb/cpp/maintenance.cpp:75-196 | Each thing an option can set is set by one name only. |
| `MaintenanceOptionTheorems.StepOptionReachesItsStep` | crates/moraine-duckdb/cpp/maintenance.cpp:147-196 | An option named after a step, or a step and a parameter, reaches that step and no other, with the literal it was given; an interval for `older_than` is rendered as a rolling window. |
| `MaintenanceOptionNames.SwitchEffects` | crates/moraine-duckdb/cpp/maintenance.cpp:103-111 | `maintenance_sweep_indexes` and `maintenance_compact_store` switch as their value casts to a boolean, and are refused if it does not. |
| `MaintenanceOptionNames.BatchEffect` | crates/moraine-duckdb/cpp/maintenance.cpp:96-102 | `maintenance_batch_size` sets its unsigned value, and is refused at zero or if the cast fails. |
| `MaintenanceOptionNames.SubspaceEffect` | crates/moraine-duckdb/cpp/maintenance.cpp:112-131 | `maintenance_compact_store_subspace` sets its text, and is refused if the core does not know it. |
| `MaintenanceOptionNames.DurationEffects` | crates/moraine-duckdb/cpp/maintenance.cpp:82-94 | `maintenance_interval` and `maintenance_compact_store_timeout` set the milliseconds of their value, seconds or INTERVAL, and are refused if these are none. |
| `MaintenanceOptionNames.OtherNames` | crates/moraine-duckdb/cpp/maintenance.cpp:75-200 | Any other option is passed over if and only if it does not begin with `maintenance_`, and unknown if and only if what follows is none of these names and no step's, alone or followed by an underscore. |
| `MaintenanceOptionNames.GivenValues` | crates/moraine-duckdb/cpp/maintenance.cpp:69-227 | For every accepted list with distinct names the configuration has, for each of these options given, the value given. |
| `MaintenanceOptionNames.DefaultValues` | crates/moraine-duckdb/cpp/maintenance.cpp:69-227 | And for each not given its default: the sweep on, no interval, no batch size, no subspace, no timeout. |
| `MaintenanceOptionNames.CompactionIs` | crates/moraine-duckdb/cpp/maintenance.cpp:203-213 | The store is compacted as `maintenance_compact_store` says, and without it if and only if a subspace or a timeout is given. |
| `MaintenanceOptionTheorems.ParsedMeans` | crates/moraine-duckdb/cpp/maintenance.cpp:69-227 | For distinct names: accepted if and only if every option is good by itself and none is contradicted; and the configuration is told by which options were given, steps in spec order, each with exactly its parameters. |
| `MaintenanceOptionTheorems.OrderDoesNotMatter` | crates/moraine-duckdb/cpp/maintenance.cpp:69-227 | Any two listings of the same options with distinct names are accepted or refused alike and configure the same, up to argument order inside a step. |
| `MaintenancePass.IsConfigured` | crates/moraine-duckdb/cpp/maintenance.cpp:485-490 | Whether the attach configured the step. |
| `MaintenancePass.TakeStep` | crates/moraine-duckdb/cpp/maintenance.cpp:479-496 | One step is abandoned, skipped or run, as what came before demands. |
| `MaintenancePass.RunSteps` | crates/moraine-duckdb/cpp/maintenance.cpp:473-513 | For every configuration and outcome: the same eight steps in order; a DuckLake step is reported failed if and only if it is the first configured one that fails, and none runs after it; skipped if and only if it did not run; sweep and merge run as configured and are reported as they turn out, whatever the DuckLake steps did. |
| `MaintenancePass.PassHistory.Record` | crates/moraine-duckdb/cpp/maintenance.cpp:515-521 | The history is the last 16 of all passes. |
| `MaintenancePass.PassHistory.RecentPasses` | crates/moraine-duckdb/cpp/maintenance.cpp:447-451 | Entry k is the k-th newest pass; the smaller of 16 and all of them are served. |
| `Scheduler.StepKeepsInv` | crates/moraine-duckdb/cpp/maintenance.cpp:388-461 | Every step of any caller or timer keeps the lock and thread invariant. |
| `Scheduler.RunKeepsInv` | crates/moraine-duckdb/cpp/maintenance.cpp:388-461 | Every run keeps it. |
| `Scheduler.OnePassAtATime` | crates/moraine-duckdb/cpp/maintenance.cpp:453-461 | At most one pass is in progress, manual or scheduled. |
| `Scheduler.OneTimerAtATime` | crates/moraine-duckdb/cpp/maintenance.cpp:388-398 | At most one timer is alive, and none without an interval. |
| `Scheduler.StopIsFinal` | crates/moraine-duckdb/cpp/maintenance.cpp:400-410 | When any of several `Stop` calls returns, every timer has ended and been joined exactly once, and no scheduled pass runs or starts until a `Start` spawns again. |
| `Scheduler.EndsOnlyStopped` | crates/moraine-duckdb/cpp/maintenance.cpp:424-441 | In every run a timer has ended only by waking up while the stop flag stood. |
| `Scheduler.TickMeansPass` | crates/moraine-duckdb/cpp/maintenance.cpp:424-441 | From any state of any run a waiting timer that wakes unstopped goes into a pass if the pass lock is free, and back to waiting with nothing changed; back at once if it is taken; and ends once stopped. |
| `Scheduler.CallsDoTheirWork` | crates/moraine-duckdb/cpp/maintenance.cpp:388-461 | With an interval and no timer `Start` spawns one that waits, unstopped, and otherwise changes nothing; `Stop` sets the flag; `RunNow` goes into a pass if and only if no other is in progress. |
| `Scheduler.TimerNears` | crates/moraine-duckdb/cpp/maintenance.cpp:424-441 | While `Stop` joins, the timer always has a step, and it brings it nearer its end. |
| `Scheduler.OthersDoNotHinder` | crates/moraine-duckdb/cpp/maintenance.cpp:388-410 | No other step moves the timer back or clears the stop flag. |
| `Scheduler.StopReturnsSoon` | crates/moraine-duckdb/cpp/maintenance.cpp:400-441 | From any such state at most three timer steps let the join go through. |
| `OrderedKey.Encode` | crates/moraine/src/store/index_encoding.rs:150-161 | A value's canonical bytes number what the length function says. |
| `OrderedKey.EncodeColumn` | crates/moraine/src/store/index_encoding.rs:313-336 | One column's blob and length, or that it does not fit. |
| `OrderedKey.EncodeOrderedKey` | crates/moraine/src/store/index_encoding.rs:310-344 | The key, or the refusal for a misfit or for more than 1024 bytes. |
| `OrderedKeyTheorems.FlipTopAdds` | crates/moraine/src/store/index_encoding.rs:106-113 | Flipping the top bit of the bytes is adding or subtracting its weight. |
| `OrderedKeyTheorems.BigEndianOrder` | crates/moraine/src/store/index_encoding.rs:114-117 | Big-endian bytes of one width sort like the numbers and are injective. |
| `OrderedKeyTheorems.EncodeOrder` | crates/moraine/src/store/index_encoding.rs:104-148 | Canonical bytes of one type sort like the values, and are equal exactly for equal values, both zeros and all NaNs being equal. |
| `OrderedKeyTheorems.FrameOrder` | crates/moraine/src/store/index_encoding.rs:370-380 | Framed strings followed by anything compare by the strings first, and none is a prefix of another. |
| `OrderedKeyTheorems.ComplementOrder` | crates/moraine/src/store/index_encoding.rs:333-336 | Complemented frames compare the other way round. |
| `OrderedKeyTheorems.BlobOrder` | crates/moraine/src/store/index_encoding.rs:297-305 | A column's blob followed by anything compares by the column first: null placement independent of direction. |
| `OrderedKeyTheorems.MisfitIff` | crates/moraine/src/store/index_encoding.rs:319-328 | A key is refused for misfit if and only if some integer lies outside the range of its width, signed or unsigned. |
| `OrderedKeyTheorems.TooLongIff` | crates/moraine/src/store/index_encoding.rs:329-341 | A key is refused for its length if and only if every integer fits and the values' canonical bytes number more than 1024; NULLs, flags, escapes and terminators do not count. |
| `OrderedKeyTheorems.KeyOrderIsTupleOrder` | crates/moraine/src/store/index_encoding.rs:297-344 | Keys of any two tuples of one index compare byte by byte exactly as the tuples compare in SQL, and are equal exactly when the tuples are. |

## Left out

- The core's commit, conflict, fold and migration logic: the store is a history of states whose stamps move as `head_write` moves them.
- The staged overlay inside `MetadataCache` is any function of table kind, read point and staged rows; `StagedRead` models the overlay's own rules.
- Rowid resolution of the inline tables is against whatever list the sink is given: the code re-reads committed state there and relies on the deployment.
- MetadataCacheTheorems.HeldRowsStandAtTheirStamp: speaks of stamps below saturation only, because at saturation it is false; HeldAgreesIff gives the exact condition.
- MetadataCacheTheorems.FirstReadIsAHeadDuringTheCall: asks of a hit that its stamp is below saturation, because at saturation it is false; SaturatedStampServesStaleRows has the run.
- StagedMoves.MovesMeanUpdate: asks for live rows, integers and tables whose moves the core looks at, because otherwise it can be false; MovesMeanUpdateIff gives the exact condition without them.
- StagedMoves.MovesMeanUpdateIff: takes a tag's container to hold at most one live entry per key; there the overlay ends the first live entry only.
- OptionsUpdate.OptionsUpdateMeans: speaks of reading again inside the transaction, where the facts still come from the committed head; OptionsCommit.CommittedUpdateIff speaks of the list after the commit, when `encrypted` and `data_path` come from the options just set.
- OptionsCommit.CommittedUpdateIff: nothing else commits in between; with another writer the options keep the last write.
- What the core refuses only at commit: an end that is not the commit's own snapshot, a begin moved on a file of an earlier commit, a begin moved on a tag.
- Staged deletes of `ducklake_schema_versions`, whose dump is put together from three records.
- What `wait_for` does with a period past the clock's range.
- Failures of `moraine_tx_stage` itself, and the INSERT, void and registry sinks: of these only the plan decision is modelled.
- The Arrow importer, `VectorOperations::Copy` and DuckDB's casts are modelled by what they do to values; vectors other than flat ones are not.
- `MapColumnType`: a scalar keeps its SQL type text. The order in which a MAP's key and value are built is taken as key first.
- LogRoutingEvents.DrainHandsOverAll: speaks of a drain no other thread interrupts; EveryRecordInOnePlace and HandedWhereAsked hold of any interleaving.
- Lock poisoning, allocation failure, and sinks that log from inside a call.
- `HandleGuard` and thread tagging: an event carries its handle.
- The maintenance lifecycle epoch, the SQL a step issues, timestamps, and which error is reported when several options are bad.
- The metadata scan's windows: the same windowing is proved for the inline scan.
- Inline INSERT and UPDATE sinks, encoding of inline chunks, and the schema stream.
- Decoding index keys and the storekey framing of the enclosing entry key. A float is its bit pattern, and its numeric order is taken to be that of signed magnitudes.
- SQL surface functions, C ABI plumbing, object stores, secrets, build and bench tooling.
