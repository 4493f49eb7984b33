# otterbrix, modelled and verified in Dafny

otterbrix is a database engine in C++. This project models the parts of it whose correctness is
hardest to see, and proves what they promise:

* **MVCC indexes** (`Mvcc`, `IndexModel`, `TableRefinement`, `Isolation`, `Search`, `OrderedIndex`,
  `HashIndex`, `IndexEngine`, `CommitEffects`, `Sessions`, `ZeroTransaction`, `ZeroRefinement`). An index
  keeps versions stamped with transaction or commit ids and, per transaction, lists of what to stamp or
  undo. It is a state machine; over every run it answers each search like a scan of a naive versioned
  table, whichever cleanups happened. Snapshots are stable in every run of clock and index, except for
  commits that were in flight when they were taken. Aborts undo exactly their own work, and the indexes of
  a table agree on every row that has their key columns.
* **The disk-backed hash index** (`KeyCodec`, `DiskOverlay`, `DiskHashIndex`, `DiskAgreement`,
  `DiskWindow`). Stored rows overlaid with pending work agree with the in-memory hash index fed the same
  operations, exactly for the readers that the disk has not forgotten a stamp for.
* **The catalog** (`DependencyWalker`, `CascadePlanner`, `DdlBuilder`, `DdlCatalog`, `DdlDependents`,
  `OidGenerator`). The depth-first walk finds a cycle exactly when there is one, its drop order is complete
  and safe, a DROP finds everything that CREATE statements made depend on its object, catalogs built by DDL
  never have cycles, and OIDs are unique in every interleaving.
* **Stored text** (`Decimals`, `Tokens`, `OidCsv`, `TypeNames`, `TypeSpec`, `TypeParser`,
  `TypeRoundTrip`, `TypeStore`, `TypeTexts`, `DefaultSpec`). Which types, defaults and OID lists come back
  from the text they are stored as, and what becomes of the others.
* **Two smaller pieces** (`ListLayout`, `KernelDispatch`): the re-layout of LIST and ARRAY columns on
  UPDATE, and the overload test behind kernel dispatch.

Objects that the C++ code updates in place are classes, its loops are loops, and each method is proved
against a specification function or a step of a state machine; the theorems are about those. Values that
come from elsewhere are parameters: the order of keys, the order a hash container leaves its entries in, the
iteration order of hash maps, element casts, the printing of floating-point numbers, the order of threads.

## Findings

Some promises hold only under a condition. Each has a lemma with a failing input and one with the exact
condition.

* A search through an index and a scan of the table use different visibility filters. They agree for a
  transaction if and only if no commit was in flight when it began
  (`Mvcc.FiltersAgreeIffNothingInFlight`), and a commit can be (`Mvcc.CommitCanBeInFlight`).
* For the same reason a commit that was in flight when a transaction began can move its view of the index
  later (`Sessions.LateCommitMoves`). No other step of another transaction can (`Sessions.ViewHolds`), and
  such a commit does if and only if it brings a row into view or takes one out
  (`CommitEffects.ForeignCommitInsertIff`, `CommitEffects.ForeignCommitDeleteIff`).
* The `ne` search leaves out a row that also has a version under the searched key, even an invisible one:
  it is the complement of `eq` if and only if no such row exists (`Search.NeIsComplementIff`), and it is
  stable for a snapshot if and only if no visible row gains or loses such a version
  (`Search.NeStableIff`). The interface of the index allows runs in which it is not
  (`Search.NeLosesARow`, `Search.NeMoves`); they reuse a row id, and the index manager gives
  updated rows fresh ids.
* Work outside any transaction, such as the reloading of a reopened table, is restamped by the next commit
  that names the table. That moves the results of older readers
  (`ZeroTransaction.ReloadedRowVanishes`, `ZeroTransaction.DeletedRowReturns`), exactly when
  `ZeroTransaction.ZeroCommitInsertIff` and `ZeroTransaction.ZeroCommitDeleteIff` say.
* A delete whose chunk lacks a key column is skipped by that index, which keeps showing the row
  (`IndexEngine.SkippedDelete`). An index refines its table throughout a run if and only if every delete of
  a live row that has the key columns names the row by its own key (`IndexEngine.RunRefinesIff`).
* The disk forgets commit ids, so a lookup can show an old reader a new row
  (`DiskHashIndex.NewRowIsShown`). It is right if and only if no row of the key is too new or too old for
  the reader (`DiskHashIndex.OverlayScanIff`).
* A commit puts its inserts on disk before it drops their list. In between its own transaction finds such a
  row twice and others find it too early (`DiskWindow.RowIsThereTwice`); a lookup is right then if and only
  if the commit inserts nothing under the key (`DiskWindow.PutWindowIff`).
* `ne` on the disk-backed index gives no rows. That misses rows (`DiskAgreement.OtherRowIsMissed`) and is
  right if and only if every row the reader sees is under the key (`DiskAgreement.NoRowsIsRightIff`).
* The two halves of a mirrored commit are sent inserts first. The other order would bring a row back from
  the dead (`DiskAgreement.DeletesFirstResurrects`).
* The dependency walk colours by OID alone: shared OIDs can both feign and hide a cycle, OID 0 hides one
  (`DependencyWalker.SharedOidIsTakenForACycle`, `DependencyWalker.SharedOidHidesACycle`,
  `DependencyWalker.OidZeroHidesACycle`). Over given objects it is right on every graph if and only if their
  OIDs differ and none is 0 (`DependencyWalker.ExactIff`). Catalogs grown by DDL satisfy that.
* The OID counter can wrap if and only if there are more threads than the headroom above the hard limit
  (`OidGenerator.WrapsIff`).
* Storing a type loses it if a name inside contains a delimiter, and a lone scalar always
  (`TypeStore.SpecRoundTrip`, `TypeStore.ScalarIsLost`); a text can decode to a type that cannot be written
  (`TypeStore.UnreadableDecimalHasNoName`).
* Overloads that passed the conflict test are dispatched independently of their order if and only if the
  call has arguments and all their types are default or registered ones
  (`KernelDispatch.OrderFreeIff`). NULL literals are not: an integer and a string overload both match
  (`KernelDispatch.NullIsAmbiguous`). In the repository as it stands nothing calls the conflict test.

## Model

| member | source | states |
|---|---|---|
| `Mvcc.TicksKeepInv` | components/table/transaction_manager.cpp:11-111 | Over every run of begin, commit, publish, abort and the restoring of the clock at reopen, the timestamps stay ordered and each snapshot splits the commits into seen, in flight and later |
| `Mvcc.SessionsOpenAndClose` | components/table/transaction_manager.cpp:11-111 | Begin opens a session and is without effect on an open one, commit and abort close it and are without effect otherwise, and no step touches another session |
| `Mvcc.InFlightIsUnpublished` | components/table/transaction_manager.cpp:11-111 | In every run the commits in flight are exactly those handed out and not published |
| `Mvcc.BeginSeesPublished` | components/table/transaction_manager.cpp:11-92 | A session that begins after any run sees in the table exactly the commits published by then |
| `Mvcc.PublishShows` | components/table/transaction_manager.cpp:78-92 | From any state of the clock, a published commit is seen by every session that begins afterwards |
| `Mvcc.FiltersAgreeIffNothingInFlight` | components/index/index.hpp:27-38 | In every reachable clock state the index filter and the table filter agree on all stamps for an active transaction if and only if its snapshot has no commit in flight |
| `Mvcc.IndexSeesInFlightToo` | components/table/row_version_manager.cpp:20-31 | What the index filter sees is what the table filter sees plus the commits in flight |
| `Mvcc.InFlightSplitsTheFilters` | components/table/row_version_manager.cpp:20-31 | For every in-flight commit there is a version the index shows and the table does not |
| `Mvcc.CommitCanBeInFlight` | components/table/transaction_manager.cpp:11-50 | A transaction that begins after another's commit and before its publishing has that commit in flight |
| `Mvcc.CommittedReaderAgrees` | components/index/index.hpp:29-33 | The reader of committed rows sees what the table filter shows a reader whose horizon is beyond every commit |
| `IndexModel.EditListedIsEditAll` | components/index/single_field_index.cpp:101-163 | Editing the first hit of every listed entry equals editing every version that carries the transaction's id, when the list covers them with multiplicity |
| `IndexModel.ResolveIsEditAll` | components/index/single_field_index.cpp:101-163 | Commit and revert stamp or drop every version of the transaction, and none carrying its id is left |
| `IndexModel.StepKeepsInv` | components/index/single_field_index.cpp:73-181 | Every operation, cleanup included, keeps each active transaction's pending lists covering its stamps with multiplicity |
| `IndexModel.ListedInOrder` | components/index/single_field_index.cpp:73-98 | Entries are listed in the order they come, each under its own transaction |
| `TableRefinement.StepRefines` | components/index/single_field_index.cpp:73-181 | Every operation keeps the index a refinement of the naive table: versions are the table's, and only expired ones are missing |
| `TableRefinement.RunRefines` | components/index/single_field_index.cpp:73-181 | The same after every run from an empty index |
| `TableRefinement.SelectIsScan` | components/index/index.cpp:130-143 | An index that refines a table shows a reader exactly the rows the table shows, each once |
| `TableRefinement.IndexRefinesTableScan` | components/index/index.cpp:130-195 | In every run every search predicate is answered like a table scan, for readers at or after all cleanup thresholds |
| `Isolation.SnapshotStable` | components/index/single_field_index.cpp:73-181 | A reader's result is unchanged, as a multiset, by any sequence of other transactions' work, later commits and admissible cleanups; in its order too unless a hash container reordered its versions |
| `Isolation.ForeignStepUnseen` | components/index/index.hpp:29-38 | One step of another transaction changes nothing the reader sees, inserts that rehash included |
| `Isolation.CleanupIsExact` | components/index/single_field_index.cpp:165-181 | Cleanup removes exactly the versions whose delete every transaction from the threshold on sees as done; the others stay in their order, and so do the lists of all transactions |
| `Isolation.AbortRestores` | components/index/single_field_index.cpp:133-163 | From a state without stamps of `t`, any own work of `t` followed by both reverts in either order restores the storage as a multiset, and exactly where no container reordered it, and drops only `t`'s lists |
| `CommitEffects.EditListedMoves` | components/index/single_field_index.cpp:100-131 | A walk over a pending list adds to a result what its versions show afterwards and takes away what they showed before |
| `CommitEffects.CoveredAreMet` | components/index/single_field_index.cpp:100-131 | The walk of a commit meets exactly the versions that carry the transaction's id |
| `CommitEffects.ForeignCommitInsertIff` | components/index/single_field_index.cpp:100-115 | Another transaction's insert commit, at any commit id, leaves a reader's result alone if and only if the id is not below the reader's start or it brings no wanted row into view |
| `CommitEffects.ForeignCommitDeleteIff` | components/index/single_field_index.cpp:117-131 | The same for its delete commit, which takes rows out of view |
| `Sessions.SnapshotStays` | components/table/transaction_manager.cpp:11-111 | In every joint run a session keeps its snapshot while it is active |
| `Sessions.TimelyIsForeign` | components/physical_plan/operators/operator_commit_transaction.cpp:199-252 | A step of the index between taking and publishing commit ids is the session's own, a commit in flight when it began, or one it cannot see |
| `Sessions.ViewHolds` | components/physical_plan/operators/operator_commit_transaction.cpp:199-335 | In every run of clock and index, others do not move an active session's view unless a commit lands that was in flight when the session began |
| `Sessions.QuietBeginHolds` | components/physical_plan/operators/operator_commit_transaction.cpp:199-335 | A session that began with nothing in flight is never moved by others |
| `Sessions.LateCommitMoves` | components/physical_plan/operators/operator_commit_transaction.cpp:199-252 | A run in which a commit taken before and stamped after a begin adds a row to the view of the later session |
| `ZeroTransaction.ZeroCommitInsertIff` | services/index/manager_index.cpp:997-1006 | Committing the inserts listed under transaction id 0 leaves a reader's result alone if and only if the commit id lies below its start or none of the restamped rows was in the result |
| `ZeroTransaction.ZeroCommitDeleteIff` | services/index/manager_index.cpp:1085-1096 | The same for deletes under id 0, which would come back |
| `ZeroTransaction.ListedAreMet` | components/index/single_field_index.cpp:100-131 | Where row ids are distinct, every listed version with the id is restamped |
| `ZeroTransaction.ReloadedRowVanishes` | services/index/manager_index.cpp:799-828 | A row inserted at reopen under id 0 vanishes from an older reader's result at the next commit |
| `ZeroTransaction.DeletedRowReturns` | services/index/manager_index.cpp:1085-1096 | A row deleted under id 0 comes back to an older reader at the next commit |
| `ZeroRefinement.ZeroStepRefines` | services/index/manager_index.cpp:799-1011 | Every step, those under id 0 included, keeps the index a refinement of a table that remembers what list 0 names |
| `ZeroRefinement.ZeroRunRefines` | services/index/manager_index.cpp:799-1011 | The same in every run from the empty index |
| `ZeroRefinement.ZeroRefinesTableScan` | services/index/manager_index.cpp:799-1011 | In every run with work outside transactions, a search finds exactly the visible wanted rows, each once |
| `Search.RangeIsMatch` | components/index/single_field_index.cpp:49-65 | On storage sorted by any total order each of the five ranges selects exactly the visible versions whose key compares as asked |
| `Search.RangesPartition` | components/index/index.cpp:145-170 | lt, eq and gt partition the visible versions, lte is lt plus eq, gte is eq plus gt |
| `Search.OtherFindsNothing` | components/index/index.cpp:130-195 | A comparison that is none of the six finds nothing |
| `Search.NeIsComplementIff` | components/index/index.cpp:171-189 | ne is the complement of eq if and only if no visible row under another key also has a version under the searched key |
| `Search.NeLosesARow` | components/index/index.cpp:171-189 | A run of the index, from empty, after which ne misses a row it should give |
| `Search.NeStableIff` | components/index/index.cpp:171-189 | Over any sequence of foreign steps ne stays put if and only if no visible row gains or loses its versions under the key, seen or not |
| `Search.NeMoves` | components/index/index.cpp:171-189 | A foreign pending insert that reuses a visible row id takes the row out of ne |
| `Search.NeStable` | components/index/index.cpp:171-189 | With row ids distinct at both ends ne stays put, like the other comparisons |
| `Search.SearchIsScan` | components/index/index.cpp:130-195 | In every run all six comparisons of the ordered index give exactly the rows of a table scan, each once |
| `StorageLoops.Filter` | components/index/index.cpp:137-143 | The filter loop selects the visible rows of a range, in order |
| `StorageLoops.DropStale` | components/index/single_field_index.cpp:165-181 | The bucket sweep keeps the lists of transactions and drops resolved ones |
| `OrderedIndex.OrderedIndex.Insert` | components/index/single_field_index.cpp:32-39 | The insert outside a transaction is a `Load` step and keeps the storage sorted |
| `OrderedIndex.OrderedIndex.InsertTxn` | components/index/single_field_index.cpp:73-84 | An `Insert` step that keeps the storage sorted and lists the entry as pending |
| `OrderedIndex.OrderedIndex.MarkDelete` | components/index/single_field_index.cpp:86-99 | A `MarkDelete` step: the first live version of key and row is stamped and listed, or nothing happens |
| `OrderedIndex.OrderedIndex.FirstHit` | components/index/single_field_index.cpp:86-99 | Walking the equal range finds the first version in storage that fits |
| `OrderedIndex.OrderedIndex.CommitInsert` | components/index/single_field_index.cpp:101-115 | A `CommitInsert` step on the whole state |
| `OrderedIndex.OrderedIndex.CommitDelete` | components/index/single_field_index.cpp:117-131 | A `CommitDelete` step on the whole state |
| `OrderedIndex.OrderedIndex.RevertInsert` | components/index/single_field_index.cpp:133-147 | A `RevertInsert` step on the whole state |
| `OrderedIndex.OrderedIndex.RevertDelete` | components/index/single_field_index.cpp:149-163 | A `RevertDelete` step on the whole state |
| `OrderedIndex.OrderedIndex.CleanupVersions` | components/index/single_field_index.cpp:165-181 | A `Cleanup` step, which removes what `Isolation.CleanupIsExact` says |
| `OrderedIndex.OrderedIndex.Search` | components/index/index.cpp:130-195 | Range searches over the multimap give the visible rows whose key compares as asked |
| `OrderedIndex.OrderedIndex.SearchNe` | components/index/index.cpp:171-189 | The nested loops give the visible rows that have no version under the key |
| `HashIndex.EqualRangeSelect` | components/index/hash_single_field_index.cpp:44-47 | Filtering the equal range gives the visible rows of the key, in storage order |
| `HashIndex.RangesAreRefused` | components/index/hash_single_field_index.cpp:30-66 | A search is refused exactly for the four range comparisons |
| `HashIndex.HashIndex.InsertTxn` | components/index/hash_single_field_index.cpp:67-74 | An `Insert` step, whatever order a rehash leaves the other versions in |
| `HashIndex.HashIndex.MarkDelete` | components/index/hash_single_field_index.cpp:76-88 | A `MarkDelete` step |
| `HashIndex.HashIndex.CommitInsert` | components/index/hash_single_field_index.cpp:90-104 | A `CommitInsert` step |
| `HashIndex.HashIndex.CommitDelete` | components/index/hash_single_field_index.cpp:106-120 | A `CommitDelete` step |
| `HashIndex.HashIndex.RevertInsert` | components/index/hash_single_field_index.cpp:122-136 | A `RevertInsert` step |
| `HashIndex.HashIndex.RevertDelete` | components/index/hash_single_field_index.cpp:138-152 | A `RevertDelete` step |
| `HashIndex.HashIndex.CleanupVersions` | components/index/hash_single_field_index.cpp:154-170 | A `Cleanup` step |
| `HashIndex.HashIndex.Search` | components/index/hash_single_field_index.cpp:44-57 | eq and ne give the visible rows of the key and of the rest, range comparisons are refused |
| `HashIndex.HashSearchIsScan` | components/index/hash_single_field_index.cpp:44-170 | In every run eq and ne of the hash index give exactly the rows of a table scan, each once |
| `IndexEngine.Engine.Apply` | components/index/index_engine.cpp:151-205 | The fan-out loop moves every ordered and hash index of the table by its own step and leaves an index alone whose columns the chunk lacks |
| `IndexEngine.ForwardedIff` | components/index/index_engine.cpp:47-75 | A row reaches an index exactly when it has all its key columns, and the first one is the key |
| `IndexEngine.EngineStepRefines` | components/index/index_engine.cpp:151-175 | One row operation, forwarded or skipped, keeps an index a refinement of the rows that have its key columns |
| `IndexEngine.StepRefinesIff` | components/index/index_engine.cpp:151-175 | A step keeps an index a refinement of its rows if and only if it is no delete of a live row that has the key columns under another key or without them |
| `IndexEngine.EngineRunRefines` | components/index/index_engine.cpp:151-205 | The same in every run, for every index of the table |
| `IndexEngine.RunRefinesIff` | components/index/index_engine.cpp:151-205 | An index refines its rows at every moment of a run if and only if every delete of a live row that has the key columns names it by its own key |
| `IndexEngine.EngineRefinesTable` | components/index/index_engine.cpp:151-205 | In every run a search through any index of the table finds exactly the visible rows that have its key columns and whose key is wanted, each once |
| `IndexEngine.IndexesAgreeIff` | components/index/index_engine.cpp:151-205 | Two indexes of a table show a reader the same rows if and only if every visible row has the key columns of both or of neither |
| `IndexEngine.SkippedDelete` | components/index/index_engine.cpp:164-175 | A delete whose chunk lacks a key column leaves the row alive in that index |
| `KeyCodec.LeRoundTrip` | components/index/logical_value_binary_codec.hpp:16-44 | Little-endian bytes of any width read back |
| `KeyCodec.LeByte` | components/index/logical_value_binary_codec.hpp:16-44 | The lowest byte comes first |
| `KeyCodec.WordRanges` | components/index/logical_value_binary_codec.hpp:91-144 | The range of every fixed-size type, by number |
| `KeyCodec.DecimalWord` | components/index/logical_value_binary_codec.hpp:91-144 | A decimal takes the smallest word of two bytes or more that holds all its digits |
| `KeyCodec.EncodedParts` | components/index/logical_value_binary_codec.hpp:91-144 | What stands where behind the tag: the word, the length and the text, or width, scale and the word |
| `KeyCodec.AppendLe` | components/index/logical_value_binary_codec.hpp:16-21 | The byte loop appends exactly the little-endian digits |
| `KeyCodec.AppendValue` | components/index/logical_value_binary_codec.hpp:91-144 | Appends the encoding of the value, or throws for a type without one |
| `KeyCodec.EncodeDiskKey` | components/index/logical_value_binary_codec.hpp:245-312 | The separately written disk-key encoder gives the same bytes |
| `KeyCodec.ReadBackIff` | components/index/logical_value_binary_codec.hpp:146-243 | Read at any offset of any buffer, an encoded value comes back and exactly its bytes are used, if and only if its type is readable |
| `KeyCodec.CutShortFails` | components/index/logical_value_binary_codec.hpp:146-243 | An encoding that is cut short anywhere cannot be read |
| `KeyCodec.BooleanByte` | components/index/logical_value_binary_codec.hpp:146-243 | A boolean byte is true unless it is zero |
| `KeyCodec.TagsRead` | components/index/logical_value_binary_codec.hpp:146-243 | Only the known tags are read |
| `KeyCodec.PrefixFree` | components/index/logical_value_binary_codec.hpp:91-243 | No encoding is a proper prefix of another, and encodings are injective |
| `KeyCodec.KeyRoundTrip` | components/index/disk_hash_single_field_index.cpp:25-56 | Decoding a stored key and encoding it again gives the same bytes |
| `KeyCodec.KeyInjective` | components/index/disk_hash_single_field_index.cpp:25-56 | Keys share their bytes if and only if they are equal once normalized |
| `KeyCodec.FiledTogetherIff` | components/index/disk_hash_single_field_index.cpp:25-47 | A row filed under one value is found under another if and only if they are equal, or integers of one signedness and value whatever their width |
| `KeyCodec.FiledTag` | components/index/disk_hash_single_field_index.cpp:25-47 | Integers are filed under the tag of their widest type, every other value under its own |
| `KeyCodec.EnumIsUnreadable` | components/index/disk_hash_single_field_index.cpp:44-55 | An enum key has bytes that cannot be read back |
| `DiskOverlay.DiskStepMirrors` | components/index/disk_hash_single_field_index.cpp:111-166 | Every operation, each half of a commit and of an abort being one, keeps storage plus pending lists a mirror of the versioned table |
| `DiskOverlay.DiskStepFrame` | components/index/disk_hash_single_field_index.cpp:58-142 | What every step leaves alone, and which list it empties |
| `DiskOverlay.MirrorInsertsMirrors` | services/index/manager_index.cpp:907-1011 | Sending pending inserts to storage and clearing them keeps the mirror |
| `DiskOverlay.MirrorDeletesMirrors` | services/index/manager_index.cpp:1014-1097 | Sending pending deletes to storage and clearing them keeps the mirror |
| `DiskOverlay.RevertInsertMirrors` | components/index/disk_hash_single_field_index.cpp:135-135 | Dropping the pending inserts keeps the mirror, pending deletes of the vanished rows included |
| `DiskOverlay.RevertDeleteMirrors` | components/index/disk_hash_single_field_index.cpp:140-140 | Dropping the pending deletes keeps the mirror |
| `DiskHashIndex.OverlayMembers` | components/index/disk_hash_single_field_index.cpp:62-91 | The overlay holds each present version of the key exactly once, with the stamps the overlay shows |
| `DiskHashIndex.OverlayScanIff` | components/index/disk_hash_single_field_index.cpp:62-91 | Eq over the overlay is the table scan, whatever the order of the pending maps, if and only if no row of the key was inserted after the reader's start and shown, or deleted after it and dropped |
| `DiskHashIndex.NewestIsServed` | components/index/disk_hash_single_field_index.cpp:62-91 | Readers newer than every commit are such readers |
| `DiskHashIndex.NewRowIsShown` | components/index/disk_hash_single_field_index.cpp:62-91 | A row committed after a reader began is shown to it |
| `DiskHashIndex.DiskHashIndex.InsertTxn` | components/index/disk_hash_single_field_index.cpp:111-117 | Lists the entry under the encoded key |
| `DiskHashIndex.DiskHashIndex.MarkDelete` | components/index/disk_hash_single_field_index.cpp:119-125 | Lists the delete under the encoded key |
| `DiskHashIndex.DiskHashIndex.CommitInsert` | services/index/manager_index.cpp:907-1011 | Puts every pending insert of the transaction on disk under its re-encoded key, then drops the list |
| `DiskHashIndex.DiskHashIndex.CommitDelete` | services/index/manager_index.cpp:1013-1097 | Erases every pending delete from disk, then drops the list |
| `DiskHashIndex.ReEncodeIff` | components/index/disk_hash_single_field_index.cpp:44-55 | A pending key is filed again under its own bytes unless it is an enum |
| `DiskHashIndex.DiskHashIndex.RevertInsert` | components/index/disk_hash_single_field_index.cpp:135-135 | Drops the pending inserts of the transaction |
| `DiskHashIndex.DiskHashIndex.RevertDelete` | components/index/disk_hash_single_field_index.cpp:140-140 | Drops the pending deletes of the transaction |
| `DiskHashIndex.DiskHashIndex.Find` | components/index/disk_hash_single_field_index.cpp:62-91 | The find loops compute the overlay of stored rows, pending inserts and pending deletes |
| `DiskHashIndex.DiskHashIndex.Search` | components/index/index.cpp:130-195 | eq gives the visible rows of the overlay, ne finds nothing, ranges are refused, and a key without an encoding throws |
| `DiskAgreement.MirroredKeyIsFound` | components/index/disk_hash_single_field_index.cpp:144-166 | A key mirrored to storage lands under the bytes that find looks up |
| `DiskAgreement.DeletesFirstResurrects` | services/index/manager_index.cpp:907-1097 | In the other order a row inserted and deleted by one transaction would stay in storage |
| `DiskAgreement.DiskAgreesWithMemory` | components/index/disk_hash_single_field_index.cpp:62-166 | Fed the same steps, with other work between the halves of a commit, disk and in-memory hash index answer eq with the same rows, each once, if and only if no row of the key is too new or too old for the reader |
| `DiskAgreement.NoRowsIsRightIff` | components/index/index.cpp:171-189 | The empty ne result of the disk-backed index is that of the in-memory index if and only if every visible row is under the key |
| `DiskAgreement.OtherRowIsMissed` | components/index/index.cpp:171-189 | A run in which ne should give a row |
| `DiskWindow.PutWindow` | services/index/manager_index.cpp:934-1006 | Between putting inserts on disk and dropping their list, a lookup gives every reader exactly one row more for each of them under the key |
| `DiskWindow.PutWindowIff` | services/index/manager_index.cpp:934-1006 | There a lookup is right if and only if the commit inserts nothing under the key |
| `DiskWindow.RowIsThereTwice` | services/index/manager_index.cpp:934-1006 | The committing transaction finds its row twice, another finds it once before the commit is done |
| `DiskWindow.EraseWindow` | services/index/manager_index.cpp:1029-1096 | Between erasing deleted rows and dropping their list, a lookup gives what it gives afterwards |
| `DependencyWalker.ClosedHasNoCycle` | components/catalog/dependency_walker.cpp:24-48 | Objects finished by the walk lie on no cycle |
| `DependencyWalker.ScanInOrder` | components/catalog/dependency_walker.cpp:24-48 | The scan gives the dependents of an object in row order |
| `DependencyWalker.Dfs` | components/catalog/dependency_walker.cpp:24-48 | The recursion ends on every graph and computes the specified walk |
| `DependencyWalker.WalkObjGood` | components/catalog/dependency_walker.cpp:24-48 | From an object the walk closes a cycle that exists, or finishes the object with all rows below it, dependents first, each once |
| `DependencyWalker.WalkIsExact` | components/catalog/dependency_walker.cpp:24-60 | A cycle is reported if and only if one is reachable, at an object on a cycle; otherwise the order is exactly the reachable `pg_depend` rows, dependents first |
| `DependencyWalker.ExactIff` | components/catalog/dependency_walker.cpp:24-60 | Over given objects the walk is right about the cycles of every graph, and right in all it answers, if and only if their OIDs differ and none is the invalid one |
| `DependencyWalker.TopologicalDropOrder` | components/catalog/dependency_walker.cpp:51-60 | Gives the walk from the seed on every graph, with the exact answer wherever OIDs name one object each below the seed |
| `DependencyWalker.SharedOidIsTakenForACycle` | components/catalog/dependency_walker.cpp:31-36 | Two objects of one OID below each other are reported as a cycle |
| `DependencyWalker.SharedOidHidesACycle` | components/catalog/dependency_walker.cpp:31-36 | An object that shares the OID of a finished one is skipped with the cycle below it |
| `DependencyWalker.OidZeroHidesACycle` | components/catalog/dependency_walker.cpp:29-36 | A cycle through OID 0 is not reported |
| `CascadePlanner.PlanDrop` | components/catalog/cascade_planner.cpp:5-45 | RESTRICT is refused exactly when some object depends normally on the seed, and names the one in the first such row; where OIDs below the seed name one object each, CASCADE plans the whole closure once per row with the seed last, or reports the cycle |
| `CascadePlanner.CascadeIsGood` | components/catalog/cascade_planner.cpp:32-44 | The appended seed completes the order: it is no earlier step, and the steps name exactly the reachable objects |
| `DdlBuilder.BuildCreateTable` | components/catalog/ddl_metadata_builder.cpp:114-235 | The table builder draws from the batch exactly the OIDs of the table and its columns, in order, and writes their rows |
| `DdlCatalog.CreateTableFrom` | components/catalog/ddl_metadata_builder.cpp:114-235 | What the batch gave out are the OIDs of the objects the statement creates |
| `DdlBuilder.FillTable` | components/catalog/ddl_metadata_builder.cpp:204-235 | The chunk sized by the first loop is filled with one row per typed column and the namespace row last |
| `DdlBuilder.FillIndex` | components/catalog/ddl_metadata_builder.cpp:501-534 | Table row first, then one row per known column |
| `DdlBuilder.FillConstraint` | components/catalog/ddl_metadata_builder.cpp:666-712 | Table row, column rows, and the referenced table last for foreign keys |
| `DdlDependents.RowsAreDependencies` | components/catalog/ddl_metadata_builder.cpp:114-712 | The rows of every CREATE statement are exactly its dependencies, listed statement by statement with their kinds |
| `DdlDependents.ColumnRowAt` | components/catalog/ddl_metadata_builder.cpp:204-235 | The row of a column stands behind one row for each typed column before it |
| `DdlDependents.OnColumnsAt` | components/catalog/ddl_metadata_builder.cpp:501-533 | The same for the column rows of indexes and constraints |
| `DdlDependents.RowsInOrder` | components/catalog/ddl_metadata_builder.cpp:204-712 | How many rows a statement writes and in which order |
| `DdlDependents.CatalogsDiffer` | components/catalog/catalog_oids.hpp:20-90 | The catalogs have different OIDs |
| `DdlDependents.CreateAddsDependents` | components/catalog/ddl_metadata_builder.cpp:114-712 | After a CREATE the scan of any object finds what it found before and what the statement adds |
| `DdlDependents.DropForgetsRows` | components/catalog/cascade_planner.cpp:32-44 | A drop leaves exactly the rows it keeps, and frees no OID |
| `DdlDependents.CascadeAfterCreate` | components/catalog/cascade_planner.cpp:32-44 | CASCADE from anything a statement names lists the objects it made depend on it |
| `DdlDependents.RestrictAfterCreate` | components/catalog/cascade_planner.cpp:12-30 | RESTRICT is refused exactly when something depended normally before or the statement made something do so |
| `DdlDependents.NewObjsIff` | components/catalog/ddl_metadata_builder.cpp:114-712 | The objects a statement creates |
| `DdlDependents.CreateRegisters` | components/catalog/ddl_metadata_builder.cpp:114-712 | After a legal CREATE the catalog knows exactly what it knew and what the statement creates |
| `DdlCatalog.DdlKeepsLayered` | components/catalog/ddl_metadata_builder.cpp:114-712 | Every CREATE with unused OIDs, and every removal of rows, keeps all dependency rows pointing from younger to older known objects |
| `DdlCatalog.DdlKeepsUpward` | components/catalog/ddl_metadata_builder.cpp:114-712 | With OIDs above all earlier ones, every row also points from the larger OID to the smaller |
| `DdlCatalog.StartIsUpward` | components/catalog/ddl_metadata_builder.cpp:114-712 | A catalog without dependency rows is such a catalog |
| `DdlCatalog.RunKeepsLayered` | components/catalog/ddl_metadata_builder.cpp:114-712 | The same over every run of statements, in any order of their OIDs |
| `DdlCatalog.GeneratorOidsAreFresh` | components/catalog/catalog_oids.hpp:102-122 | OIDs drawn in any interleaving while the counter is above the catalog are fresh, and the counter is above the catalog that has them |
| `DdlCatalog.SeededIsAbove` | components/catalog/catalog_oids.hpp:114-122 | Seeding with the catalog's highest OID puts the counter above it |
| `DdlCatalog.DrawnRunIsLegal` | components/catalog/oid_batch.hpp:14-30 | Statements whose OIDs were drawn by any threads in any interleaving, and applied in any order, form a legal run |
| `DdlCatalog.DrawnInTurnIsUpward` | components/catalog/catalog_oids.hpp:102-122 | Statements that draw in turn keep every row pointing from the larger OID to the smaller |
| `DdlCatalog.LayeredIsNamedAndAcyclic` | components/catalog/dependency_walker.cpp:24-60 | In such a catalog no cycle is reachable from any object, and the walk is exact |
| `DdlCatalog.DropCascade` | components/catalog/cascade_planner.cpp:32-44 | After any DDL run CASCADE from any object succeeds with a complete plan |
| `OidGenerator.StepKeepsInv` | components/catalog/catalog_oids.hpp:92-127 | Every atomic step of every thread keeps the counter below wrap-around and the returned OIDs distinct |
| `OidGenerator.EveryInterleaving` | components/catalog/catalog_oids.hpp:102-122 | In every interleaving of at most 65535 threads the counter never falls or wraps, OIDs are distinct, and one drawn after a finished seed exceeds it |
| `OidGenerator.DrawsAreCounted` | components/catalog/catalog_oids.hpp:102-112 | In every run each draw returns an OID or stops its thread, and without seeds the counter moves by the number of draws |
| `OidGenerator.SeedsAreRecorded` | components/catalog/catalog_oids.hpp:114-122 | A seed that ends has left the counter above its mark and the reserved range, one that goes on has learnt the counter |
| `OidGenerator.SeedBegins` | components/catalog/catalog_oids.hpp:114-116 | A seed aims one above its mark and at the first user OID at least |
| `OidGenerator.AlwaysEnabled` | components/catalog/catalog_oids.hpp:102-122 | No thread is ever stuck |
| `OidGenerator.WrapsIff` | components/catalog/catalog_oids.hpp:92-122 | Some interleaving of `n` threads makes the counter fall if and only if `n` exceeds 65535 |
| `Decimals.NatRoundTrip` | components/catalog/helpers.cpp:8-36 | The digits of a number, followed by anything but a digit, read back |
| `Decimals.IntRoundTrip` | components/catalog/system_table_schemas.cpp:936-1025 | The same with a sign, within the bounds of the type read |
| `Decimals.NatTooBig` | components/catalog/helpers.cpp:8-26 | A number out of range is refused, whatever follows it |
| `Decimals.IntOutOfRange` | components/catalog/system_table_schemas.cpp:936-1025 | The same with a sign |
| `Decimals.NoNumber` | components/catalog/helpers.cpp:8-26 | Text that does not start with a digit is no number, and a sign alone is none |
| `Decimals.LeadingZero` | components/catalog/helpers.cpp:8-26 | Leading zeros change nothing |
| `Tokens.SplitJoin` | components/catalog/helpers.cpp:8-36 | Splitting the joined text of non-empty separator-free tokens gives the tokens |
| `Tokens.SplitJoinAll` | components/catalog/helpers.cpp:8-36 | Splitting joined text gives all tokens back, empty ones included, but for an empty one at the end |
| `OidCsv.ParseOidCsv` | components/catalog/helpers.cpp:8-26 | The loop reads every token; empty and unreadable ones are dropped, wide numbers truncated to 32 bits |
| `OidCsv.EncodeOidCsv` | components/catalog/helpers.cpp:28-36 | The loop writes the decimal texts with commas between them |
| `OidCsv.CsvRoundTrip` | components/catalog/helpers.cpp:8-36 | Every list of OIDs comes back from its text |
| `OidCsv.CsvOfNumbers` | components/catalog/helpers.cpp:8-36 | Of the text of any numbers, those beyond 64 bits are left out and the others cut to 32 |
| `OidCsv.BadTokenIsSkipped` | components/catalog/helpers.cpp:8-26 | A token that does not start with a digit is passed over |
| `TypeNames.NamesReadBack` | components/catalog/system_table_schemas.cpp:319-446 | Among all canonical names and aliases, each written name is read as its own type |
| `TypeNames.KindOfIff` | components/catalog/system_table_schemas.cpp:366-446 | A name is read as a type if and only if it is the name written for it or one of its listed aliases |
| `TypeNames.WrittenNames` | components/catalog/system_table_schemas.cpp:319-364 | The name written for every type |
| `TypeNames.NamesAreTokens` | components/catalog/system_table_schemas.cpp:319-364 | No scalar name holds a delimiter or can be taken for an enum or a variant |
| `TypeSpec.EncodeNested` | components/catalog/system_table_schemas.cpp:451-509 | The recursive writer gives the text of the type |
| `TypeSpec.EncodeMembers` | components/catalog/system_table_schemas.cpp:479-503 | The member loops of STRUCT and UNION, which differ in the first comma |
| `TypeParser.ReadToken` | components/catalog/system_table_schemas.cpp:516-522 | Reads up to the next delimiter; a start past the end throws |
| `TypeParser.SkipArgs` | components/catalog/system_table_schemas.cpp:619-628 | Skips to the matching parenthesis or the end |
| `TypeParser.ParseFlatType` | components/catalog/system_table_schemas.cpp:524-629 | Ends on every text, reads nothing past its end, and computes the specified parse |
| `TypeParser.ReadMembers` | components/catalog/system_table_schemas.cpp:582-616 | The member loop reads members while commas follow |
| `TypeRoundTrip.RoundTrip` | components/catalog/system_table_schemas.cpp:451-629 | A clean type written anywhere in a text and followed by the end, a comma or a parenthesis is read back whole, and the reader stops right after it |
| `TypeStore.DecodeTypeSpec` | components/catalog/system_table_schemas.cpp:682-728 | Decoding ends with a type for every text; a thrown read gives the nameless unknown type |
| `TypeStore.DecodeEntries` | components/catalog/system_table_schemas.cpp:694-718 | The entry loop of enums: tokens without `=` are skipped, an unreadable number rejects the whole |
| `TypeStore.DecodedIsStorable` | components/catalog/system_table_schemas.cpp:682-728 | Whatever any text decodes to, unless a lone scalar, is storable |
| `TypeStore.FormsDiffer` | components/catalog/system_table_schemas.cpp:658-728 | The nested form and the enum form can never be taken for each other |
| `TypeStore.EnumReadBack` | components/catalog/system_table_schemas.cpp:658-718 | An enum with a colon-free name, labels free of `,` and `=` and 32-bit numbers comes back |
| `TypeStore.SpecRoundTrip` | components/catalog/system_table_schemas.cpp:631-728 | A type survives storing and decoding if and only if it is storable |
| `TypeStore.SpecInjective` | components/catalog/system_table_schemas.cpp:631-679 | Different storable types have different texts |
| `TypeStore.DecodeIsStableIff` | components/catalog/system_table_schemas.cpp:631-728 | What was decoded from a text and can be written survives storing and decoding again if and only if it is no lone scalar |
| `TypeStore.ScalarIsLost` | components/catalog/system_table_schemas.cpp:631-686 | The name of a scalar decodes to it, and storing that loses it |
| `TypeStore.UnreadableDecimalHasNoName` | components/catalog/system_table_schemas.cpp:538-557 | A list of an unreadable decimal decodes to a type that holds a nameless unknown, which cannot be written |
| `TypeTexts.DecimalText` | components/catalog/system_table_schemas.cpp:450-512 | The documented form of decimals |
| `TypeTexts.UnknownText` | components/catalog/system_table_schemas.cpp:450-512 | The documented form of unknown types and variants |
| `TypeTexts.ListText` | components/catalog/system_table_schemas.cpp:450-512 | The documented form of lists |
| `TypeTexts.ArrayText` | components/catalog/system_table_schemas.cpp:450-512 | The documented form of arrays |
| `TypeTexts.MapText` | components/catalog/system_table_schemas.cpp:450-512 | The documented form of maps, key first |
| `TypeTexts.MemberForms` | components/catalog/system_table_schemas.cpp:450-512 | A struct lists its name and its members, a union its members, with commas between |
| `TypeTexts.EnumForm` | components/catalog/system_table_schemas.cpp:658-679 | An enum lists its labels and numbers behind its name |
| `TypeTexts.WhatComesBack` | components/catalog/system_table_schemas.cpp:450-728 | A type that does not survive comes back with each part that has no text of its own replaced by an unknown type that carries its code |
| `TypeTexts.KeywordsIff` | components/catalog/system_table_schemas.cpp:524-629 | The words that open a type with arguments, and no others |
| `TypeTexts.WordDecodes` | components/catalog/system_table_schemas.cpp:524-536 | A single word is a scalar type exactly under its names and aliases, the variant type under its name, and otherwise an unknown type of that name |
| `TypeTexts.ForeignCall` | components/catalog/system_table_schemas.cpp:619-628 | A word that is no keyword keeps its name, and its arguments are passed over up to the parenthesis that closes them |
| `TypeTexts.ForeignCallDecodes` | components/catalog/system_table_schemas.cpp:619-628 | The same for a whole text |
| `TypeTexts.DecimalTexts` | components/catalog/system_table_schemas.cpp:538-557 | Width and scale pass through eight bits; a width over 38 makes the whole text unreadable, a number beyond 32 bits only its type |
| `TypeTexts.ArrayTexts` | components/catalog/system_table_schemas.cpp:562-577 | The size of an array takes 64 bits; a larger one makes its type unreadable |
| `TypeTexts.EnumWithoutList` | components/catalog/system_table_schemas.cpp:686-694 | An enum text without a list has no entries |
| `TypeTexts.CellIff` | components/catalog/system_table_schemas.cpp:694-718 | A token without `=` is passed over; any other is a label up to the first `=` and a number behind it |
| `TypeTexts.EntriesIff` | components/catalog/system_table_schemas.cpp:694-718 | A list is refused exactly when a token has an unreadable number, and otherwise gives the entries of its tokens in order |
| `TypeTexts.EnumTexts` | components/catalog/system_table_schemas.cpp:686-728 | An enum text with a list is an enum with the entries of the list, or unreadable with a bad one |
| `TypeTexts.MissingParts` | components/catalog/system_table_schemas.cpp:558-590 | A list may lack its closing parenthesis; a map or an array may not lack its second part |
| `DefaultSpec.DefaultRoundTrip` | components/catalog/system_table_schemas.cpp:883-1025 | Every boolean, integer of 8 to 64 bits and string comes back, colons included, a float if and only if the platform reads its own print; NULL and unkept values give no default |
| `DefaultSpec.DecodedIsWellTyped` | components/catalog/system_table_schemas.cpp:936-1025 | Every text gives no default or one in the range of its type, out-of-range numbers having wrapped |
| `DefaultSpec.PlainDefaults` | components/catalog/system_table_schemas.cpp:936-1025 | A boolean is true for `1` and false for every other text; strings are taken as they are |
| `DefaultSpec.NumberDefault` | components/catalog/system_table_schemas.cpp:936-1025 | A number in the range that is read for its kind wraps into the kind, any other is refused |
| `DefaultSpec.PlainForms` | components/catalog/system_table_schemas.cpp:883-934 | The texts of NULL, of values that are not kept, of booleans and of strings |
| `ListLayout.Reach` | components/expressions/update_expression.cpp:137-145 | The cast prefix reaches the end of every row's slice |
| `ListLayout.PieceOfArray` | components/expressions/update_expression.cpp:126-135 | Element `j` of an ARRAY row lies `row` strides in, and is cast unless NULL |
| `ListLayout.PieceOfList` | components/expressions/update_expression.cpp:126-135 | Element `j` of a LIST row lies `j` behind its offset, and is cast unless NULL |
| `ListLayout.PieceOfNull` | components/expressions/update_expression.cpp:153-202 | A NULL row has no elements, any other as many as its slot or stride says |
| `ListLayout.ArraysCover` | components/expressions/update_expression.cpp:126-135 | An ARRAY column covers its rows exactly when it has a stride of elements for each |
| `ListLayout.ListColumn.Assign` | components/expressions/update_expression.cpp:122-174 | The child buffer becomes the rows' cast slices in order, every slot points at its slice, other rows stay |
| `ListLayout.ListColumn.AssignElement` | components/expressions/update_expression.cpp:225-238 | Writes element `j` of the rows longer than `j` and reports exactly those |
| `ListLayout.RowsTile` | components/expressions/update_expression.cpp:153-174 | Row slices are contiguous from 0 to the size, the size is the sum of their lengths, each reads its source elements |
| `ListLayout.RowsAreApart` | components/expressions/update_expression.cpp:153-174 | No two rows share an element |
| `ListLayout.ElementUpdate` | components/expressions/update_expression.cpp:225-238 | Over slots that lie apart each row changes in element `j` only, and only if it is longer than `j` |
| `ListLayout.AssignThenElement` | components/expressions/update_expression.cpp:122-238 | A whole-column assignment followed by an element update, as each row then reads |
| `ListLayout.ArrayColumn.Assign` | components/expressions/update_expression.cpp:177-202 | The first rows are replaced by their fitted elements and no other slot changes |
| `ListLayout.RowsAt` | components/expressions/update_expression.cpp:177-202 | Slot `row * stride + j` holds source element `j`, or NULL past the source's length or for a NULL row |
| `ListLayout.ArrayColumn.AssignElement` | components/vector/vector_operations.cpp:893-910 | The strided copy writes one slot per row |
| `ListLayout.StridedAt` | components/vector/vector_operations.cpp:893-910 | It changes element `j` of each row and no other slot |
| `KernelDispatch.MatchesInputs` | components/compute/kernel_signature.cpp:97-107 | True exactly when the arity fits and every position matches |
| `KernelDispatch.CheckSignatureConflicts` | components/compute/kernel_signature.cpp:177-216 | True exactly when the arities differ, there are no arguments, or some position has no known type in common |
| `KernelDispatch.ConflictIsExact` | components/compute/kernel_signature.cpp:177-216 | For equal arity of at least one, a conflict is reported if and only if some list of known types matches both |
| `KernelDispatch.Dispatch` | components/compute/function.cpp:434-446 | Gives the first matching kernel, or none |
| `KernelDispatch.FirstIsMatch` | components/compute/function.cpp:434-446 | The kernel given matches and none before it does; none is given only if none matches |
| `KernelDispatch.MatchersIff` | components/compute/kernel_signature.cpp:117-142 | Which type codes the integer and the string test accept, and which are default types |
| `KernelDispatch.OrderFreeIff` | components/compute/function.cpp:434-446 | Dispatch over pairwise conflict-free kernels is independent of their order if and only if there are arguments and all are of known types |
| `KernelDispatch.NullIsAmbiguous` | components/compute/kernel_signature.cpp:117-142 | An integer and a string overload pass the test, yet dispatch of a NULL argument depends on their order |

## Left out

- Keys: the ordered index is modelled over keys with any total order, the hash index over any key type; casts of keys and time zones are not modelled, and floating-point keys on disk are compared by their bits.
- The unversioned `search` and `remove` of the index interface: they bypass the versions that the theorems are about. Entries under transaction id 0 are modelled in `ZeroTransaction` and `ZeroRefinement`; aborts under that id are not.
- B-tree, hash-map and bitcask internals, write-ahead log, disk actors and error returns of index disk agents: storage is a multimap with put, get and erase.
- Snapshot stability of the disk-backed index: stored rows carry no stamps, so it holds only in the form of `DiskAgreement.DiskAgreesWithMemory`. Other steps inside the windows of `DiskWindow` are not modelled.
- Multi-column keys: an index with several key columns takes the value of the first, as the code does; registration, lookup and dropping of indexes in the engine are not modelled.
- DiskOverlay.MirrorInsertsMirrors: the list of transaction id 0, which the same call also mirrors, is left out, because entries under that id are visible before any commit; putting and clearing are one step here, and `DiskWindow.PutWindow` says what lookups give in between.
- DiskOverlay.MirrorDeletesMirrors: the list of transaction id 0 is left out for the same reason; erasing and clearing are one step here, and `DiskWindow.EraseWindow` says what lookups give in between.
- DiskHashIndex.DiskHashIndex.CommitInsert: the list of transaction id 0 and errors of the disk are left out; a pending key whose bytes cannot be read back, an enum, is passed over where the code throws.
- DiskHashIndex.DiskHashIndex.CommitDelete: the list of transaction id 0, errors of the disk and pending enum keys are left out likewise.
- DiskAgreement.DiskAgreesWithMemory: assumes row ids are not reused while a list names them, one deleter per row, deletes of existing entries, and inserts committed before deletes; each mirror is one step with its clearing, and the in-memory index is given keys already cast to the column type.
- DependencyWalker.WalkIsExact: assumes that below the seed an OID names one object and is not the invalid OID; `DependencyWalker.ExactIff` shows that over given objects nothing weaker will do. `DdlCatalog.LayeredIsNamedAndAcyclic` proves the assumption of every catalog grown by DDL.
- CascadePlanner.PlanDrop: its claims about CASCADE carry the assumption of `DependencyWalker.WalkIsExact`; on other graphs it promises the walk's own answer.
- DependencyWalker.WalkObjGood: carries the same assumption, as the step of that proof.
- Isolation.SnapshotStable: its traces have no commit with an id below the reader's start; `Sessions.ViewHolds` says which runs have none, and `CommitEffects.ForeignCommitInsertIff` and `CommitEffects.ForeignCommitDeleteIff` what such a commit does.
- Isolation.ForeignStepUnseen: the same.
- Search.NeStable: the special case of `Search.NeStableIff` for distinct row ids.
- IndexEngine.Engine.Apply: reaches ordered and hash indexes; a disk-backed one, which takes the same calls, has its own class.
- IndexEngine.EngineStepRefines: assumes that deletes of live rows name them by their own key, which `IndexEngine.StepRefinesIff` shows to be exactly what is needed.
- IndexEngine.EngineRunRefines: the same; see `IndexEngine.RunRefinesIff`.
- IndexEngine.EngineRefinesTable: the same.
- IndexEngine.IndexesAgreeIff: the same, for both indexes.
- DiskOverlay.DiskStepMirrors: a mirror is one step with its clearing; `DiskWindow.PutWindow` and `DiskWindow.EraseWindow` say what lookups give in between.
- TypeStore.DecodeTypeSpec: a decimal whose scale exceeds its width decodes like any other, as in builds without assertions; with them the constructor of the type stops the program.
- The columns of catalog rows other than dependencies, and catalog reads: only `pg_depend` rows matter to dropping.
- OID allocation in batches over messages, and relaxed memory ordering beyond the atomicity of each step.
- The list overload of the signature check compares equal positions only; it is not used in any theorem.
- Whether an UPDATE of a LIST or ARRAY column should clear an earlier NULL flag: the modelled loops only set flags. Assigning a LIST column to itself, and string elements in strided copies, are not modelled.
- The text of function argument matchers, logical plans, expression printing, cursors, logging, configuration and scripts.
