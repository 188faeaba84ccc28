# A verified model of a small SQL storage engine

The engine keeps each table in one page of row versions, behind a buffer pool, with a B+ tree from
row ids to slots; sessions run BEGIN, COMMIT, ROLLBACK and single statements over it under
multi-version visibility; a catalog file lists the tables.  The Dafny files model these parts and
prove what they promise together.  `dafny verify dfyconfig.toml` checks everything.

How the files hang together:

- `BPlusForest.dfy` says what a B+ tree is, on a snapshot of its nodes, with the one intermediate
  state of the algorithm: a tree with one right sibling waiting to be entered a level higher.
  `BPlusTree.dfy` is the code on heap nodes with parent and next pointers, for any node size of at
  least two keys.  `BPlusProperties.dfy` has what follows: the leaf chain, depth, height, sequences
  of inserts.
- `Mvcc.dfy` is the transaction table, snapshots and visibility.  `Session.dfy` has the statements as
  steps of a state machine and `SessionEngine.dfy` the code, proved to take those steps.
  `SessionRefinement.dfy` and `SessionProperties.dfy` show when runs of the machine are runs of an
  ordinary database with a committed and a working copy, and `SessionTables.dfy` the same of each table
  by itself; `SessionEffects.dfy` says what that means for the slots of a page and for what SELECT prints.
  `SessionTrace.dfy` gives an exact meaning to every statement, also where they are not.
  `SessionRollback.dfy` is what ROLLBACK leaves behind, and `SessionJoin.dfy` what JOIN prints.
- `SessionIndex.dfy`, `SessionLookup.dfy` and `RowKeys.dfy` are about the index of a table: lookup
  against scan, over every run; `SessionFinds.dfy` says what is found.  `SessionRebuild.dfy` is the index rebuilt from a page, and
  `SessionRestart.dfy` the next start of the program: the index it gets, and what its runs see of the
  versions left by the former ones.  `SessionFailures.dfy` has runs in which promises fail.
- `PageBytes.dfy` is the byte layout of a page.  `RowCodec.dfy`, `RowText.dfy`, `RowProperties.dfy`,
  `RowNumbers.dfy` and `RowUpdate.dfy` are the textual rows, their numbers and the SET clause.  `StoredTable.dfy` puts page bytes,
  B+ tree, row text and visibility together and proves them against the session's table.
- `Storage.dfy`, `BufferPool.dfy`, `BufferProperties.dfy` and `BufferRecency.dfy` are the buffer pool,
  for any number of frames: coherence, pins, least recently used over whole traces.
- `Catalog.dfy`, `CatalogTables.dfy`, `CatalogProperties.dfy` and `CatalogRuns.dfy` are the catalog
  and its file.

What the system decides is a parameter: how a page transfer turns out, whole, failed or cut short, and
whether opening the catalog succeeds.

Where the code does less than its README or its comments promise, the model follows the code, and a
lemma says exactly when the promise holds:

- A transaction that deletes or updates a row it inserted itself still sees the old row until COMMIT
  (`OwnDeleteShows`, `StepRefinesExactly`, `CommitPublishesExactly`).
- An UPDATE on a full page marks the old row before finding that there is no room, and loses it
  (`FullUpdateLoses`, `UpdateWithoutRoom`, `StepRefinesExactly`).
- The transaction table never frees an entry, so ROLLBACK by a transaction after the first hundred
  publishes what it wrote (`RolledBackRowExactly`, `RollbackHidesExactly`).
- A transaction without an entry counts as committed before a restart, says a comment.  After one, so
  does a rolled back one (`RolledBackRowReturns`); and ids start at 1 again, so that the new process
  reads old versions by the status of its own transactions: a ROLLBACK that undoes nothing hides rows
  committed before (`EmptyRollbackHides`), and a row that transaction n inserted and deleted comes back
  for the next transaction n (`OwnDeleteShows`).  `RestartKeepsExactly` says which versions a given run
  misreads, `RestartLastsExactly` which ones no run does, and `PlainRestartKeepsExactly` what is left
  when nothing is undone.
- ROLLBACK does not undo index entries, so a lookup can miss a row the scan shows (`RollbackHidesRow`,
  `RollbackLookupExactly`, `LookupInEveryRun`); what it reports is right in every run
  (`LookupIsSoundInEveryRun`).
- JOIN opens the files of its tables without the directory of the database (`JoinMisses`,
  `JoinExactly`, `JoinReadsPaths`).
- The index rebuilt at start is read from the directory of the database `default`, which no statement
  fills, and not from that of the table (`StartLookupMisses`, `StartIndexIsEmpty`, `StartLookupExactly`).
- A column set to the empty text moves the later ones to the left (`EmptiedColumn`,
  `UpdateChangesExactly`).  A row beginning with an empty field can be indexed under another key than
  its id column (`EmptyFirstField`, `KeyedExactly`).
- A read cut short overwrites a frame that stays valid for the page it held (`FetchKeepsExactly`).  The
  executor leaves no such frame: it invalidates the frames of a file in the statement that filled them.
- A reference named "-" is lost by the catalog file (`InitUndoesSaveExactly`).
- `catalog_create_table` would store a cut name twice (`PlainKeepsUniqueExactly`), and a second
  `catalog_init` in one process misplace what it reads (`SecondInitExactly`).  The program does neither:
  names are read with "%63s" before they get there, and no caller initialises the catalog again.
- The inconsistency message of `insert_into_parent` can never appear: that branch is proved dead.

## Model

| member | source | states |
|---|---|---|
| BPlusTree.Tree.constructor | index/btree.c:13-37 | a new tree is one empty leaf: valid, and stores the empty map |
| BPlusTree.Tree.FindLeafIndex | index/btree.c:5-11 | the index found separates the keys not above the search key from those above it |
| BPlusTree.Tree.FindLeaf | index/btree.c:39-50 | descent reaches the leaf responsible for the key, in exactly as many steps as the root is above the leaves |
| BPlusTree.Tree.Search | index/btree.c:52-68 | reports a key exactly when the tree stores it, with the reference stored for it |
| BPlusTree.Tree.InsertIntoLeaf | index/btree.c:70-84 | the pair is put at the one place that keeps the keys sorted; every other pair is kept |
| BPlusTree.Tree.MergeLeaf | index/btree.c:86-112 | the temporary arrays are the full leaf with the new pair at its sorted place |
| BPlusTree.Tree.DivideLeafNode | index/btree.c:114-134 | the two leaves are the halves of the merged leaf, the new one after the old one in the chain, its first key promoted |
| BPlusTree.Tree.SplitLeaf | index/btree.c:86-135 | a leaf split leaves a valid tree but for one waiting right sibling, and stores the new key |
| BPlusTree.Tree.SplitLeafAndInsert | index/btree.c:86-138 | a split with the whole cascade above it ends in a valid tree storing the old map updated at the key |
| BPlusTree.Tree.InsertIntoInternal | index/btree.c:140-156 | the separator and the child to its right are put side by side into the gap; the child is re-parented |
| BPlusTree.Tree.GetChildIndex | index/btree.c:158-166 | finds the child, and answers -1 exactly when it is not there |
| BPlusTree.Tree.MergeInternal | index/btree.c:168-194 | the temporary arrays are the full node with the separator and the new child put in |
| BPlusTree.Tree.DealOut | index/btree.c:196-241 | the two nodes are the halves around the promoted key; every moved child, and no other node, gets its new parent |
| BPlusTree.Tree.SplitInternalAndInsert | index/btree.c:168-244 | splitting an internal node keeps the stored map and ends in a valid tree, whatever is split above |
| BPlusTree.Tree.InsertIntoParent | index/btree.c:246-275 | from a valid tree with one waiting sibling to a valid tree storing the same map; the branch for a child its parent does not list is proved dead, in the middle of a cascade too; terminates by distance to the root |
| BPlusTree.Tree.Insert | index/btree.c:277-304 | for every valid tree, key and reference: a valid tree again, whose map is the old one updated at the key |
| BPlusForest.GrowRootValid | index/btree.c:246-260 | a new root over a split root makes the waiting pair a valid tree |
| BPlusForest.EnterValid | index/btree.c:262-274 | entering the waiting sibling into a parent with room makes the tree valid |
| BPlusForest.EnterOverfull | index/btree.c:262-274 | entering it into a full parent breaks nothing but that parent's key limit |
| BPlusForest.SplitWaits | index/btree.c:168-243 | dividing an overfull internal node leaves the tree valid but for one new waiting sibling, one level up |
| BPlusForest.SplitLeafWaits | index/btree.c:114-137 | dividing an overfull leaf does the same, and links the leaf chain |
| BPlusForest.OverwriteValid | index/btree.c:283-289 | storing a new reference for a present key changes the map at that key only |
| BPlusForest.PutValid | index/btree.c:291-297 | putting a new pair into a leaf with room changes the map at that key only |
| BPlusForest.LeavesApart | index/btree.c:114-137 | two different leaves are responsible for disjoint ranges of keys |
| BPlusForest.OneLeaf | index/btree.c:39-50 | exactly one leaf is responsible for a key |
| BPlusProperties.OnePlace | index/btree.c:162-243 | no sharing and no cycles: every node but the root hangs at one place, below the node its parent pointer names and one level lower |
| BPlusProperties.Depth | index/btree.c:39-50 | following parent pointers from any node reaches the root in as many steps as the node is below it: all leaves have one depth |
| BPlusProperties.ScanReadsTheMap | index/btree.c:114-137 | following next from the leftmost leaf visits every leaf once in order, and the keys read are strictly increasing and exactly those stored |
| BPlusProperties.KeysBelow | index/btree.c:39-50 | a node above whose leaves are h levels has at least as many keys below it as half-full nodes force |
| BPlusProperties.HeightBound | index/btree.c:39-50 | a tree of height h stores at least twice what a minimal subtree of height h - 1 does, for every node size |
| BPlusProperties.HeightBoundOrderFour | index/btree.c:39-50 | with three keys per node a tree of height h >= 1 stores at least 2^(h+1) keys |
| BPlusProperties.InsertAll | index/btree.c:277-304 | any sequence of inserts leaves a valid tree whose map is the old one updated insert by insert |
| BPlusProperties.SearchAfterInserts | index/btree.c:52-68 | after any sequence of inserts into a new tree of any node size a search finds a key exactly if it was inserted, with the reference of its last insert |
| Mvcc.TxTable.Init | transaction/mvcc.c:9-16 | the table is empty and ids start at 1 |
| Mvcc.TxTable.Begin | transaction/mvcc.c:18-34 | hands out the next id, and records it as active as long as there is a free entry |
| Mvcc.TxTable.Commit | transaction/mvcc.c:36-47 | the entry of the id, if it has one, becomes committed |
| Mvcc.TxTable.Abort | transaction/mvcc.c:49-60 | the entry of the id, if it has one, becomes aborted |
| Mvcc.TxTable.IsCommitted | transaction/mvcc.c:77-97 | an id is committed if its entry says so, or if it has no entry |
| Mvcc.TxTable.CreateSnapshot | transaction/mvcc.c:114-142 | collects the active ids other than its own, their least, and the next id |
| Mvcc.TxTable.SnapshotContains | transaction/mvcc.c:144-154 | membership in the active list |
| Mvcc.TxTable.IsVisible | transaction/mvcc.c:156-188 | the visibility rule, branch by branch |
| Mvcc.ActiveAmongMeaning | transaction/mvcc.c:121-139 | the active list is increasing, without repetition, and exactly the active ids |
| Mvcc.SnapshotIsExact | transaction/mvcc.c:114-142 | a snapshot lists exactly the other active transactions, never truncated; its xmin is the least of them, or the next id when there is none, and its xmax the next id |
| SessionEngine.Engine.BeginTransaction | query/executor.c:1762-1775 | BEGIN: the state becomes that of the step Begin, also inside an open transaction |
| SessionEngine.Engine.CommitTransaction | query/executor.c:1777-1802 | COMMIT ends the open transaction, if there is one, as committed |
| SessionEngine.Engine.RollbackTransaction | query/executor.c:1804-1821 | ROLLBACK ends it as aborted |
| SessionEngine.Engine.EnsureIndex | query/executor.c:41-62 | an index is made on first use, for at most 32 tables |
| SessionEngine.Engine.Insert | query/executor.c:224-322 | the whole state after INSERT, full page and autocommit included |
| SessionEngine.Engine.Delete | query/executor.c:651-717 | marks the first visible row with that id and nothing else |
| SessionEngine.Engine.DeleteAll | query/executor.c:1307-1379 | marks every visible row and no other |
| SessionEngine.Engine.Update | query/executor.c:1180-1305 | marks the row found and appends the changed one, or loses it on a full page |
| SessionEngine.Engine.Select | query/executor.c:324-471 | prints the visible rows in slot order |
| SessionEngine.Engine.SelectWhereId | query/executor.c:473-562 | answers through the index what LookupId says |
| SessionEngine.Engine.Join | query/executor.c:775-878 | pairs the visible rows with equal ids of the two files it opens |
| Session.OpenSnapshotShows | transaction/mvcc.c:156-188 | the snapshot of an open transaction, with or without an entry in the table, shows the committed rows as changed by itself |
| Session.FreshSnapshotShows | transaction/mvcc.c:156-188 | a new snapshot shows exactly the committed rows, however many transactions there have been |
| Session.StatementSees | query/executor.c:372-382 | what a statement sees is the working copy, in a transaction and in autocommit |
| Session.KilledIsHidden | transaction/mvcc.c:156-188 | marking a row hides it unless the marking transaction inserted it; others see that on COMMIT |
| SessionEffects.InsertWrites | query/executor.c:273-310 | INSERT writes one version behind the others, with the text cut to 239 characters, while the page has fewer than sixteen, and nothing else |
| SessionEffects.DeleteMarks | query/executor.c:682-699 | DELETE WHERE id marks the one version that is visible, whose number in front is the id, and before which none is so; no other slot changes, and none at all if there is no such version |
| SessionEffects.DeleteAllMarks | query/executor.c:1348-1364 | DELETE without WHERE marks every visible version and changes no other |
| SessionEffects.UpdateMarks | query/executor.c:1245-1286 | UPDATE WHERE id marks the first visible version whose field in the column named id is that number, and writes the changed row behind the others if fewer than sixteen are there |
| SessionEffects.InsertPrints | query/executor.c:416-456 | after INSERT the next SELECT prints one row more, the text cut to 239 characters, if there was room |
| SessionEffects.DeletePrints | query/executor.c:682-699 | after DELETE WHERE id it prints all rows but the first with that number in front |
| SessionEffects.UpdatePrints | query/executor.c:1245-1286 | after UPDATE WHERE id it prints all rows but the first with that id column, and the changed row last |
| SessionEffects.DeleteAllPrints | query/executor.c:1348-1364 | after DELETE without WHERE it prints nothing |
| SessionEffects.OthersPrint | query/executor.c:416-456 | reading, and statements on other tables, change nothing it prints |
| SessionEffects.BoundaryPrints | query/executor.c:1762-1802 | BEGIN, and COMMIT of a transaction that marked no row of its own, change nothing it prints |
| SessionRefinement.HitIsFirstRow | query/executor.c:1245-1262 | the first visible version that matches is the first matching row |
| SessionRefinement.InsertRefines | query/executor.c:283-310 | INSERT is: append to the working rows, if the page has room |
| SessionRefinement.DeleteRefines | query/executor.c:682-699 | DELETE is: drop the first row with that id |
| SessionRefinement.UpdateRefines | query/executor.c:1245-1286 | UPDATE is: drop the first row with that id and append the changed one |
| SessionRefinement.DeleteAllRefines | query/executor.c:1348-1364 | DELETE without WHERE is: drop all rows |
| SessionRefinement.BeginRefines | query/executor.c:1762-1775 | BEGIN is: the working copy becomes the committed one, and an open transaction is discarded, if it has an entry or nothing to publish |
| SessionRefinement.CommitRefines | query/executor.c:1777-1802 | COMMIT is: publish the working copy |
| SessionRefinement.RollbackRefines | query/executor.c:1804-1821 | ROLLBACK is: discard the working copy, under the same condition |
| SessionRefinement.StepSound | query/executor.c:1674-1990 | every statement keeps the invariant of sessions |
| SessionProperties.GuardedStepRefines | query/executor.c:1674-1990 | within its guard every statement does what it does to an ordinary database with a committed and a working copy |
| SessionProperties.StepRefinesExactly | query/executor.c:1245-1286 | a statement does what the ordinary database does if and only if it is within its guard: DELETE finds no row of the own transaction, UPDATE one of its own exactly if the page is full, COMMIT no own row marked, and undoing a transaction without an entry publishes nothing |
| SessionProperties.AutocommitIsGuarded | query/executor.c:273-279 | autocommit statements always satisfy the guard, but for an UPDATE on a full page |
| SessionProperties.UpdateWithoutRoom | query/executor.c:1259-1284 | an UPDATE on a full page loses the row it found |
| SessionProperties.RunRefines | query/executor.c:1674-1990 | a run of any length is a run of the ordinary database as long as every statement is within its guard |
| SessionProperties.FromTheStart | query/executor.c:1674-1990 | the same from empty tables, with no other assumption on the state |
| SessionTables.TableRefinesExactly | query/executor.c:1674-1990 | for each table by itself: a statement does to it what it does to the ordinary table if and only if it is within its guard as far as that concerns this table |
| SessionTables.RunRefinesTable | query/executor.c:1674-1990 | a run of any length is, for a table whose guards it keeps, a run of the ordinary database, whatever it does to other tables |
| SessionTables.TableFromTheStart | query/executor.c:416-456 | after such a run from empty tables SELECT prints the rows of the ordinary table |
| SessionTables.GuardIsPerTable | query/executor.c:1674-1990 | the guard of a statement asks that of every table, and nothing else |
| SessionProperties.SelectShowsWorking | query/executor.c:416-456 | SELECT prints exactly the working rows, in order |
| SessionProperties.CommitPublishesExactly | transaction/mvcc.c:159-161 | COMMIT publishes exactly what the transaction saw if and only if it marked none of its own rows |
| SessionProperties.OpenKeepsCommitted | query/executor.c:372-382 | no statement of an open transaction changes what others see |
| SessionRollback.RollbackIsAtomic | query/executor.c:1804-1821 | after BEGIN of a transaction with fewer than a hundred before it, any statements and ROLLBACK the committed rows of every table are those before BEGIN |
| SessionRollback.EarlyRollbackPrints | query/executor.c:1804-1821 | with fewer than a hundred transactions begun before, BEGIN, any statements and ROLLBACK leave what the next SELECT prints of every table |
| SessionRollback.RollbackPrints | query/executor.c:1804-1821 | so from the start, after any run of fewer than a hundred statements |
| SessionRollback.RollbackRestoresExactly | query/executor.c:1804-1821 | for every state with an open transaction: after ROLLBACK the next statement sees of a page what was committed if and only if the transaction is among the first hundred, or no row on the page was inserted by it and left unmarked, or marked by it and otherwise committed |
| SessionRollback.UndoneRowsExactly | query/executor.c:1804-1821 | undoing a transaction without an entry leaves the rows of a table alone if it touched nothing there, and, unless two rows have the same text, only then |
| SessionRollback.RollbackHidesExactly | transaction/mvcc.c:23-29 | for every state, statements and table: after BEGIN, the statements and ROLLBACK the next statement sees what it would have seen before BEGIN under exactly that condition |
| SessionRollback.LateRollbackShows | transaction/mvcc.c:23-29 | BEGIN by a transaction after the first hundred, INSERT, ROLLBACK: the next SELECT prints the row |
| SessionRollback.RolledBackRowExactly | transaction/mvcc.c:23-29 | from the start, n SELECTs, BEGIN, INSERT, ROLLBACK: the next SELECT prints the row if and only if n is a hundred or more |
| SessionTrace.StepTraced | query/executor.c:1674-1990 | with no guard and after any number of transactions, each statement does to the rows of every table what an exact machine on four kinds of rows does, which knows of versions only whether the page is full and whether the open transaction has an entry |
| SessionTrace.PrintedIsSeen | query/executor.c:416-456 | SELECT prints the rows of that machine the transaction sees |
| SessionTrace.RollbackLeavesNoTrace | query/executor.c:1804-1821 | after a ROLLBACK of a transaction with an entry every later run, guarded or not, prints what it would have printed had the transaction never begun, while the same pages are full and the same undoings are late |
| SessionJoin.PairsAreRowPairs | query/executor.c:841-864 | the two nested scans print the join of the visible rows of the two pages they read, in order |
| SessionJoin.RowPairsAre | query/executor.c:835-866 | that join lists exactly the pairs of rows with equal numbers in front, each once, by the first row and then by the second |
| SessionJoin.JoinReadsPaths | query/executor.c:785-786 | tables named by their paths below data are joined as one expects: JOIN shop/items reads the page of items in shop |
| SessionJoin.JoinExactly | query/executor.c:785-786 | in every run JOIN of two tables, one named without a slash or below default, no name climbing to another directory, prints nothing, and that is the join of what SELECT prints of them if and only if they share no visible id |
| SessionJoin.JoinMisses | query/executor.c:785-786 | a run of two inserts after which two tables share an id and JOIN prints no row |
| SessionIndex.StepIndexed | query/executor.c:299-305 | every statement, rollback included, keeps the index of a table exact (an entry names the greatest slot with that key) if and only if a key it enters for the table is the key of the record it stores |
| SessionIndex.RunIndexed | query/executor.c:299-305 | after every statement of a run, rollbacks included, the index of a table is exact if and only if every statement that wrote to the table entered the key of its record |
| SessionIndex.LookupIsSound | query/executor.c:521-550 | then a row the lookup reports has that id and is one the scan shows, and it reports one exactly when the newest slot of the id is visible |
| SessionIndex.LookupIsSoundInEveryRun | query/executor.c:521-550 | so in every run from the start whose statements on that table enter the keys of their records, whatever it does to other tables |
| SessionIndex.RunSlotted | query/executor.c:521-527 | in every run, whatever the keys, an index entry names a record the page has |
| SessionLookup.StepOrdered | query/executor.c:682-699 | whatever is undone, of two slots of one id in a table the older is never visible when the newer, unless undone itself, is not; statements on other tables may do anything |
| SessionLookup.LookupAgreesExactly | query/executor.c:473-562 | then the lookup reports a row exactly when the scan shows one with that id, unless the scan does and the newest slot of the id was rolled back or abandoned |
| SessionLookup.LookupInEveryRun | query/executor.c:473-562 | so in every run from the start whose statements on that table store keyed rows, with any rollbacks |
| SessionLookup.RollbackLookupExactly | query/executor.c:1804-1821 | seen before ROLLBACK: afterwards the lookup of an id agrees with the scan if and only if no slot of the id survives or the newest one was not inserted by an undone transaction |
| SessionLookup.LookupAgreesWithScan | query/executor.c:473-562 | after every run from the start that undoes no transaction with an entry that wrote to the table, the lookup reports a row exactly when the scan shows one with that id |
| SessionFinds.LookupTells | query/executor.c:497-550 | a lookup says of an id no record has that it is not there, and otherwise shows the newest record with it, or says that it is not visible |
| SessionFinds.InsertedIsFound | query/executor.c:299-305 | after INSERT of a record that begins with the decimal digits of k and a bar the lookup of k shows it, and a lookup of any other id answers what it did before |
| SessionFinds.FirstInsertIsFound | query/executor.c:299-305 | after INSERT of 12, a bar and bob into a new table the lookup of 12 shows that, and no other id is there |
| SessionFinds.UpdatedIsFound | query/executor.c:1266-1279 | after UPDATE WHERE id the lookup of the number in the id column of the changed row shows that row |
| SessionFinds.NamedTablesAreIndexed | query/executor.c:41-62 | in a run whose statements name at most 32 tables each of them has an index or gets one, and no run makes more than 32 |
| SessionRebuild.RebuiltMeaning | query/executor.c:101-113 | the index rebuilt from a page holds for each positive key its last unmarked slot, and only those |
| SessionRebuild.RebuildAgrees | query/executor.c:101-113 | rebuilt from the page of the table itself, at a commit boundary, it would give the same visible lookups as the one kept by the statements, at the same slot |
| SessionRebuild.RebuildAgreesAfterEveryRun | query/executor.c:101-113 | the same after every run that undoes no transaction with an entry that wrote to the table |
| SessionRestart.StartIndexIsEmpty | query/executor.c:74-79 | whatever a session did, with no table name climbing to another directory, the file the program reads at its next start is not the one of the table, and the rebuilt index is empty |
| SessionRestart.StartLookupExactly | query/executor.c:168-175 | so after a start the lookup reports nothing, and agrees with the scan exactly when the page has no unmarked row of the id, nor one that transaction 1 inserted and marked |
| SessionRestart.RestartShows | transaction/mvcc.c:49-90 | for every version and every run of the next process: each of its statements sees the version by the ids alone, which are handed out again from 1, as if its own transactions had written it |
| SessionRestart.RestartKeepsExactly | transaction/mvcc.c:92-97 | for every run of the next process: of the versions on a page that it has not marked it sees each as it was committed if and only if none is misread: an unmarked one by the status the new process gives its id, one inserted and marked by one id by the transaction of that id, another by both |
| SessionRestart.RestartLastsExactly | transaction/mvcc.c:9-28 | every run of the next process sees a version as it was committed if and only if it is an unmarked committed row whose inserter, or a row that does not show whose other marker, came after the first hundred transactions; the other half gives the run that misreads it |
| SessionRestart.QuietProcessSees | transaction/mvcc.c:77-97 | in every run of the next process that aborts no transaction with an entry a statement sees a version exactly when it is unmarked, or the transaction with its own id inserted and marked it |
| SessionRestart.PlainRestartKeepsExactly | transaction/mvcc.c:92-97 | if the run before undid nothing done to the table and the next process aborts nothing, each of its statements sees what was committed if and only if the former transaction with its own id marked no row of its own there |
| SessionRestart.OwnFileWouldDo | query/executor.c:101-113 | read from the page of the table itself the index would find, in every run of the next process that aborts nothing and does not write there, the newest row of each id a statement sees, but for such a row of its own id |
| SessionFailures.RollbackHidesRow | query/executor.c:299-305 | INSERT, BEGIN, INSERT of the same record, ROLLBACK: the scan shows the row and the lookup misses it |
| SessionFailures.OwnDeleteShows | transaction/mvcc.c:159-161 | BEGIN, INSERT, DELETE of that row: SELECT still prints it; after COMMIT it does not, but the first statement after a restart does |
| SessionFailures.FullUpdateLoses | query/executor.c:1259-1284 | sixteen INSERTs of a row and an UPDATE of it: fifteen rows are left and none is changed |
| SessionFailures.RolledBackRowReturns | transaction/mvcc.c:92-97 | BEGIN, INSERT, ROLLBACK: SELECT prints nothing, and after a restart it prints the row |
| SessionFailures.EmptyRollbackHides | transaction/mvcc.c:49-60 | INSERT, a restart, BEGIN, ROLLBACK: the committed row, printed until then, is gone |
| SessionFailures.StartLookupMisses | query/executor.c:74-79 | INSERT, a restart: SELECT prints the row, and the lookup that found it before does not |
| PageBytes.IntRoundTrip | transaction/mvcc.h:19-22 | an integer written as four bytes is read back |
| PageBytes.IntBytesWeigh | storage/page.c:44-47 | an integer is four bytes, the one of least weight first |
| PageBytes.RecordLayout | storage/page.h:8-13 | a record is 248 bytes: xmin, xmax and 240 bytes of text |
| PageBytes.SlotLayout | storage/page.h:6-20 | slot i begins at byte 248 * i of the 4088, and a seventeenth does not fit |
| PageBytes.RecordRoundTrip | storage/page.c:39-48 | a record written into its 248 bytes is read back |
| PageBytes.EncodeDecoded | storage/page.c:89-102 | a record copied out and back unchanged changes no byte |
| PageBytes.NewRecordReads | storage/page.c:39-48 | a new record reads as its text cut to 239 characters, created and not deleted |
| PageBytes.SlotsAreDisjoint | storage/page.c:33-48 | records occupy disjoint ranges inside the page |
| PageBytes.Page.Init | storage/page.c:5-11 | an empty page, every byte zero |
| PageBytes.Page.ReadRecord | storage/page.c:89-93 | reads the version in that slot |
| PageBytes.Page.Append | storage/page.c:30-53 | appends one version if there is room, keeps all others, and fails exactly when sixteen are there |
| PageBytes.Page.Mark | query/executor.c:1259-1264 | changes the four bytes of one xmax and no other byte |
| PageBytes.Page.MarkDelete | storage/page.c:85-109 | marks the first visible record with that text, or nothing |
| PageBytes.SixteenAppends | storage/page.c:33-37 | over every run of appends and marks exactly the first sixteen appends succeed |
| PageBytes.SlotsKeepTheirRows | storage/page.c:30-53 | over every such run the xmin and text of a slot never change |
| PageBytes.RunGrowsPages | query/executor.c:1259-1264 | nor over any run of statements |
| Storage.Files.ReadPage | storage/file_manager.c:37-46 | a page beyond the end of its file reads as an empty one; a read that fails or is cut short leaves what had arrived |
| Storage.Files.WritePage | storage/file_manager.c:48-54 | replaces that page of that file only, wholly, in part or not at all |
| Storage.BeyondEnd | storage/file_manager.c:37-54 | a page beyond the end of its file is empty: no records and 4088 zero bytes |
| BufferPool.Buffer.constructor | buffer/buffer_pool.c:7-12 | all frames free, the clock at 1 |
| BufferPool.Buffer.FindFrame | buffer/buffer_pool.c:14-24 | the first valid frame that holds the page |
| BufferPool.Buffer.ChooseVictim | buffer/buffer_pool.c:26-45 | a free frame, else the unpinned one used longest ago, else none |
| BufferPool.Oldest | buffer/buffer_pool.c:33-44 | the loop finds an unpinned frame whose last use is least among all unpinned ones, and none only if there is none |
| BufferPool.Buffer.FlushFrame | buffer/buffer_pool.c:47-59 | writes a dirty frame back and cleans it, or reports the failed write |
| BufferPool.Buffer.FetchPage | buffer/buffer_pool.c:61-102 | hit, eviction and load, with every failing or partial transfer, on the frames, the clock and the disk |
| BufferPool.Buffer.UnpinPage | buffer/buffer_pool.c:104-130 | gives up one pin, and fails without one |
| BufferPool.Buffer.MarkPageDirty | buffer/buffer_pool.c:132-146 | marks a resident page |
| BufferPool.Buffer.FlushOne | buffer/buffer_pool.c:148-158 | flushes a resident page |
| BufferPool.Buffer.FlushEvery | buffer/buffer_pool.c:184-196 | flushes frame by frame up to the first failure |
| BufferPool.Buffer.InvalidateFile | buffer/buffer_pool.c:159-182 | drops every frame of a file, writing the dirty ones |
| BufferPool.Buffer.StorePage | query/executor.c:1262-1264 | a client's store through the page pointer it fetched changes that page's frame only |
| BufferProperties.FetchKeeps | buffer/buffer_pool.c:61-102 | a fetch that does not read over the frame of a page, whatever it evicts, keeps that page coherent and its content as it was, adds a pin only to its own page, and moves no pinned page |
| BufferProperties.FetchReturns | buffer/buffer_pool.c:61-102 | in any state a fetch that finds a frame returns the content of its page |
| BufferProperties.FetchKeepsExactly | buffer/buffer_pool.c:89-92 | for each page: a fetch changes it if and only if a read cut short leaves something else in the frame that stays valid for it |
| BufferProperties.InvalidateKeepsExactly | buffer/buffer_pool.c:159-182 | closing a file leaves every page as it was exactly when each of its frames is clean and equals the disk, or its writing succeeds or leaves on disk what it holds |
| BufferProperties.FlushStopsAt | buffer/buffer_pool.c:184-196 | flush_all cleans the frames before the first failing write, leaves the others, and reports exactly that |
| BufferProperties.StepKeeps | buffer/buffer_pool.c:61-196 | for each page: every step allowed for it keeps it in one frame at most and its clean unpinned frame equal to the disk, and changes it only by a client's own write; what is done to other pages does not matter |
| BufferProperties.UnpinKeepsExactly | buffer/buffer_pool.c:104-130 | an unpin keeps a page so exactly when it is of another page, dirty, not the last, or the frame still equals the disk |
| BufferProperties.RunIsMemory | buffer/buffer_pool.c:61-196 | over every run allowed for a page it is what a memory without a pool would hold |
| BufferProperties.FetchReadsLastWritten | buffer/buffer_pool.c:61-102 | a fetch after any such run returns the page written last |
| BufferProperties.PoliteRun | buffer/buffer_pool.c:61-196 | clients that write a page only while pinned and unpin it as dirty always stay within the discipline for it |
| BufferProperties.PoliteClientsSeeAMemory | buffer/buffer_pool.c:61-196 | from buffer_init on, a page whose clients do so is a memory that starts as the disk, whatever clients do to other pages, and a flush puts it on disk |
| BufferProperties.CycleReachesDisk | query/executor.c:1288-1291 | after a statement's fetch, store, unpin, flush and invalidate the page is on disk, no frame of the file is left, and no other page changed |
| BufferProperties.StepPins | buffer/buffer_pool.c:64-182 | the step of that invariant, for every call and outcome |
| BufferProperties.PinsAreTheClients | buffer/buffer_pool.c:64-127 | in every run of any clients, and with any failing transfers, pin counts are what fetches, unpins and closings make them, no page is in two frames, and a page keeps its frame while its count is positive and its file open |
| BufferRecency.RunStamped | buffer/buffer_pool.c:68-144 | times of last use are distinct and below the clock until the clock wraps |
| BufferRecency.ClockTurns | buffer/buffer_pool.c:64-70 | a hit counts the clock on by one, and after 2^64 - 1 it is 0 |
| BufferRecency.NoVictimExactly | buffer/buffer_pool.c:26-45 | in every run of any clients from buffer_init a miss finds no frame exactly when all are pinned |
| BufferRecency.TraceFollows | buffer/buffer_pool.c:26-130 | after any trace of accesses the frames hold the most recently used pages, with times of use in that order |
| BufferRecency.ResidentExactly | buffer/buffer_pool.c:26-130 | a page is resident exactly when it is among the most recently used ones that fit |
| BufferRecency.HitExactly | buffer/buffer_pool.c:26-130 | an access hits exactly when fewer distinct other pages than there are frames were used since its last use |
| BufferRecency.LargerHoldsMore | buffer/buffer_pool.c:26-130 | a larger pool holds every page a smaller one does |
| RowText.NextToken | query/executor.c:1119-1127 | one call of strtok |
| RowText.SplitRecordValues | query/executor.c:1110-1129 | fills the values with the tokens, cut to 127 characters, the rest empty |
| RowText.BuildRecordString | query/executor.c:1131-1141 | joins the first values with bars, cut to 511 characters |
| RowText.CleanText | query/executor.c:880-903 | trims blanks, quotes and semicolons |
| RowText.GetColumnIndex | query/executor.c:1098-1108 | the first column of that name, -1 exactly when there is none |
| RowText.ApplySetValues | query/executor.c:1143-1178 | applies every assignment in order |
| RowProperties.TokensConcat | query/executor.c:1119-1127 | the tokens of a text with a delimiter in it are those of its parts |
| RowProperties.TokensOfJoin | query/executor.c:1110-1141 | splitting a joined row gives its non-empty fields |
| RowProperties.SplitUndoesBuildExactly | query/executor.c:1110-1141 | a row built, stored and split has its fields back exactly when none holds a bar, no empty one comes before one that is not, and the non-empty ones fit into 239 characters |
| RowUpdate.QuotedCleans | query/executor.c:880-903 | a quoted value is unquoted to itself |
| RowUpdate.CleanTokenIs | query/executor.c:880-903 | clean_token takes off spaces, tabs and line ends in front, those, quotes and semicolons at the end, and one quote then in front, and leaves the text between as it is |
| RowUpdate.EveryTextIsCleaned | query/executor.c:880-903 | every text is of that form |
| RowUpdate.BobIsSet | query/executor.c:1143-1178 | "name = 'bob'" sets the second of the columns id and name to bob |
| RowUpdate.LongTexts | query/executor.c:1143-1178 | of a SET clause 511 characters count, of the two sides of an assignment 63 and 127 |
| RowUpdate.SetTextSays | query/executor.c:1143-1178 | for every text, row and table: the columns named in the SET clause get the last value it gives them, the others keep theirs |
| RowUpdate.WrittenClausesSay | query/executor.c:880-903 | assignments written with or without quotes and with any blanks around their parts are parsed as those assignments |
| RowUpdate.UpdateChangesExactly | query/executor.c:1256-1273 | UPDATE of a recoverable row, with any text, writes exactly that row with the named columns changed, and the result splits into its fields exactly when it is recoverable too |
| RowUpdate.SplitPacks | query/executor.c:1110-1141 | empty fields are squeezed out and later ones move left |
| RowUpdate.EmptiedColumn | query/executor.c:1110-1141 | a concrete row whose second column becomes its first |
| RowKeys.AtoiStops | query/executor.c:299-299 | atoi of a record is atoi of what precedes any of its bars |
| RowNumbers.AtoiReads | query/executor.c:299-299 | of blanks, a sign or none, decimal digits and a rest that does not go on with them atoi makes the number of the digits, with that sign |
| RowNumbers.EveryTextIsRead | query/executor.c:299-299 | every text is of that form |
| RowNumbers.DecimalIsNumber | catalog/catalog.c:77-77 | "%d" prints the digits of the number, without leading zeros |
| RowNumbers.DecimalIsRead | query/executor.c:299-299 | what "%d" prints, followed by anything but a digit, is read back by atoi |
| RowKeys.KeyedExactly | query/executor.c:1259-1259 | with id first, for every row: the key of the record is the id column, except that a row beginning with a bar needs a first non-empty field worth 0, and a first field over 127 characters one whose number ends before |
| RowKeys.EmptyFirstField | query/executor.c:1259-1259 | a row whose empty first field makes them disagree |
| RowKeys.TidyRow | query/executor.c:1266-1275 | an UPDATE that sets no empty id writes such a row again, and enters its key |
| RowKeys.TidyRunIsKeyed | query/executor.c:299-305 | every run whose statements on the table are such, whatever it rolls back and does elsewhere, stores rows keyed by their ids there and enters those keys |
| RowKeys.TidyLookupExactly | query/executor.c:473-562 | after every such run a reported row has that id column and is shown by the scan, and the lookup is complete if and only if the scan shows none or the newest slot of the id was not undone |
| RowKeys.TidyLookupAgrees | query/executor.c:473-562 | and after a run that undoes nothing done to the table it reports a row exactly when the scan shows one with that id column, duplicates and changed ids included |
| StoredTable.InsertRow | query/executor.c:281-305 | page bytes and B+ tree still stand for the session's table after INSERT |
| StoredTable.FindHit | query/executor.c:1245-1259 | the scan over the bytes finds the first visible match |
| StoredTable.DeleteRow | query/executor.c:682-699 | the same after DELETE |
| StoredTable.UpdateRow | query/executor.c:1245-1286 | the same after UPDATE, tokenising, SET and index entry included |
| StoredTable.SelectRow | query/executor.c:521-550 | tree search, record bytes and visibility together answer what LookupId says |
| StoredTable.RebuildIndex | query/executor.c:101-113 | the loop of inserts leaves a valid tree holding exactly the rebuilt index of the page |
| CatalogTables.Tables.GetTable | catalog/catalog.c:59-67 | the first table of that name, -1 exactly when there is none |
| CatalogTables.Tables.Save | catalog/catalog.c:73-106 | the file is the text of all tables in order |
| CatalogTables.Tables.InitFromFile | catalog/catalog.c:108-168 | the reader's loop, with its static counter and its caps |
| CatalogTables.Tables.CreateTableSchema | catalog/catalog.c:192-212 | appends the table as it was given, with 1 for a next id that is not positive, and saves, or changes nothing |
| CatalogTables.Tables.CreateTable | catalog/catalog.c:170-190 | the same for a table with one column "value" |
| CatalogTables.Tables.RemoveTable | catalog/catalog.c:214-236 | removes the table, keeping the order of the others, and saves |
| CatalogProperties.SignedReads | catalog/catalog.c:118-118 | a printed integer of either sign is read back |
| CatalogProperties.SaveTextIs | catalog/catalog.c:73-106 | the text saved, word by word and line by line: the count, and per table its line, the lines of its columns and the end |
| CatalogProperties.InitPlaces | catalog/catalog.c:108-168 | after any earlier catalog_init the saved tables are put after the places those filled, as far as there are places |
| CatalogProperties.InitUndoesSaveExactly | catalog/catalog.c:73-168 | the first catalog_init of a process restores every table and column in order, empty references included, exactly when no reference is named "-" |
| CatalogProperties.SecondInitExactly | catalog/catalog.c:124-127 | for every two saved lists: a second catalog_init in one process restores the second list if and only if its tables are what is read back of the first list followed by the second, place by place |
| CatalogRuns.RemoveLeavesOthers | catalog/catalog.c:214-236 | removing leaves exactly the other tables, in order |
| CatalogRuns.CreateAddsOne | catalog/catalog.c:192-212 | creating appends the table with the name, every column and the next id it was given, or 1, unless its name is taken or there are sixty-four; names stay unique and the others in order |
| CatalogRuns.PlainAddsOne | catalog/catalog.c:170-190 | created by name alone it has the name, cut to 63 characters, and one column "value", VARCHAR(255) |
| CatalogRuns.TablesAreGiven | catalog/catalog.c:192-236 | after every run each table listed is the one its last successful creation was given |
| CatalogRuns.PlainKeepsUniqueExactly | catalog/catalog.c:170-185 | catalog_create_table keeps names unique exactly when the name is not cut, or there is no room, or the cut name is new |
| CatalogRuns.RestartRestoresExactly | catalog/catalog.c:73-236 | after every run of creates and removes a new process lists the same tables exactly when none refers to "-" |

## Left out

- Tree: the arrays inside a node are fields of type `seq` of fixed length, because the C arrays are
  part of the struct and have no identity; `btree_print` and the freeing of nodes are not modelled.
- Engine: pages are version lists and each index is the map its tree holds; `StoredTable.dfy` relates
  one table's page bytes and tree to them.  The page is not fetched through the pool here.
- StoredTable.SelectRow: the id is a C integer; `atoi` beyond that range is undefined in C and is
  excluded where a key enters the tree.
- StoredTable.RebuildIndex: on a given page; which page `executor_init` opens is in `SessionRestart.dfy`.
- Page: a page starts empty or is written by these functions; a file with another record count in its
  header is not modelled, nor is a hole in a file.
- Buffer: pin counts do not overflow; what a transfer cut short leaves is any image, not a prefix of the
  bytes it moved.
- BufferRecency.TraceFollows: for traces short enough that the clock, an `unsigned long`, does not wrap.
- SessionTrace.RollbackLeavesNoTrace: while the two runs find the same pages full and undo late
  transactions alike, because a rolled back transaction gives back neither its slots nor its entry.
- SessionEngine.Engine.SelectWhereId: requires that index entries name records of their pages;
  `SessionIndex.RunSlotted` proves it of every run.
- Paths: the names of databases one selects hold no slash and are not ".", ".." or "default".  Where two
  files are told apart, table names have no empty, "." or ".." part before their last slash; the other
  spellings of a path, such as "../other/t", and links are not modelled.
- Tables: a file that cannot be opened for reading counts as missing; integers in the file are within
  the range of C; the text of `catalog_parse_type` is not modelled.
- One session and one database: the global lock makes each statement one step; two sessions share the
  same current transaction in the code too.
- CREATE, DROP and USE with their directories, and the building of a row from an INSERT with its
  automatic ids: sessions start from created tables and given records.
- The parser, which only gates statements that are scanned again afterwards; output formatting.
- Write-ahead log, recovery and `transaction.c`: recovery counts records and replays nothing.
- `has_pending_insert` is never set; `do_update_where_id` is never called.
- Network, console, natural-language lookup, logging and tools: no properties of the storage engine.
