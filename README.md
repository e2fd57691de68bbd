# WinTop process views, modelled in Dafny

WinTop is a Windows task manager built with Qt. This project models its data path from a list of process records to the two process views:

- **The snapshot tree.** `WindowsProcessTreeBuilder::buildTree` turns a record list into a heap tree. A synthetic root holds pid 0. There is one node per non-zero pid, and the later record wins. Each node hangs under the node of its parent pid, or under the root when that pid has no node. `ProcessTree::getFlatTree` then walks the tree breadth first into (record, parent pid) pairs.
- **The tree view.** `ProcessTreeModel::updateData` feeds that flat list into a `QStandardItemModel`. Whenever the stored flat list is empty (on the first refresh, or after an empty snapshot), it rebuilds the view with a roots-first pass followed by repeated passes for the children. Otherwise it calls `updateTreeFromNewFlatList`, which:
  1. indexes the new list by pid;
  2. rewrites the cells of the rows that are still listed;
  3. adds rows for new pids: roots, then children whose parent has a row, then whatever is left at the top level;
  4. removes the rows of pids that are no longer listed, together with everything shown below them, deepest first.
- **The flat table.** `ProcessTableModel` stores the record list and answers cell, row and column queries.
- **The details view.** The parts of `WindowsProcessControl` that compute from the record list: the child count, the record lookup, the FILETIME-to-Unix-milliseconds arithmetic and the priority-class labels.
- **The service view.** `WindowsServiceMonitor::getStatusString`, the classification of service states.

How each part is modelled:

- The heap tree is a `class ProcessTreeNode` with `data`, `parent` and `children` fields. `ProcessTree` is a class with a `root` field.
  - `buildTree` and `getFlatTree` are methods with loops.
  - They are proved against a pid-level specification. `NodeRecords` is the last-wins node map. `Attach` is the pid a node hangs under. `Reaches` says whether the chain of attachments ends at the root.
  - `IsSnapshot` states what the flat list of one refresh is. It has no repeated pids. Each entry holds the winning record and the pid it is attached to. Exactly the reaching pids are emitted. Parents come first.
- The Qt item forest is a value, `DisplayForest.Forest`:
  - row handles (the name items);
  - each row's slot, either the top level or under a row;
  - each slot's ordered row list;
  - each row's cells;
  - the next unused handle.

  `new QStandardItem` takes the next handle, so a parent's handle is always below its children's. This makes the forest acyclic by construction.
- `_pidToRow` is a `map<Pid, Handle>`. `Consistent(forest, rows)` is the invariant every step of the tree model keeps: the index and the forest agree, and each row's pid text is the decimal text of its pid.
- Loops over `QSet`/`QHash` visit an unspecified order. They are modelled by picking any remaining element with `:|`, so every proved property holds for every iteration order.

Behaviour of the source that the model states as written:

- In the incremental update, a row is never moved. A listed process whose parent row is removed is removed with that subtree, even though it is still listed. On the next refresh it is placed again as a new pid. `TreeUpdate.OnlyListedKept` states that the rows left are exactly the listed pids that were not doomed.
- The guards of `updateTreeFromNewFlatList` can never fire on the model's states: a pid without a row, a row without a name item, a row not found in its parent's list, a missing `ok` flag. The model proves them dead with `assert`s rather than modelling their branches.
- `getFlatTree` lists parents first and never repeats a pid. Because of that, the children passes of both the full build and the update always place every entry, and the top-level fallback of the update never fires on a real snapshot (`TreeSync.NoFallback`, `TreeModel.BuildShowsAll`).
- A record whose parent pid is its own pid, or two records that name each other, form an attachment cycle. Such nodes are never reached from the root, so neither the snapshot nor the views show them.

## Model

| member | source | states |
|---|---|---|
| Records.MegaBytesBounds | WinTop/ProcessTableModel.cpp:35 | the memory column's `bytes / 1024 / 1024` is the whole number of mebibytes: mb·2^20 ≤ bytes < (mb+1)·2^20 |
| Records.DecimalRoundTrip | WinTop/ProcessTreeModel.cpp:38 | the pid text `QString::number(pid)` is all digits and reads back as the pid |
| Records.DecimalTextInjective | WinTop/ProcessTreeModel.cpp:38 | two pids have the same text iff they are equal |
| Records.MemoryText | WinTop/ProcessTableModel.cpp:35 | the memory text is decimal digits followed by " MB"; the digits read back as `bytes / 1024 / 1024` and have no leading zero unless that count is 0 |
| Records.MemoryTextFaithful | WinTop/ProcessTableModel.cpp:35 | two memory texts are equal iff they show the same mebibyte count |
| ProcessTree.ProcessTreeNode.constructor | WinTop/ProcessTree.h:10-12 | a node holds the given record and parent and has no children |
| ProcessTree.ProcessTree.constructor | WinTop/ProcessTree.h:15-22 | a new tree has no root |
| ProcessTree.ProcessTree.GetRoot | WinTop/ProcessTree.cpp:4-7 | returns the stored root |
| ProcessTree.ProcessTree.SetRoot | WinTop/ProcessTree.cpp:50-53 | stores the given root |
| ProcessTree.ProcessTree.GetFlatTree | WinTop/ProcessTree.cpp:9-48 | no root gives the empty list; otherwise one entry per node below the root, each node once, the root never, each entry its node's record and its parent's pid, parents before children |
| ProcessTree.ReachableIsEmitted | WinTop/ProcessTree.cpp:17-45 | once the queue is empty, every node whose parent chain meets the root was emitted |
| ProcessTree.EmittedIsReachable | WinTop/ProcessTree.cpp:17-45 | every emitted node's parent chain meets the root, and its parent is the root or was emitted before it |
| WindowsProcessTreeBuilder.NodeRecords | WinTop/WindowsProcessTreeBuilder.cpp:9-16 | the node map never has pid 0, and each node holds a record of its own pid |
| WindowsProcessTreeBuilder.NodeRecordsKeys | WinTop/WindowsProcessTreeBuilder.cpp:10-16 | a pid gets a node iff it is non-zero and some record carries it |
| WindowsProcessTreeBuilder.NodeRecordsLastWins | WinTop/WindowsProcessTreeBuilder.cpp:10-16 | a pid's node holds the last record carrying that pid |
| WindowsProcessTreeBuilder.Attach | WinTop/WindowsProcessTreeBuilder.cpp:20-31 | a node hangs under its parent pid's node when that pid has one, otherwise under the root (pid 0) |
| WindowsProcessTreeBuilder.CreateNodes | WinTop/WindowsProcessTreeBuilder.cpp:8-16 | one fresh distinct node per key of the node map, holding its record, parented to the root, with no children |
| WindowsProcessTreeBuilder.AttachOne | WinTop/WindowsProcessTreeBuilder.cpp:20-31 | one node is appended to its attachment node's children and its parent set, keeping the attachment invariant |
| WindowsProcessTreeBuilder.AttachAll | WinTop/WindowsProcessTreeBuilder.cpp:19-32 | after the loop, in any hash order, the nodes form the tree `BuiltFrom` the records |
| WindowsProcessTreeBuilder.BuildTree | WinTop/WindowsProcessTreeBuilder.cpp:4-35 | a fresh, well-shaped tree whose root holds the default record, with one node per pid of the node map, each under the node it is attached to |
| WindowsProcessTreeBuilder.ReachesStep | WinTop/WindowsProcessTreeBuilder.cpp:20-31 | a pid is reached iff it is attached to the root or to a reached pid |
| WindowsProcessTreeBuilder.OrphanIsReached | WinTop/WindowsProcessTreeBuilder.cpp:27-31 | a record whose parent pid has no node is reached: it hangs under the root |
| WindowsProcessTreeBuilder.CycleIsNotReached | WinTop/WindowsProcessTreeBuilder.cpp:19-32 | a pid on an attachment cycle is never reached |
| WindowsProcessTreeBuilder.SelfParentIsNotReached | WinTop/WindowsProcessTreeBuilder.cpp:20-26 | a record naming itself as its parent is not reached |
| WindowsProcessTreeBuilder.MutualParentsAreNotReached | WinTop/WindowsProcessTreeBuilder.cpp:20-26 | two records naming each other as parents are not reached |
| WindowsProcessTreeBuilder.ReachableIffReaches | WinTop/WindowsProcessTreeBuilder.cpp:19-32 | in a built tree, a node's parent chain meets the root iff its pid's attachment chain ends at pid 0 |
| WindowsProcessTreeBuilder.ChildOfExactlyOne | WinTop/WindowsProcessTreeBuilder.cpp:23-31 | in a built tree, a non-root node is in a node's children iff that node is its parent |
| WindowsProcessTreeBuilder.SnapshotOfBuiltTree | WinTop/ProcessTree.cpp:9-48 | the flattening of a built tree has no repeated pid; each entry holds the winning record and its attachment pid; a pid is emitted iff it is reached; parents come first |
| WindowsProcessTreeBuilder.Snapshot | WinTop/ProcessTreeModel.cpp:20-21 | `buildTree` followed by `getFlatTree` yields a snapshot of the records in the sense above |
| DisplayForest.CellsFor | WinTop/ProcessTreeModel.cpp:36-40 | a new row shows the record's name, its pid (with decimal text that reads back as the pid), its cpu value and its memory text |
| DisplayForest.Refreshed | WinTop/ProcessTreeModel.cpp:118-121 | a refreshed row gets the record's cpu, memory text and name, and keeps its pid cells |
| DisplayForest.Cleared | WinTop/ProcessTreeModel.cpp:25-27 | `clear()` leaves a well-formed forest with no rows and an empty top level |
| DisplayForest.AppendRowValid | WinTop/ProcessTreeModel.cpp:141 | `appendRow` keeps the forest well-formed and adds exactly one new row, at the end of the slot's list, with those cells and no children |
| DisplayForest.RemoveLeafValid | WinTop/ProcessTreeModel.cpp:244 | `removeRow` of a row without children keeps the forest well-formed and takes out exactly that row |
| DisplayForest.RemoveLeafIsLeafRemoved | WinTop/ProcessTreeModel.cpp:244 | removing a row without children removes no other row |
| DisplayForest.ChildIsDeeper | WinTop/ProcessTreeModel.cpp:214-219 | a child's depth is its parent's depth plus one |
| TreeRows.RowsShowDistinctPids | WinTop/ProcessTreeModel.cpp:142 | under the index invariant, two rows show the same pid iff they are the same row |
| TreeRows.PlaceOk | WinTop/ProcessTreeModel.cpp:135-142 | adding a row for an unindexed pid keeps the index consistent, grows it by exactly that pid, and leaves older rows alone |
| TreeRows.RefreshOk | WinTop/ProcessTreeModel.cpp:118-121 | rewriting a row's cells keeps the index consistent and moves no row |
| TreeRows.RefreshedIsFresh | WinTop/ProcessTreeModel.cpp:118-121 | refreshing a row made from a record of the same pid gives the row a fresh build would make |
| TreeBuild.PlaceEntry | WinTop/ProcessTreeModel.cpp:56-69 | placing an entry whose parent is 0 or has a row keeps the view consistent and every placed entry shown |
| TreeBuild.PlaceRoots | WinTop/ProcessTreeModel.cpp:33-44 | phase one gives a top-level row to exactly the entries whose parent pid is 0, each showing its entry |
| TreeBuild.RootPidSet | WinTop/ProcessTreeModel.cpp:48-49 | the `placed` set starts as the pids whose parent pid is 0 |
| TreeBuild.PlacePass | WinTop/ProcessTreeModel.cpp:52-72 | a pass only grows the view, does so iff `progress`, and a pass that adds nothing leaves every unplaced entry with a non-zero parent pid that has no row |
| TreeBuild.BuildView | WinTop/ProcessTreeModel.cpp:23-77 | the full build shows every entry it gives a row, each at the top level for parent pid 0 or under its parent's row, and ends only when no remaining entry can be placed |
| TreeBuild.StuckPlacesAll | WinTop/ProcessTreeModel.cpp:51-73 | on a parents-first list, the passes leave no entry without a row |
| TreeBuild.SelfParentNotShown | WinTop/ProcessTreeModel.cpp:56 | an entry naming itself as its parent is never shown |
| TreeSync.IndexByPid | WinTop/ProcessTreeModel.cpp:104-110 | `newPids` is the set of listed pids, and `newByPid` maps each to the last entry with that pid |
| TreeSync.RefreshRows | WinTop/ProcessTreeModel.cpp:112-122 | only cells change; every indexed pid still listed has its row refreshed from its entry, and the others keep theirs |
| TreeSync.NewPids | WinTop/ProcessTreeModel.cpp:125-128 | `toPlace` is the listed pids without a row |
| TreeSync.PlaceNewRoots | WinTop/ProcessTreeModel.cpp:131-147 | exactly the new pids with parent pid 0 get top-level rows and leave `toPlace` |
| TreeSync.PlaceNewChildren | WinTop/ProcessTreeModel.cpp:150-177 | new pids get rows under their parents' rows until a round adds nothing; what remains has a non-zero parent pid without a row |
| TreeSync.PlaceLeftovers | WinTop/ProcessTreeModel.cpp:179-191 | every pid left over gets a top-level row |
| TreeSync.InsertNew | WinTop/ProcessTreeModel.cpp:124-191 | every listed pid ends up with a row; old rows stay put; each new row sits under its parent's row, at the top level for parent pid 0, or at the top level as fallback when its parent has no row; the fallback comes last, so no row placed by the passes sits under a fallback row |
| TreeSync.PassesBeforeFallback | WinTop/ProcessTreeModel.cpp:150-191 | once the passes stop, no pid they placed has its parent among the pids left for the fallback |
| TreeSync.NoFallback | WinTop/ProcessTreeModel.cpp:178-191 | on a parents-first list without repeated pids, the fallback places nothing |
| TreeRemove.CollectChildrenPids | WinTop/ProcessTreeModel.cpp:84-100 | adds to the set exactly the pids of every row strictly below the given row |
| TreeRemove.MissingPids | WinTop/ProcessTreeModel.cpp:195-199 | the indexed pids no longer listed |
| TreeRemove.CollectDoomed | WinTop/ProcessTreeModel.cpp:202-209 | `allToRemove` is the pids of the missing pids' rows and every row below them, and it is closed under taking children |
| TreeRemove.DoomedIndexed | WinTop/ProcessTreeModel.cpp:202-209 | every collected pid has a row |
| TreeRemove.MissingDoomed | WinTop/ProcessTreeModel.cpp:202-209 | every missing pid is collected |
| TreeRemove.DepthOf | WinTop/ProcessTreeModel.cpp:214-219 | the number of parent steps from a row to the top level |
| TreeRemove.Removals | WinTop/ProcessTreeModel.cpp:220-226 | one entry per collected pid, no pid twice, each with its row's depth |
| TreeRemove.InsertByDepth | WinTop/ProcessTreeModel.cpp:227 | inserting into a deepest-first list keeps it deepest first and adds exactly the entry |
| TreeRemove.SortByDepth | WinTop/ProcessTreeModel.cpp:227 | the sort by `a.depth > b.depth` gives a deepest-first permutation |
| TreeRemove.Reordered | WinTop/ProcessTreeModel.cpp:227 | the sorted list has the same pids, still with no repeats and with correct depths |
| TreeRemove.FindChildIndex | WinTop/ProcessTreeModel.cpp:240-243 | -1 iff the row is not in the list, otherwise its first index |
| TreeRemove.RemoveOne | WinTop/ProcessTreeModel.cpp:229-255 | removing the next row keeps the removal invariant: it is a leaf at that point and is taken out of its slot and the index |
| TreeRemove.RemoveRows | WinTop/ProcessTreeModel.cpp:229-256 | deepest first, every listed row is removed; the index stays consistent and loses exactly those pids, and every surviving row is untouched |
| TreeUpdate.RemoveMissing | WinTop/ProcessTreeModel.cpp:193-256 | step 3 removes the missing pids' rows and everything below them, and touches no other row |
| TreeUpdate.RefreshShown | WinTop/ProcessTreeModel.cpp:112-122 | after step 1 every listed pid's row shows its indexed entry's cells, and no row moved |
| TreeUpdate.RefreshAndInsert | WinTop/ProcessTreeModel.cpp:112-191 | steps 1 and 2 together achieve `Inserted`: every listed pid has a row showing its indexed entry, old rows stay put, and each new row sits under its parent's row, at the top level for parent pid 0, or at the top level as a fallback placed after every pass |
| TreeUpdate.InsertedFrom | WinTop/ProcessTreeModel.cpp:112-191 | the refreshed old rows and the newly built rows together show every listed pid's indexed entry |
| TreeUpdate.UpdateTree | WinTop/ProcessTreeModel.cpp:102-257 | the three steps in order: index, refresh and insert (with the fallback placed after every pass), then remove the unlisted pids with their subtrees |
| TreeUpdate.OnlyListedKept | WinTop/ProcessTreeModel.cpp:102-257 | every unlisted pid is removed, and the rows left are exactly the listed pids not removed with a subtree |
| TreeUpdate.SurvivorsShowIndexed | WinTop/ProcessTreeModel.cpp:102-257 | every row left shows the last entry listed for its pid |
| TreeUpdate.NewRowsPlaced | WinTop/ProcessTreeModel.cpp:124-191 | a new row that survives step 3 still sits where step 2 put it |
| TreeUpdate.OldRowsStay | WinTop/ProcessTreeModel.cpp:102-257 | old rows that survive keep their handles and slots: the update never reparents |
| TreeUpdate.SnapshotNeedsNoFallback | WinTop/ProcessTreeModel.cpp:178-191 | on a snapshot, the top-level fallback places nothing |
| TreeModel.SnapshotParentsFirst | WinTop/ProcessTree.cpp:9-48 | a snapshot has no repeated pids and lists parents first |
| TreeModel.BuildShowsAll | WinTop/ProcessTreeModel.cpp:51-73 | after the passes on a parents-first list, every listed pid has a row |
| TreeModel.ProcessTreeModel.constructor | WinTop/ProcessTreeModel.cpp:7-11 | a new model has no builder, no rows and no stored snapshot |
| TreeModel.ProcessTreeModel.SetTreeBuilder | WinTop/ProcessTreeModel.cpp:13-15 | the model now has a builder and nothing else changes |
| TreeModel.ProcessTreeModel.UpdateData | WinTop/ProcessTreeModel.cpp:17-82 | without a builder nothing changes; otherwise the snapshot is stored, and either the view is rebuilt and shows every entry, or it is updated as `UpdateTree` states with no fallback |
| TableModel.Cell | WinTop/ProcessTableModel.cpp:24-57 | the value is empty exactly for columns 4 and up and for roles other than display and sort |
| TableModel.SortValues | WinTop/ProcessTableModel.cpp:24-56 | each of the four columns' display value and sort value: pid as a number, name as text, CPU as a fraction and a percentage, memory as bytes and as mebibyte text |
| TableModel.ProcessTableModel.constructor | WinTop/ProcessTableModel.cpp:4-6 | a new table has no rows |
| TableModel.ProcessTableModel.RowCount | WinTop/ProcessTableModel.cpp:8-10 | the number of stored records |
| TableModel.ProcessTableModel.ColumnCount | WinTop/ProcessTableModel.cpp:12-14 | four columns |
| TableModel.ProcessTableModel.GetProcessByRow | WinTop/ProcessTableModel.cpp:78-84 | the record at that row, or the default record for a row outside the table |
| TableModel.ProcessTableModel.UpdateData | WinTop/ProcessTableModel.cpp:86-90 | the stored list is replaced by the new one |
| TableModel.SentinelOnlyOutside | WinTop/ProcessTableModel.cpp:78-84 | a record with a non-zero pid comes only from a real row, and every row outside the table gives pid 0 |
| TableModel.DataMatchesRow | WinTop/ProcessTableModel.cpp:16-58 | a valid in-range cell is the cell of `getProcessByRow`'s record; columns past `columnCount` and invalid or out-of-range indexes are empty |
| TableModel.MemorySortAgrees | WinTop/ProcessTableModel.cpp:35-52 | sorting by raw bytes never puts a larger displayed mebibyte count first |
| TableModel.SortMatchesDisplay | WinTop/ProcessTableModel.cpp:28-48 | the pid and name columns sort by what they display |
| ProcessControl.ChildProcessCount | WinTop/WindowsProcessControl.cpp:302-313 | the number of records naming the pid as their parent |
| ProcessControl.ChildCountBounds | WinTop/WindowsProcessControl.cpp:302-313 | the count is at most the list length, and is 0 iff no record names the pid as its parent |
| ProcessControl.FindRecord | WinTop/WindowsProcessControl.cpp:55-63 | the lookup loop picks the last record with the pid, or the default record |
| ProcessControl.LastRecordIsLast | WinTop/WindowsProcessControl.cpp:55-63 | with no record of the pid the default is chosen; otherwise a record with the pid and no later one |
| ProcessControl.LastRecordIsNodeRecord | WinTop/WindowsProcessControl.cpp:55-63 | for a non-zero pid, the details view shows the same record as the tree builder's node |
| ProcessControl.GetProcessDetails | WinTop/WindowsProcessControl.cpp:53-82 | the requested pid, the chosen record's name and metrics, and the child count |
| ProcessControl.TruncDiv | WinTop/WindowsProcessControl.cpp:294 | C++ division truncating toward zero |
| ProcessControl.StartTimeMs | WinTop/WindowsProcessControl.cpp:292-294 | below 2^63 ticks the result is the distance from the Unix epoch in whole milliseconds, rounded toward the epoch |
| ProcessControl.StartTimeRoundTrip | WinTop/WindowsProcessControl.cpp:292-294 | whole milliseconds since 1970 convert back exactly |
| ProcessControl.SignedDifference | WinTop/WindowsProcessControl.cpp:292-293 | below 2^63 ticks the 64-bit difference read back as signed is the true difference |
| ProcessControl.PriorityLabel | WinTop/WindowsProcessControl.cpp:381-407 | the label is "Не определен" exactly when the process could not be opened or its class is none of the four known ones |
| ProcessControl.PriorityLabels | WinTop/WindowsProcessControl.cpp:381-407 | the four known classes get four distinct labels |
| ServiceMonitor.StatusOf | WindowsTaskManager/WIndowsServiceMonitor.cpp:81-102 | a state is classified Unknown iff it is not one of the seven SERVICE_* states |
| ServiceMonitor.StatusRoundTrip | WindowsTaskManager/WIndowsServiceMonitor.cpp:81-102 | each known status comes from exactly its own state |
| ServiceMonitor.KnownStatesDistinct | WindowsTaskManager/WIndowsServiceMonitor.cpp:81-102 | two known states get the same status iff they are equal |

## Left out

- All GUI and operating-system work is left out: Qt signals, `beginResetModel`, header labels (`ProcessTableModel::headerData` and `setHorizontalHeaderLabels`), icons, process snapshots, `OpenProcess` and friends. The outcome of `OpenProcess`/`GetPriorityClass` is a parameter of `PriorityLabel`. The FILETIME is a parameter of `StartTimeMs`.
- ProcessControl.GetProcessDetails: only the fields computed from the record list are modelled. The path, parent pid, thread count, start time lookup, user name, priority and handle count come from Windows calls.
- The cpu text `QString::number(cpu, 'f', 2) + "%"` is not formatted. The cpu value is carried as a `real`, and the table's `Percent` variant stands for that text. Floating point is not modelled.
- ProcessControl.ChildProcessCount: the `quint32` counter's wrap-around is not modelled. It would need more than 2^32 records.
- ProcessControl.StartTimeMs: states the result only below 2^63 ticks, where Windows FILETIMEs lie. Above that, `StartTimeMs` models the 64-bit wrap as written, but no property is proved about it.
- The `ProcessInfo` in `WinTop/DataStructs.h` has no `parentPID` or `workingSetSize`. The core code reads both, so the model's record carries them, with `status` left out.
- The order of `QHash`/`QSet` iteration and the tie order of `std::sort` are unspecified. The model picks any element and proves its properties for every order. The exact order of rows within a slot after removals is not stated.
- TableModel.ProcessTableModel.Data has no `ensures` of its own. `TableModel.DataMatchesRow` states what it returns.
- `collectChildrenPids` takes a `pidToRow` parameter it never uses. The model leaves it out. The pid the name item stores under `UserRole + 1` is the `pid` field of the row's cells, which every row has, so the failed `toUInt` branch cannot occur.
- The dead guards of `updateTreeFromNewFlatList` are asserted unreachable rather than modelled as branches: `!_pidToRow.contains`, a null name item, `idx < 0`, and `ok == false`.
- The first build has no top-level fallback in the source. `TreeBuild.BuildView` states that entries it could not place are stuck, and `TreeModel.BuildShowsAll` proves there are none on a snapshot.
- The `ProcessTree` holds `shared_ptr` nodes. Reference counting and the release of the old tree are not modelled.
