# Loadout synchronizer and collection downloader, modelled in Dafny

This project models the three-way loadout synchronizer of the NexusMods app (`ALoadoutSynchronizer`) and the pure decision logic of its collection downloader (`CollectionDownloader`), and proves properties of both.

The synchronizer keeps a game folder in step with a *loadout*, the set of files the user wants installed. It works from three inputs keyed by game path:

- the disk as it is now;
- the disk as it was after the last synchronization;
- the loadout's desired files.

It merges them into one node per path and classifies each node into actions. It then runs the actions in a fixed order. The actions write datoms (`Add`/`Retract` of an entity, attribute and value) into one transaction, and request effects on disk.

Around this sit:

- the re-index of the disk;
- the life cycle of the "last synced loadout" pointer;
- the copying of a loadout.

The model is functional throughout:

- game paths are a location plus a list of components;
- disk states are maps from path to entry;
- a transaction is a sequence of datom operations plus a counter of temporary ids;
- `View` gives such a sequence a meaning: the (entity, attribute) → value map that applying it produces.

Modules, one per file:

| module | models |
|---|---|
| `Wrappers` | `Option`, `Result` |
| `GamePaths` | `GamePath`, `Parent`, ancestry |
| `Datoms` | entity ids, attributes, values, `Tx`, `View`, `Apply` |
| `DiskStates` | `DiskStateEntry`, disk states |
| `LoadoutFlattening` | `FileIsEnabled`, `SelectWinningFile`, the item-level `BuildSyncTree` |
| `SyncTrees` | the generic `BuildSyncTree<T>` three-way merge |
| `Classification` | `ProcessSyncTree`, the action groupings |
| `SyncActions` | the `Action*` helpers, `BackupNewFiles`, `GetOrCreateOverridesGroup` |
| `DirectoryReaper` | `CleanDirectories` |
| `SyncRun` | both `RunGroupings` drivers |
| `Rescan` | both `ReindexState` overloads |
| `Lifecycle` | `Synchronize`, `ActivateLoadout`, `DeactivateCurrentLoadout`, `ResetToOriginalGameState`, `CreateLoadout`, `DeleteLoadout` |
| `LoadoutCopy` | `CopyLoadout` |
| `Collections` | `CollectionDownloader` and `CollectionDownloadStatus` |

Abstractions and assumptions:

- **Action table.** The signature→action table (`ActionMapping.MapActions`) is not visible. It is a function parameter `Signature -> set<Action>`.
- **Groupings.** The grouping for action `a` is taken to be the classified nodes, in enumeration order, whose action set contains `a`. This is an assumption about `SyncActionGroupings`, which is not visible.
- **Action order.** `ActionsInOrder` is any sequence that lists every action exactly once (`SyncRun.IsActionOrder`). The numeric values of the `Actions` enum are not visible, so no concrete order is assumed.
- **Time, platform, store and ids.** `DateTime.UtcNow`, `IsUnix`, the content store's set of hashes, and the set of loadout files that still load as valid are fields of `SyncRun.Context`. The database's id for a new loadout is `Lifecycle.Machine.nextLoadout`.
- **New disk state for the reaper.** The source hands `CleanDirectories` the committed disk state of the installation, read after `Rebase` (lines 346-353). The model works that state out from the classified nodes instead (`SyncRun.NewStatePaths`): the extracted nodes, plus the nodes with a disk entry that are not deleted. The two agree when the tree's Disk slots are the stored disk state, as they are for the callers that build the tree from the re-indexed disk (lines 251-255, and `ActivateLoadout` at lines 1105-1113). A caller of `RunGroupings` that passes a tree whose Disk slots differ from the stored disk state is not covered.
- **Errors.** Where the source throws (`Dictionary.Add` on a repeated path, `.Value` of an empty optional, the "not in a loadout context" guards), the model returns a `Failure`. A `Failure` carries no effects; see Left out.
- **Collections.**
  - `IsOptional`/`IsRequired` are the two cases of one required-status attribute.
  - A download's name, URI, MD5 and size are plain fields.
  - The database is the set of query results `GetStatus` reads, in index order, with the validity of each loaded entity.
- **Stored disk state.** The re-index's read-back is stated for a stored disk state whose entries belong to the installation and are committed entities with distinct ids (`Rescan.StoredState`), and for a directory enumeration whose paths are distinct (`Rescan.DistinctPaths`). The database and the file system hand them over that way.
- **Overrides group.** `GetOrCreateOverridesGroup` (lines 138-161) is documented as getting or creating *the* override group, so one group per loadout is intended. Its `TryGetFirst` lookup reads `loadout.Db`, the database as it was before the run's transaction, so one run can create two; see Findings.
- **Reified deletes.** `AddReifiedDelete` is one of the actions the driver's loop dispatches (lines 328-330), handled like the others.

## Model

Source paths are relative to the repository root.

| member | source | states |
|---|---|---|
| LoadoutFlattening.NearestGroup | src/Abstractions/NexusMods.Abstractions.Loadouts.Synchronizers/ALoadoutSynchronizer.cs:687-703 | a priority comes from the first group met walking from the item up through its parents; there is one exactly when some link of the chain is a group |
| LoadoutFlattening.MaxPriorityMeansOverrides | src/Abstractions/NexusMods.Abstractions.Loadouts.Synchronizers/ALoadoutSynchronizer.cs:680-709 | a group's priority is `long.MaxValue` exactly when it is the Overrides group, because Game Files gives 0 and a user group gives its creation time in Unix seconds, which stays below it |
| LoadoutFlattening.MaxByPriority | src/Abstractions/NexusMods.Abstractions.Loadouts.Synchronizers/ALoadoutSynchronizer.cs:682 | `MaxBy` picks a candidate of maximal priority, and every candidate before it has strictly lower priority (ties keep the first) |
| LoadoutFlattening.WinnerIsFirstMaximum | src/Abstractions/NexusMods.Abstractions.Loadouts.Synchronizers/ALoadoutSynchronizer.cs:170-179 | the winner at a path is the first candidate of maximal priority among the enabled candidates for that path |
| LoadoutFlattening.CandidatesMembership | src/Abstractions/NexusMods.Abstractions.Loadouts.Synchronizers/ALoadoutSynchronizer.cs:167-169 | a candidate is exactly an item with a target path for which neither it nor any ancestor carries `Disabled` |
| LoadoutFlattening.DesiredSpec | src/Abstractions/NexusMods.Abstractions.Loadouts.Synchronizers/ALoadoutSynchronizer.cs:165-184 | a path has a desired row iff some enabled candidate targets it and the winner there is a loadout file; the row carries the winner's hash, size and id, and no candidate at that path has higher priority |
| LoadoutFlattening.DeletedWinnerHidesPath | src/Abstractions/NexusMods.Abstractions.Loadouts.Synchronizers/ALoadoutSynchronizer.cs:180 | when the winner at a path is a deleted-file tombstone, the path is absent, however many lower-priority files target it |
| LoadoutFlattening.OverridesWin | src/Abstractions/NexusMods.Abstractions.Loadouts.Synchronizers/ALoadoutSynchronizer.cs:694-696 | an enabled file in the Overrides group makes its path's winner have the maximal priority |
| LoadoutFlattening.DesiredPathsDistinct | src/Abstractions/NexusMods.Abstractions.Loadouts.Synchronizers/ALoadoutSynchronizer.cs:170-181 | the flattened loadout has one row per path, so the merge's `Dictionary.Add` never throws on it |
| SyncTrees.MergeSlots | src/Abstractions/NexusMods.Abstractions.Loadouts.Synchronizers/ALoadoutSynchronizer.cs:187-240 | the merged tree has a node exactly for the paths in the union of the three inputs; each slot is set iff its input holds the path, and holds that input's entry; every node has a slot set |
| SyncTrees.InsertRows | src/Abstractions/NexusMods.Abstractions.Loadouts.Synchronizers/ALoadoutSynchronizer.cs:192-203 | inserting the desired rows succeeds iff their paths are distinct; otherwise it fails naming a path that occurs twice |
| SyncTrees.OverlaysMerge | src/Abstractions/NexusMods.Abstractions.Loadouts.Synchronizers/ALoadoutSynchronizer.cs:205-237 | overlaying the previous state and then the current state on the rows gives the declarative three-way merge |
| SyncTrees.BuildSyncTree | src/Abstractions/NexusMods.Abstractions.Loadouts.Synchronizers/ALoadoutSynchronizer.cs:187-240 | the loop-based merge succeeds iff the rows' paths are distinct, and then equals the declarative merge; a failure names a repeated path |
| SyncTrees.BuildSyncTreeFromItems | src/Abstractions/NexusMods.Abstractions.Loadouts.Synchronizers/ALoadoutSynchronizer.cs:165-184 | the item-level overload always succeeds, and a node's Loadout slot is set exactly for the paths of the flattened loadout |
| Classification.BuildSignature | src/Abstractions/NexusMods.Abstractions.Loadouts.Synchronizers/ALoadoutSynchronizer.cs:268-277 | the signature carries the node's disk, previous and loadout hashes; each archived flag is set exactly when that slot is present and the content store holds its hash; the ignored flag is the backup-ignore test of the path |
| Classification.SignatureSeesOnlyHashes | src/Abstractions/NexusMods.Abstractions.Loadouts.Synchronizers/ALoadoutSynchronizer.cs:268-277 | two nodes at one path with the same three hashes get the same signature |
| Classification.ProcessedNodesCoverTree | src/Abstractions/NexusMods.Abstractions.Loadouts.Synchronizers/ALoadoutSynchronizer.cs:259-286 | classifying an enumeration of the tree gives exactly one node per path of the tree |
| Classification.Grouping | src/Abstractions/NexusMods.Abstractions.Loadouts.Synchronizers/ALoadoutSynchronizer.cs:282 | a grouping holds exactly the classified nodes whose action set contains the action |
| Classification.GroupingDistinct | src/Abstractions/NexusMods.Abstractions.Loadouts.Synchronizers/ALoadoutSynchronizer.cs:282 | when the classified nodes have distinct paths, so does every grouping, so no path is acted on twice by one action |
| SyncActions.BackupNewFiles | src/Abstractions/NexusMods.Abstractions.Loadouts.Synchronizers/ALoadoutSynchronizer.cs:789-822 | a file is archived exactly when its hash is not already in the content store |
| SyncActions.BackupSettles | src/Abstractions/NexusMods.Abstractions.Loadouts.Synchronizers/ALoadoutSynchronizer.cs:789-822 | after a backup every requested hash is stored, and backing up the same files again archives nothing |
| SyncActions.BackupRequests | src/Abstractions/NexusMods.Abstractions.Loadouts.Synchronizers/ALoadoutSynchronizer.cs:558-567 | backing up succeeds iff every node has a disk entry, and then requests each node's path, disk hash and size in group order |
| SyncActions.ActionDeleteFromDisk | src/Abstractions/NexusMods.Abstractions.Loadouts.Synchronizers/ALoadoutSynchronizer.cs:535-556 | deleting fails exactly when a node that will not be re-extracted has no disk entry, naming that node's path |
| SyncActions.DeleteRetractsExactly | src/Abstractions/NexusMods.Abstractions.Loadouts.Synchronizers/ALoadoutSynchronizer.cs:545-554 | every node not also extracted has its entry's path retracted; every datom written is a retraction of a disk attribute of such a node's entry |
| SyncActions.DeleteRemovesEntries | src/Abstractions/NexusMods.Abstractions.Loadouts.Synchronizers/ALoadoutSynchronizer.cs:545-554 | after the deletion datoms, no deleted, non-replaced entry has a path any more |
| SyncActions.WithExecuteBits | src/Abstractions/NexusMods.Abstractions.Loadouts.Synchronizers/ALoadoutSynchronizer.cs:527-529 | the mode gains the user, group and other execute bits and keeps every other bit |
| SyncActions.WithExecuteBitsIdempotent | src/Abstractions/NexusMods.Abstractions.Loadouts.Synchronizers/ALoadoutSynchronizer.cs:527-529 | setting the execute bits twice is setting them once, and a mode that already has them is unchanged |
| SyncActions.Extension | src/Abstractions/NexusMods.Abstractions.Loadouts.Synchronizers/ALoadoutSynchronizer.cs:520-521 | the extension is empty exactly when the name has no '.' or ends with its last '.'; otherwise it is the name from its last '.' on, a dot followed by dot-free characters |
| SyncActions.NeedsExecuteBitsExamples | src/Abstractions/NexusMods.Abstractions.Loadouts.Synchronizers/ALoadoutSynchronizer.cs:520-523 | the lower-cased extension is compared, so `.SH` counts, no extension counts, and only the last extension counts |
| SyncActions.MadeExecutable | src/Abstractions/NexusMods.Abstractions.Loadouts.Synchronizers/ALoadoutSynchronizer.cs:514-530 | a path is made executable iff the system is Unix, the path was extracted, and its lower-cased extension is one of the script extensions |
| SyncActions.ExtractRequests | src/Abstractions/NexusMods.Abstractions.Loadouts.Synchronizers/ALoadoutSynchronizer.cs:476-488 | extracting succeeds iff every node has a loadout hash, and then requests each node's hash at its path in group order; otherwise it fails naming a node without one |
| SyncActions.ActionExtractToDisk | src/Abstractions/NexusMods.Abstractions.Loadouts.Synchronizers/ALoadoutSynchronizer.cs:470-533 | the extraction datoms are written iff every node has a loadout hash |
| SyncActions.ExtractTouchesOnlyEntries | src/Abstractions/NexusMods.Abstractions.Loadouts.Synchronizers/ALoadoutSynchronizer.cs:498-513 | extraction only adds disk attributes, on a reused entry of the group or on one of the new temporary ids |
| SyncActions.ExtractCreatesEntries | src/Abstractions/NexusMods.Abstractions.Loadouts.Synchronizers/ALoadoutSynchronizer.cs:504-513 | a node without a disk entry gets a new entry on the next temporary id, with its path, the loadout file's hash and size, the extraction time, and the game |
| SyncActions.ExtractUpdatesEntries | src/Abstractions/NexusMods.Abstractions.Loadouts.Synchronizers/ALoadoutSynchronizer.cs:498-503 | after extraction, a reused disk entry reads back the loadout file's hash and size and the extraction time |
| SyncActions.GetOrCreateOverridesGroup | src/Abstractions/NexusMods.Abstractions.Loadouts.Synchronizers/ALoadoutSynchronizer.cs:141-161 | a found group is returned with the transaction untouched; otherwise one new group is created on a fresh temporary id, marked as the loadout's overrides and as a group |
| SyncActions.OverridesGroupWritesNoMetadata | src/Abstractions/NexusMods.Abstractions.Loadouts.Synchronizers/ALoadoutSynchronizer.cs:146-158 | creating the group only adds datoms, none of them installation or loadout bookkeeping |
| SyncActions.ActionIngestFromDisk | src/Abstractions/NexusMods.Abstractions.Loadouts.Synchronizers/ALoadoutSynchronizer.cs:576-635 | ingesting succeeds iff every node has a disk entry, and otherwise fails naming a node without one |
| SyncActions.IngestRefreshesTimes | src/Abstractions/NexusMods.Abstractions.Loadouts.Synchronizers/ALoadoutSynchronizer.cs:596-628 | both branches refresh every ingested node's disk entry last-modified time |
| SyncActions.IngestCreatesFiles | src/Abstractions/NexusMods.Abstractions.Loadouts.Synchronizers/ALoadoutSynchronizer.cs:601-621 | a node without a valid loadout file gets a new file of the loadout under the Overrides group, at its path, with the disk hash and size |
| SyncActions.IngestUpdatesFiles | src/Abstractions/NexusMods.Abstractions.Loadouts.Synchronizers/ALoadoutSynchronizer.cs:586-598 | after ingesting, a loadout file updated in place reads back the disk's hash and size |
| SyncActions.IngestWritesNoGroup | src/Abstractions/NexusMods.Abstractions.Loadouts.Synchronizers/ALoadoutSynchronizer.cs:583-629 | the per-node datoms only add, and never create an Overrides group or touch bookkeeping attributes |
| SyncActions.ReifiedDeletesPlaced | src/Abstractions/NexusMods.Abstractions.Loadouts.Synchronizers/ALoadoutSynchronizer.cs:451-467 | after the tombstone datoms, the k-th node's tombstone sits at its path under the Overrides group, with reason "Reified delete" |
| SyncActions.ReifiedDeleteWritesNoGroup | src/Abstractions/NexusMods.Abstractions.Loadouts.Synchronizers/ALoadoutSynchronizer.cs:451-467 | tombstones only add datoms on their own new temporary ids, never an Overrides group or bookkeeping |
| DirectoryReaper.NewStateDirs | src/Abstractions/NexusMods.Abstractions.Loadouts.Synchronizers/ALoadoutSynchronizer.cs:95-100 | the directories of the new state are exactly the proper ancestors of its files |
| DirectoryReaper.ChooseRoots | src/Abstractions/NexusMods.Abstractions.Loadouts.Synchronizers/ALoadoutSynchronizer.cs:102-127 | the chosen roots are non-root directories outside the new state, each above some deleted file, none inside another, at most one per deleted file, and together cover every empty ancestor of every deleted file |
| DirectoryReaper.CleanDirectories | src/Abstractions/NexusMods.Abstractions.Loadouts.Synchronizers/ALoadoutSynchronizer.cs:90-134 | no location root is deleted; no directory holding a file of the new state is deleted; every deleted directory is above a deleted file; walks that reach a seen directory add no second root; every emptied directory is removed through some chosen root |
| SyncRun.Step | src/Abstractions/NexusMods.Abstractions.Loadouts.Synchronizers/ALoadoutSynchronizer.cs:301-338 | one case of the driver succeeds exactly when its helper does not throw, and only extends the transaction |
| SyncRun.RunActionsSucceeds | src/Abstractions/NexusMods.Abstractions.Loadouts.Synchronizers/ALoadoutSynchronizer.cs:295-339 | the action loop completes iff no helper throws on its non-empty group |
| SyncRun.RunWritesNoMetadata | src/Abstractions/NexusMods.Abstractions.Loadouts.Synchronizers/ALoadoutSynchronizer.cs:295-339 | the helpers never write the installation's or the loadout's bookkeeping attributes |
| SyncRun.RunDeletes | src/Abstractions/NexusMods.Abstractions.Loadouts.Synchronizers/ALoadoutSynchronizer.cs:314-316 | the files removed are exactly the paths of the delete grouping, in order |
| SyncRun.RunExtracts | src/Abstractions/NexusMods.Abstractions.Loadouts.Synchronizers/ALoadoutSynchronizer.cs:318-322 | the files written and made executable are exactly those of the extract grouping |
| SyncRun.RunBackups | src/Abstractions/NexusMods.Abstractions.Loadouts.Synchronizers/ALoadoutSynchronizer.cs:306-308 | the files archived are exactly the backup grouping's files whose hash the store lacks |
| SyncRun.SnapshotOverridesPerHelper | src/Abstractions/NexusMods.Abstractions.Loadouts.Synchronizers/ALoadoutSynchronizer.cs:141-161 | as written, with no Overrides group in the database, every creating helper that runs creates one |
| SyncRun.TwoOverridesGroups | src/Abstractions/NexusMods.Abstractions.Loadouts.Synchronizers/ALoadoutSynchronizer.cs:143 | as written, one ingested file plus one reified delete, with no Overrides group yet, gives a run that creates two Overrides groups |
| SyncRun.SharedOverridesCreatedOnce | src/Abstractions/NexusMods.Abstractions.Loadouts.Synchronizers/ALoadoutSynchronizer.cs:141-161 | corrected, a run creates at most one Overrides group and reuses an existing one |
| SyncRun.OneOverridesGroupShared | src/Abstractions/NexusMods.Abstractions.Loadouts.Synchronizers/ALoadoutSynchronizer.cs:141-161 | corrected, the same two-file run creates one Overrides group |
| SyncRun.RunGroupings | src/Abstractions/NexusMods.Abstractions.Loadouts.Synchronizers/ALoadoutSynchronizer.cs:289-358 | the run succeeds iff no helper throws; with the corrected group lookup it creates one Overrides group exactly when none exists and something is ingested or reified; the installation then points at the loadout; the deleted files are the delete grouping; the reaped directories are not location roots, lie above no file of the new state, each lie above a deleted file, are never nested, number at most the deleted files, and reach every non-root ancestor of a deleted file that holds no file of the new state |
| SyncRun.FinalizeSetsPointer | src/Abstractions/NexusMods.Abstractions.Loadouts.Synchronizers/ALoadoutSynchronizer.cs:341-344 | after the final datoms, the installation's last synced loadout is the loadout, whatever the helpers wrote |
| SyncRun.InstallationRun | src/Abstractions/NexusMods.Abstractions.Loadouts.Synchronizers/ALoadoutSynchronizer.cs:361-420 | the installation-only run succeeds iff no helper throws; any ingest or reified delete makes it fail; it never creates an Overrides group |
| SyncRun.InstallationForgetsLoadout | src/Abstractions/NexusMods.Abstractions.Loadouts.Synchronizers/ALoadoutSynchronizer.cs:412-417 | after the installation-only run, the installation has no last synced loadout |
| Rescan.Seen | src/Abstractions/NexusMods.Abstractions.Loadouts.Synchronizers/ALoadoutSynchronizer.cs:894-902 | the seen set holds exactly the paths of the observed files that are not ignored |
| Rescan.FileOps | src/Abstractions/NexusMods.Abstractions.Loadouts.Synchronizers/ALoadoutSynchronizer.cs:904-931 | a file writes datoms exactly when it has no entry, or its mtime is newer, or its size differs |
| Rescan.ScanOps | src/Abstractions/NexusMods.Abstractions.Loadouts.Synchronizers/ALoadoutSynchronizer.cs:886-935 | the scan writes nothing exactly when no non-ignored file is new or out of date |
| Rescan.ScanTouchesOnlyStale | src/Abstractions/NexusMods.Abstractions.Loadouts.Synchronizers/ALoadoutSynchronizer.cs:904-931 | the scan only adds disk attributes, on the entry of an out-of-date file or on a new temporary id |
| Rescan.ScanWritesStale | src/Abstractions/NexusMods.Abstractions.Loadouts.Synchronizers/ALoadoutSynchronizer.cs:909-929 | an out-of-date file's entry gets its new hash and size; a new file gets an entry with its path and hash |
| Rescan.RetractUnseen | src/Abstractions/NexusMods.Abstractions.Loadouts.Synchronizers/ALoadoutSynchronizer.cs:937-947 | an entry's path is retracted exactly when it was not seen; nothing else is touched |
| Rescan.ReindexState | src/Abstractions/NexusMods.Abstractions.Loadouts.Synchronizers/ALoadoutSynchronizer.cs:879-954 | the result is true iff some file was added or updated or some entry retracted; the last-scanned pointer is written last, and only then; otherwise the transaction is untouched; applied to any view that reads back the stored state, the appended datoms leave a view that reads back the rescanned state, with every unseen entry's path gone |
| Rescan.Rescan | src/Abstractions/NexusMods.Abstractions.Loadouts.Synchronizers/ALoadoutSynchronizer.cs:853-877 | the re-index commits iff something changed or no initial state was recorded, and records the initial state when it was missing |
| Rescan.Rescanned | src/Abstractions/NexusMods.Abstractions.Loadouts.Synchronizers/ALoadoutSynchronizer.cs:879-954 | the disk state the re-index's datoms read back as holds exactly the seen paths |
| Rescan.RescannedIds | src/Abstractions/NexusMods.Abstractions.Loadouts.Synchronizers/ALoadoutSynchronizer.cs:909-929 | an entry of the rescanned state keeps the id of the stored entry at its path, or else takes one of the scan's new temporary ids |
| Rescan.ScanOpsHoldAt | src/Abstractions/NexusMods.Abstractions.Loadouts.Synchronizers/ALoadoutSynchronizer.cs:904-931 | applied to a view that reads back the stored state, the file loop's datoms make every stored or scanned path read back its entry after the scan |
| Rescan.ReindexOpsReadBack | src/Abstractions/NexusMods.Abstractions.Loadouts.Synchronizers/ALoadoutSynchronizer.cs:879-954 | the file datoms, then the retractions, then any bookkeeping datoms turn every view that reads back the stored state into one that reads back the rescanned state, with the unseen entries' paths retracted |
| Rescan.ReindexTail | src/Abstractions/NexusMods.Abstractions.Loadouts.Synchronizers/ALoadoutSynchronizer.cs:886-951 | the datoms `ReindexState` appends are disk attributes followed by the last-scanned pointer, and they read back as the rescanned state |
| Rescan.RescannedUpToDate | src/Abstractions/NexusMods.Abstractions.Loadouts.Synchronizers/ALoadoutSynchronizer.cs:904-931 | in the state the re-index's datoms read back as, every non-ignored file's entry is up to date with it |
| Rescan.RescanSettles | src/Abstractions/NexusMods.Abstractions.Loadouts.Synchronizers/ALoadoutSynchronizer.cs:879-954 | re-indexing the same files against the state the first re-index's datoms read back as reports no change, so by `ReindexState`'s contract it returns false and appends nothing |
| Rescan.SecondScanWritesNothing | src/Abstractions/NexusMods.Abstractions.Loadouts.Synchronizers/ALoadoutSynchronizer.cs:904-931 | scanning the same files against that state writes no datom at all |
| Lifecycle.Synchronize | src/Abstractions/NexusMods.Abstractions.Loadouts.Synchronizers/ALoadoutSynchronizer.cs:638-657 | afterwards the installation points at the loadout, an initial state is recorded, the loadouts are unchanged, and merges were only appended |
| Lifecycle.SynchronizeInPlace | src/Abstractions/NexusMods.Abstractions.Loadouts.Synchronizers/ALoadoutSynchronizer.cs:654-656 | with no other loadout on disk, one merge of disk, last applied state and loadout is run |
| Lifecycle.SynchronizeSwap | src/Abstractions/NexusMods.Abstractions.Loadouts.Synchronizers/ALoadoutSynchronizer.cs:642-651 | swapping runs the previous loadout's merge twice, then the reset to the initial files, then the new loadout with the disk as its own previous state |
| Lifecycle.DeactivateCurrentLoadout | src/Abstractions/NexusMods.Abstractions.Loadouts.Synchronizers/ALoadoutSynchronizer.cs:1083-1095 | afterwards no loadout is synced; with none synced it does nothing |
| Lifecycle.ResetToOriginalGameState | src/Abstractions/NexusMods.Abstractions.Loadouts.Synchronizers/ALoadoutSynchronizer.cs:1338-1358 | one merge of disk, last applied state and the initial files, run for the installation alone, which forgets the synced loadout |
| Lifecycle.ActivateLoadout | src/Abstractions/NexusMods.Abstractions.Loadouts.Synchronizers/ALoadoutSynchronizer.cs:1105-1113 | one merge with the re-indexed disk as both current and previous state, after which the loadout is synced |
| Lifecycle.DeleteLoadout | src/Abstractions/NexusMods.Abstractions.Loadouts.Synchronizers/ALoadoutSynchronizer.cs:1258-1276 | the loadout is gone and not synced; deleting a loadout that is not on disk runs no merge |
| Lifecycle.CreateLoadout | src/Abstractions/NexusMods.Abstractions.Loadouts.Synchronizers/ALoadoutSynchronizer.cs:991-1080 | the new loadout gets a fresh id and an initial state is recorded; it is activated iff it is the only loadout |
| Lifecycle.SynchronizeKeepsValid | src/Abstractions/NexusMods.Abstractions.Loadouts.Synchronizers/ALoadoutSynchronizer.cs:638-657 | synchronizing keeps the last synced loadout among the existing ones |
| Lifecycle.DeactivatedSynchronizesInPlace | src/Abstractions/NexusMods.Abstractions.Loadouts.Synchronizers/ALoadoutSynchronizer.cs:642-643 | after a deactivation nothing is left to swap out |
| LoadoutCopy.NewIds | src/Abstractions/NexusMods.Abstractions.Loadouts.Synchronizers/ALoadoutSynchronizer.cs:1193-1205 | the table's keys are exactly the loadout and its items, each mapped to one of the new temporary ids |
| LoadoutCopy.NewIdsAt | src/Abstractions/NexusMods.Abstractions.Loadouts.Synchronizers/ALoadoutSynchronizer.cs:1199-1205 | the loadout gets the first temporary id and the k-th item the next ones in order |
| LoadoutCopy.CopyLoadout | src/Abstractions/NexusMods.Abstractions.Loadouts.Synchronizers/ALoadoutSynchronizer.cs:1171-1256 | the copy extends the transaction, uses one temporary id per copied entity, and returns a new id for the loadout |
| LoadoutCopy.CopyWritesNewIdsOnly | src/Abstractions/NexusMods.Abstractions.Loadouts.Synchronizers/ALoadoutSynchronizer.cs:1207-1243 | every copied datom is an addition on one of the new ids, so the original loadout is never changed |
| LoadoutCopy.CopyReplaysDatoms | src/Abstractions/NexusMods.Abstractions.Loadouts.Synchronizers/ALoadoutSynchronizer.cs:1207-1243 | every datom of every copied entity reappears on its new id: names become the new names, other values are copied with their ids remapped |
| LoadoutCopy.RemapRoundTrip | src/Abstractions/NexusMods.Abstractions.Loadouts.Synchronizers/ALoadoutSynchronizer.cs:1250-1253 | mapping a value to the new ids and back gives the original, when it mentions none of the new ids |
| LoadoutCopy.CopyRestoresOriginal | src/Abstractions/NexusMods.Abstractions.Loadouts.Synchronizers/ALoadoutSynchronizer.cs:1207-1243 | the copy is the original under renaming: mapping a copied datom back gives the original entity, attribute and value, names aside |
| Collections.ItemTypeSelects | src/NexusMods.Collections/CollectionDownloader.cs:176-181 | asking for Required selects exactly the required downloads, Optional the optional ones, both flags all, no flag none |
| Collections.GetItems | src/NexusMods.Collections/CollectionDownloader.cs:491-504 | the result holds exactly the matching downloads, in revision order |
| Collections.MatchingAppend | src/NexusMods.Collections/CollectionDownloader.cs:491-504 | filtering keeps order: filtering two parts of a revision and concatenating the results is filtering the whole |
| Collections.MatchingLength | src/NexusMods.Collections/CollectionDownloader.cs:496-503 | the result is as long as the number of matching downloads |
| Collections.CountItems | src/NexusMods.Collections/CollectionDownloader.cs:166-171 | the count is at most the number of matching downloads, and equals it iff no matching download is bundled |
| Collections.BundledNotCounted | src/NexusMods.Collections/CollectionDownloader.cs:166-171 | a revision of bundled downloads counts zero items |
| Collections.CanDirectDownload | src/NexusMods.Collections/CollectionDownloader.cs:63-100 | direct download is allowed iff the request did not throw, the status is a success, the media type starts with `application/`, and the content length is present and equal to the expected size |
| Collections.DownloadExternal | src/NexusMods.Collections/CollectionDownloader.cs:105-120 | a job is queued iff direct download is allowed; otherwise the browser is opened unless only direct downloads were asked for, in which case nothing happens |
| Collections.DefaultDownloadActs | src/NexusMods.Collections/CollectionDownloader.cs:125-128 | the overload without the flag never does nothing |
| Collections.FirstValid | src/NexusMods.Collections/CollectionDownloader.cs:372-377 | the first valid candidate is found, if any; none iff no candidate is valid |
| Collections.LibraryItemStatus | src/NexusMods.Collections/CollectionDownloader.cs:357-379 | the status is `Installed` with the first valid linked loadout item iff there is a group and such an item; otherwise `InLibrary` with the library item |
| Collections.BundledStatus | src/NexusMods.Collections/CollectionDownloader.cs:232-248 | a bundled download is `Installed` iff there is a group and a valid loadout item unpacked from it; otherwise `Bundled` |
| Collections.LibraryItemOf | src/NexusMods.Collections/CollectionDownloader.cs:270-333 | a NexusMods download's library item is the first valid one for its file; an external one prefers a valid direct download over a valid local file |
| Collections.GetStatus | src/NexusMods.Collections/CollectionDownloader.cs:448-468 | `NotDownloaded` iff a fetched download has no valid library item; `Bundled` only for bundled downloads; `InLibrary` names the download's library item; `Installed` needs a group |
| Collections.NoGroupNotInstalled | src/NexusMods.Collections/CollectionDownloader.cs:440-443 | without a group, nothing is installed: the status is missing, bundled or in the library |
| Collections.InstalledIsValid | src/NexusMods.Collections/CollectionDownloader.cs:357-379 | an installed status names a loadout item that is valid in the database |
| Collections.FullyDownloadedMeans | src/NexusMods.Collections/CollectionDownloader.cs:186-189 | fully downloaded iff every fetched item has a valid library item; bundled items never hold it back |
| Collections.StatusEqualsIsEquality | src/NexusMods.Collections/CollectionDownloader.cs:659-678 | status equality holds iff the two statuses are the same case with the same item id, which is structural equality |
| Collections.DatomEqualsByEntity | src/NexusMods.Collections/CollectionDownloader.cs:688-698 | two absent values are equal, one absent is unequal, and two present ones are equal iff their entity ids are |
| Collections.DatomEqualsIsEquivalence | src/NexusMods.Collections/CollectionDownloader.cs:688-698 | the comparer is reflexive, symmetric and transitive |

## Left out

- `ActionMapping.MapActions`, `SyncActionGroupings`, `SyncTree.GetAllDescendentFiles` and the numeric values of `Actions` are not part of this model. They are parameters or assumptions, as described above.
- `LoadoutToDiskDiff` is not modelled. Its first branch tests `HasFlag(Actions.DoNothing)`, whose meaning depends on the unseen enum value.
- `MoveNewFilesToMods` is left out. It is a virtual hook that does nothing here; games override it.
- `WarnOfConflict` and `WarnOfUnableToExtract` only log. They are steps that write nothing.
- The following are outside the model: file I/O, directory removal, `GetUnixFileMode`/`SetUnixFileMode`, xxHash3 hashing, and the content store's `HaveFile`/`ExtractFiles`/`BackupFiles`. Effects are requests in `SyncRun.Effects`, and hashes are inputs.
- Concurrency is modelled sequentially: the `Parallel.ForEachAsync` scans and the locked `seen` set.
- The MnemonicDB engine is not modelled: commit, id remapping after commit, `Rebase`, the garbage collector, and how `ValueTag.Remap` finds ids inside a value.
- LoadoutCopy.RemapValue: it remaps reference values and the owner of a (owner, path) tuple. Which value kinds hold ids is decided by the database engine.
- `GetOrCreateInitialDiskState`, `IndexNewState`, `CreateVanillaStateLoadout`, `UnManage`, `RescanGameFiles` and `CreateLoadoutGameFilesGroup` are not modelled.
- Lifecycle.CreateLoadout: it does not model the files and groups written for the new loadout. It also counts every loadout as existing, not only the visible ones on the same game location.
- Lifecycle.Synchronize: it records each merge by the snapshots it is given and takes every run to complete. What a merge does is modelled in `SyncRun`.
- The jobs, the logging, the dependency-injection constructors and the user-interface files are left out.
- In the collection downloader, these are left out:
  - the `HEAD` request itself: its outcome is the `HeadResponse` input;
  - `OpenUrl`;
  - the premium check and the NexusMods `Download` overload;
  - temporary files;
  - every observable pipeline: `GetStatusObservable`, `DownloadedItemCountObservable`, `IsCollectionInstalled`;
  - `DownloadCollection`.
- Collections.CanDirectDownload: it treats the media-type test as an ordinal prefix test. The source's `StartsWith` is culture-sensitive, and the two agree on ASCII media types.
- SyncRun.Step: a failed run returns a `Failure` without the disk effects issued before the throw. In the source, `ActionDeleteFromDisk` deletes a file (line 543) before it throws on a missing disk entry (line 548). Deletions and extractions of earlier helpers also stay on disk, while the transaction is never committed (the installation run, lines 384 and 397). The model promises nothing about the disk after a failed run.
- SyncRun.RunGroupings: it runs the corrected Overrides lookup, in which the second creating helper reuses the group the first one created. The source's driver looks the group up in the pre-run database from both helpers (lines 449 and 580). So with no group yet, a run with both an ingest and a reified delete creates two groups. `SyncRun.SnapshotOverridesPerHelper` and `SyncRun.TwoOverridesGroups` state that as-written count; see Findings.
- SyncActions.NeedsExecuteBits: it lowers the extension with ASCII case folding. The source's `ToLower()` at line 523 uses the current culture. Under a Turkish culture `.BIN` lowers to `.bın`, which is not a script extension, so the source sets no execute bit where the model does. `SyncActions.MadeExecutable` inherits this.
- The `throw new NotSupportedException()` of `GetStatus` cannot be reached: the model's download kinds are the three the dispatch handles.
- The `throw` in `ResetToOriginalGameState` for a missing initial state cannot be reached either: the re-index before it always records one.

## Findings

| source | as written | input that shows it | evidently intended | confidence | as-written member | corrected member |
|---|---|---|---|---|---|---|
| src/Abstractions/NexusMods.Abstractions.Loadouts.Synchronizers/ALoadoutSynchronizer.cs:143 | `GetOrCreateOverridesGroup` looks the group up in `loadout.Db`, the database as it was before the run's transaction. Both `ActionIngestFromDisk` (line 580) and `ActionAddReifiedDelete` (line 449) call it in the same transaction | a loadout with no Overrides group yet; one new file on disk (ingest) and one game file removed from disk (reified delete), synchronized in one run | one Overrides group per loadout: the second helper reuses the group the first one created | not executed | SyncRun.TwoOverridesGroups | SyncRun.OneOverridesGroupShared |
