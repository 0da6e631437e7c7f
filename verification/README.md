# weft-block in Dafny

A Dafny 4.11 model of the data plane and the self-healing part of weft-block, with proofs about it.
`dafny verify dfyconfig.toml` checks the whole project.

weft-block serves a virtual disk from replicas. A replica is a chain of sparse files, one per snapshot and a
writable head on top; an engine fans writes out to the replicas and reads from one of them; backups are taken from
snapshots; a control plane places replicas and replaces lost ones. The project proves that each of these machines
is, over whole runs, the simple thing it stands for.

| files | what they model | main results |
|---|---|---|
| `Sectors`, `Sets`, `Sequences`, `Layers`, `ReadSpec`, `WriteSpec`, `Extents`, `DiffDisk` | the copy-on-write volume and its one-byte-per-sector location table | every operation keeps the table in agreement with the search through the layers; any write splices the flat view; run-merged reads are the flat view exactly under a stated condition |
| `SnapshotStore`, `SnapshotTree`, `SnapshotRuns` | the tree of disks, its edits and their runs | every run refines an ideal store of live bytes and immutable snapshots, with purges invisible (`RunRefines`, `SnapshotsNeverChange`, `RevertBringsBack`) |
| `StackSpec`, `Replica` | the replica object: disk data, child map, active list and open files, all changed in place | each method is one step, or a run of purge steps, of that tree, and leaves the volume open on the live chain |
| `Compare`, `Backup`, `Increment`, `Crypto` | changed windows between snapshots, incremental backup and restore, the encrypted stream | windows are exactly the changed blocks; a restore succeeds exactly if it can, and reproduces the leaf snapshot byte for byte; any tampering with an encrypted stream yields at most a prefix; encoding and decoding round-trips for any split into writes and reads |
| `EngineSpec`, `Engine`, `Rebuild` | the replicated engine, its error handling, and the rebuild of a replica | the engine refines one flat disk over every run, whatever each replica does with each write (`RunFlat`); survivors of full disks are a largest class; reads rotate; a replica rebuilt from any mix of read-write replicas stands for the volume's live bytes and snapshots, with all that was written and marked meanwhile (`RebuildCorrect`, `RebuildRefines`, `RebuildPromotes`) |
| `DataConn` | the request loop of a data connection | every answer is the first response to the number under which its request was sent, and no request completes twice; the connection fails at the first breaking event |
| `Placement`, `Rereplicate` | placement of replicas and the orphan sweep | placement spreads over DCs and ignores the order of candidates; one owner per volume, whose sweep heals and settles it, so that the next sweep by any agent leaves it alone; racing owners write the same, and the statistics count what was written |

How things are represented: a file is a `Layer`, its bytes and the set of sectors that hold data; `Content` is the
meaning of a disk ("the nearest ancestor that holds the sector wins, else the backing file or the root"); `View` is
the same for a stack of open files. The sector size is a positive parameter. Objects that the source updates in place
are classes; what a device, a replica, a reader or a file system may do at will is a parameter or a nondeterministic
choice: `stop` is the volume offset at which a write fails, `results` says for each replica whether it took a write,
filled up after a prefix or failed with arbitrary bytes, `broken` are the replicas that fail reads, and `Tick(exceeded)`
is the clock.

## Where the code and its intent part

The model does what the code does. Where an intended property fails, the exact condition under which it holds is proved.

- An unaligned read reuses the sector buffer of its first sector for its last one without clearing it, and a read into
  a file that ends early leaves the buffer alone. `ReadIsView` gives the exact condition for a read to be the flat view,
  and `StaleTailExample` a family of reads that miss it.
- A failed write marks its sectors in the table anyway. The table still agrees exactly if every sector that was not
  reached was in the head before, or the head is the root (`FailedWriteCache`; `FailedWriteExample` is a write after which
  it does not).
- Windows of a comparison can reach past the end of the volume. They fit exactly if the volume is a whole number of
  blocks or its last, partial block holds no changed sector (`WindowsFit`; `WindowPastEnd` is a window that does not).
- When every read-write disk is full, the survivors keep a prefix of the write, while a replica that is being rebuilt
  may hold all of it, and both stay. `FullDiskSplits` is that write of the engine, with the exact condition for the two to
  hold the same bytes; `FullDisksSplit` gives it for the head files and their sectors.
- The limit on snapshots counts a backing file as one of them, although its comment excludes it
  (`LimitCountsSnapshots`).
- A restore that does not read the whole body, because the body is longer than its sidecar says or the volume is too
  small, never returns: it waits for the download, which waits for a reader of the rest (`RestoreOneBackup`).
- An encrypted stream that is cut between two chunks is a proper stream of a shorter plaintext (`CutIsStream`), so the
  decoder cannot report the loss; the size in the sidecar does.
- With a write-only replica present, an unaligned write is refused as soon as the first reader asked fails, even if
  others could answer (`WriteInWOMode`).
- The header stores the chunk size in 32 bits, so a decoder learns the right size exactly below 2^32
  (`HeaderChunkSize`); two chunks share a nonce exactly if their numbers agree modulo 2^32 (`NoncesDistinct`).
- Placement can pick one host twice if host ids repeat across DCs (`SharedIdPickedTwice`); its picks are different
  hosts exactly if the first hosts of the first `count` DCs are (`PicksDistinctIff`).
- The walk along a backup chain refuses a chain of 256 links, although its comment allows that many
  (`WalkBackupChain`).
- A comparison without differences streams the whole snapshot, because an empty list of ranges means a full read to
  the server; the comment calls it a no-op. Restoring is right all the same (`AppliedIsView`).
- The pattern that reads a head's number keeps only its last digit, so the head after `volume-head-010.img` is number 1
  (`NextHead` in `SnapshotTree.dfy`). The invariant holds all the same.
- Replacing a disk links the target to the source's file before it counts the source's children, so a refusal leaves the
  target with the wrong file (`ReplaceDisk`).

## Model

| member | source | states |
|---|---|---|
| `Layers.AlignedWriteView` | pkg/replica/diff_disk.go:153-170 | a write of whole sectors into the head changes the flat view at its own bytes and nowhere else |
| `Layers.AlignedWriteContents` | pkg/replica/diff_disk.go:153-170 | the same on the whole view: the buffer is spliced in |
| `Layers.PushView` | pkg/replica/replica.go:1031-1135 | a fresh empty layer on top does not change the view |
| `ReadSpec.PushAgrees` | pkg/replica/diff_disk.go:297-326 | a fresh empty layer changes no sector's owner, so the table stays in agreement |
| `ReadSpec.DropAgrees` | pkg/replica/diff_disk.go:30-48 | removing a layer at any index and shifting the entries keeps every nonzero entry equal to the topmost layer that holds the sector |
| `ReadSpec.ReplaceAgrees` | pkg/replica/replica.go:419-456 | another file for a layer keeps the agreement if no entry's owner changes |
| `ReadSpec.TargetChangeFits` | pkg/replica/diff_disk.go:211-257 | two neighbouring sectors with different targets both start inside the volume, so no run but the last can leave it |
| `ReadSpec.LastRunStatus` | pkg/replica/diff_disk.go:211-295 | a read that leaves the volume ends in a sector served by the head |
| `ReadSpec.RunServed` | pkg/replica/diff_disk.go:263-295 | one file read for a run of sectors with one target serves each sector as resolving it by itself would |
| `ReadSpec.FetchIsView` | pkg/replica/diff_disk.go:211-257 | a whole-sector read into a zeroed buffer is the flat view, zeros past short files included |
| `ReadSpec.ReadIsView` | pkg/replica/diff_disk.go:172-209 | a read of any range is the flat view if and only if, wherever the owning file ends before a byte, the buffer read into (the caller's or the shared sector buffer) held zero there |
| `ReadSpec.LongFilesReadRight` | pkg/replica/diff_disk.go:172-209 | any read is the flat view, whatever the buffer held, if every file reaches the end of the range |
| `ReadSpec.ZeroedReadRight` | pkg/replica/diff_disk.go:172-257 | aligned reads into zeroed buffers are the flat view whatever the files' sizes |
| `ReadSpec.StaleTailExample` | pkg/replica/diff_disk.go:185-201 | an unaligned read whose last byte is the first byte of its first sector instead of zero |
| `WriteSpec.NominalWrittenBytes` | pkg/replica/diff_disk.go:136-151 | the bytes of the buffer before the point where the sector write stopped, clamped to the buffer |
| `WriteSpec.MarkedAgrees` | pkg/replica/diff_disk.go:153-170 | writing whole sectors to the head and marking them keeps the table in agreement |
| `WriteSpec.FailedWriteCache` | pkg/replica/diff_disk.go:153-170 | after a write that stopped early the table agrees if and only if the head is the root or already held every sector that was not reached |
| `WriteSpec.FailedWriteExample` | pkg/replica/diff_disk.go:153-170 | a write of one sector over a snapshot that fails at once: the table sends the sector to the empty head |
| `WriteSpec.AlignedPartial` | pkg/replica/diff_disk.go:153-170 | a write of whole sectors is cut short exactly if the device error lies in it; then the layers show the new bytes before the stop, the head's old file in the rest of the cut sector, and the old view elsewhere |
| `WriteSpec.SectorPartial` | pkg/replica/diff_disk.go:99-122 | a failed sector write counts for the smaller write inside it as the bytes before the stop, and leaves exactly the bytes that a write of the small buffer cut at that stop would |
| `WriteSpec.BoundaryStop` | pkg/replica/diff_disk.go:63-122 | if the device stopped at a sector boundary, the view is the old one with exactly the reported bytes spliced in |
| `WriteSpec.PiecesHit` | pkg/replica/diff_disk.go:63-97 | a device error hits an unaligned write exactly if it hits its head, middle or tail, in that order of offsets |
| `Extents.FiemapPage` | pkg/replica/extents.go:11-37 | asking for extents from the end of the last one seen yields exactly the next page |
| `Extents.MarkExtent` | pkg/replica/extents.go:11-37 | exactly the sectors of the extent get the layer's index |
| `Extents.MarkPage` | pkg/replica/extents.go:11-37 | one page marks exactly its extents, and only the page with the last extent ends the scan |
| `Extents.LoadDiffDiskLocationList` | pkg/replica/extents.go:11-37 | paging through a file's extents marks all of them and nothing else, and ends |
| `Extents.MarkedAlloc` | pkg/replica/extents.go:11-37 | for extents that describe a file, the marked sectors are the ones that hold data |
| `DiffDisks.PreloadedAgrees` | pkg/replica/diff_disk.go:412-437 | a table preloaded bottom-up agrees with the search |
| `DiffDisks.DiffDisk.constructor` | pkg/replica/replica.go:161-259 | a volume whose table knows nothing is in agreement |
| `DiffDisks.DiffDisk.Push` | pkg/replica/replica.go:1031-1135 | a new head keeps the contents and the agreement |
| `DiffDisks.DiffDisk.RemoveIndex` | pkg/replica/diff_disk.go:30-48 | the layer is gone, entries above it moved down, its own are forgotten and no others, and the table agrees |
| `DiffDisks.DiffDisk.Expand` | pkg/replica/diff_disk.go:50-61 | the volume has the new size, old entries stay, new sectors are unknown, and the table agrees |
| `DiffDisks.DiffDisk.Lookup` | pkg/replica/diff_disk.go:297-326 | the result is the topmost layer that holds the sector, cached or not, and the head past the table; it is remembered, nothing else changes, and the table agrees |
| `DiffDisks.DiffDisk.Read` | pkg/replica/diff_disk.go:263-295 | the run is served from its layer; the count and the unexpected end of file follow from the file's and the volume's size |
| `DiffDisks.DiffDisk.MergeRuns` | pkg/replica/diff_disk.go:211-257 | after the loop all runs but the last are served and the last has one target |
| `DiffDisks.DiffDisk.ReadRuns` | pkg/replica/diff_disk.go:211-257 | merging runs serves every sector as resolving it alone would; the error is raised exactly past the end of the volume |
| `DiffDisks.DiffDisk.FullReadAt` | pkg/replica/diff_disk.go:211-257 | unaligned calls are refused untouched; any other read is the sector-by-sector result |
| `DiffDisks.DiffDisk.ReadAt` | pkg/replica/diff_disk.go:172-209 | a read of any range returns, byte for byte, what the layers and the buffers used on the way determine; it fails exactly past the end, and then reports the bytes up to the end if aligned and none else |
| `DiffDisks.DiffDisk.FullWriteAt` | pkg/replica/diff_disk.go:153-170 | unaligned calls change nothing; a full write splices the view; a cut one leaves the spliced prefix, and in both cases all its sectors are marked |
| `DiffDisks.DiffDisk.Mark` | pkg/replica/diff_disk.go:153-170 | exactly the written range of sectors gets the head's index |
| `DiffDisks.DiffDisk.PatchSector` | pkg/replica/diff_disk.go:99-122 | writing the patched sector back would splice the buffer, and only the buffer, into the view |
| `DiffDisks.DiffDisk.ReadModifyWrite` | pkg/replica/diff_disk.go:99-122 | a write inside one sector splices the view, or reports the buffer bytes before the stop and leaves the cut sector as stated |
| `DiffDisks.DiffDisk.WriteAt` | pkg/replica/diff_disk.go:63-97 | a write of any offset and length succeeds exactly if no device error lies in a sector it touches, and then splices the buffer into the view; else it reports the buffer bytes before the stop, and every byte of the view is stated, those of the cut sector included |
| `DiffDisks.DiffDisk.Preload` | pkg/replica/diff_disk.go:412-437 | every entry is the topmost probed layer that holds the sector, and the table agrees with the search |
| `SnapshotStores.ShadowedUpdate` | pkg/replica/replica.go:539-589 | changing a disk where its only child holds the sector changes no other disk's content |
| `SnapshotStores.FoldFile` | pkg/replica/replica.go:539-589 | in whatever order the sectors are folded, the parent's file ends as the child's sectors over its own |
| `SnapshotStores.FoldedAll` | pkg/replica/replica.go:539-589 | after the fold the parent's file holds every sector of the child with the child's bytes |
| `SnapshotStores.PruneFile` | pkg/replica/replica.go:539-589 | in whatever order the sectors are punched, exactly those that the file above holds are gone and the other bytes stay |
| `SnapshotStores.PrunedAll` | pkg/replica/replica.go:539-589 | after the prune the file holds exactly its sectors that the file above does not hold |
| `SnapshotStores.InheritContent` | pkg/replica/replica.go:419-506 | once folded, a disk can be replaced by its only child with no change to any remaining disk, on or off the live chain |
| `SnapshotStores.StackShowsContent` | pkg/replica/replica.go:1182-1204 | the view of a live chain opened at any of its disks is that disk's content |
| `SnapshotStores.PathUnique` | pkg/replica/replica.go:706-722 | there is one path from a root to a disk |
| `SnapshotStores.PathRanks` | pkg/replica/replica.go:706-722 | the disks of a path are distinct, so following parents ends |
| `SnapshotTrees.AddChild` | pkg/replica/replica.go:1137-1144 | one parent gains the child, all other child sets stay, and none is empty |
| `SnapshotTrees.RmChild` | pkg/replica/replica.go:1146-1160 | one parent loses the child, all other child sets stay, and none is left empty |
| `SnapshotTrees.ChainChild` | pkg/replica/replica.go:1031-1204 | every disk of the live chain but the head has its successor as a child |
| `SnapshotTrees.HeadNumbers` | pkg/replica/replica.go:816-833 | head numbers count up to ten and then start again from one |
| `SnapshotTrees.CreateWf` | pkg/replica/replica.go:1031-1135 | a snapshot keeps the tree invariant: child map inverse to parent links, live chain from root to head, one head |
| `SnapshotTrees.RemoveLeafWf` | pkg/replica/replica.go:460-506 | removing a leaf keeps the invariant |
| `SnapshotTrees.RemoveInnerWf` | pkg/replica/replica.go:460-506 | removing a disk with one child keeps the invariant, the recorded parent of the head included |
| `SnapshotTrees.ReplaceWf` | pkg/replica/replica.go:419-456 | replacing a disk by its child keeps the invariant, and the child inherits file and parent |
| `SnapshotTrees.RevertWf` | pkg/replica/replica.go:985-1029 | a revert keeps the invariant |
| `SnapshotTrees.MarkWf` | pkg/replica/replica.go:943-958 | marking a disk keeps the invariant |
| `SnapshotTrees.ChildMapOk` | pkg/replica/replica.go:1206-1232 | reading the metadata back yields the inverse of the parent links |
| `SnapshotRuns.NewRefines` | pkg/replica/replica.go:161-259 | a new replica shows its backing file or zeros and has no snapshots: where every run begins |
| `SnapshotRuns.HeadChangeContent` | pkg/replica/replica.go:1418-1445 | no other disk sees a change of the head's file |
| `SnapshotRuns.CreateHeadContent` | pkg/replica/replica.go:1031-1135 | the snapshot and the new head both show what the head showed |
| `SnapshotRuns.RevertHeadContent` | pkg/replica/replica.go:985-1029 | the head after a revert shows what the snapshot shows |
| `SnapshotRuns.FoldContent` | pkg/replica/replica.go:539-589 | each single folded sector leaves every other disk's content as it was, so every prefix of a fold does |
| `SnapshotRuns.PruneContent` | pkg/replica/replica.go:539-589 | each single punched sector leaves every other disk's content as it was |
| `SnapshotRuns.WriteRefines` | pkg/replica/replica.go:1418-1445 | a write of the head is a splice of the ideal live bytes and touches no snapshot |
| `SnapshotRuns.CreateRefines` | pkg/replica/replica.go:1031-1135 | a snapshot records the live bytes; the live bytes grow by zeros |
| `SnapshotRuns.ExpandRefines` | pkg/replica/replica.go:1392-1416 | an expansion appends zeros to the live bytes and records the old ones as a snapshot |
| `SnapshotRuns.RevertRefines` | pkg/replica/replica.go:985-1029 | a revert sets the live bytes to the snapshot's, extended by zeros |
| `SnapshotRuns.MarkRefines` | pkg/replica/replica.go:373-398 | marking drops the snapshot from the ideal store and nothing else |
| `SnapshotRuns.DropLeafRefines` | pkg/replica/replica.go:460-506 | removing a marked leaf is invisible |
| `SnapshotRuns.FoldRefines` | pkg/replica/replica.go:539-589 | folding a sector is invisible |
| `SnapshotRuns.PruneRefines` | pkg/replica/replica.go:539-589 | punching a sector out of the head's marked parent is invisible |
| `SnapshotRuns.ReplaceRefines` | pkg/replica/replica.go:419-456 | replacing a folded disk is invisible |
| `SnapshotRuns.StepRefines` | pkg/replica/replica.go:419-1445 | every step of the disk tree is its step of the ideal store |
| `SnapshotRuns.PurgeInvisible` | pkg/sync/rpc/server.go:1647-1675 | a whole purge, stopped after any step, leaves live bytes and snapshots as they were |
| `SnapshotRuns.RunRefines` | pkg/replica/replica.go:419-1445 | any run of writes, snapshots, expansions, reverts, marks and purge steps is the run of the ideal store |
| `SnapshotRuns.SnapshotsNeverChange` | pkg/replica/replica.go:419-1445 | a snapshot that no step marks as removed is still there after any run and shows the same bytes |
| `SnapshotRuns.RevertBringsBack` | pkg/replica/replica.go:985-1135 | reverting to a snapshot after any run shows exactly what the head showed when it was taken |
| `SnapshotRuns.FoldAllRun` | pkg/replica/replica.go:539-589 | folding a list of sectors is a run of purge steps |
| `SnapshotRuns.PruneAllRun` | pkg/replica/replica.go:539-589 | punching a list of sectors is a run of purge steps |
| `StackSpec.OpenView` | pkg/replica/replica.go:1182-1204 | the open volume shows the head's content |
| `StackSpec.OpenHeadWrite` | pkg/replica/replica.go:1418-1445 | a volume write that spliced the view is a write step of the tree |
| `StackSpec.ReadShowsHead` | pkg/replica/replica.go:1447-1452 | a read into files that reach its end shows the head's content |
| `StackSpec.OpenCreate` | pkg/replica/replica.go:1031-1135 | a snapshot puts exactly one empty file on the stack of the new chain |
| `StackSpec.OpenRemoveInner` | pkg/replica/replica.go:460-506 | taking a disk out drops exactly its file from the stack, if it is there |
| `StackSpec.OpenShadowed` | pkg/replica/replica.go:539-589 | rewriting a disk under its child leaves an open stack and a table that agrees with it |
| `StackSpec.ReplacedOpen` | pkg/replica/replica.go:419-456 | a replacement leaves the files of the new chain open in order, and the shifted table agrees with them |
| `StackSpec.StackShort` | pkg/controller/control.go:251-276 | while the controller admits snapshots, one more file still has a one-byte index |
| `StackSpec.FindIn` | pkg/replica/replica.go:342-352 | the first entry past the placeholder that has the name, or 0 if there is none |
| `StackSpec.ExpansionNamesDiffer` | pkg/util/disk/disk.go:45-47 | expansions to different sizes take snapshots under different names |
| `StackSpec.ChildCases` | pkg/replica/replica.go:460-506 | what the child map says about a disk is what the parent links say |
| `Replicas.Chain` | pkg/replica/replica.go:706-722 | the walk ends, fails exactly on an unknown head, and lists the reverse of the path from the root |
| `Replicas.OpenReplica` | pkg/replica/replica.go:161-259 | a directory opens to its tree and chain, and is refused exactly if the chain is longer than 250 |
| `Replicas.Replica.constructor` | pkg/replica/replica.go:161-259 | a replica opened on its files is in order, with the child map of its metadata |
| `Replicas.Replica.FindDisk` | pkg/replica/replica.go:342-352 | the index of the disk's file in the open volume, or 0 |
| `Replicas.Replica.GetSnapshotCountUsage` | pkg/replica/replica.go:1551-1569 | counts the snapshots that are not marked as removed, and a backing file |
| `Replicas.Replica.GetRemainSnapshotCounts` | pkg/replica/replica.go:1578-1580 | the limit less that count |
| `Replicas.LimitCountsSnapshots` | pkg/replica/replica.go:1031-1040 | too many disks means, for the ideal store that the replica stands for, that its snapshots and the backing file reach the limit |
| `Replicas.Replica.CreateDisk` | pkg/replica/replica.go:1031-1135 | a snapshot is refused exactly if the live snapshots, a backing file included, have reached the limit, or a disk has the name, and then nothing changed; else the tree and the open files are those of the snapshot |
| `Replicas.Replica.Snapshot` | pkg/replica/replica.go:1344-1349 | a snapshot is a snapshot step and leaves the volume open on the new chain, or is refused exactly as stated for `CreateDisk` |
| `Replicas.Replica.Expand` | pkg/replica/replica.go:1392-1416 | refuses smaller and unaligned sizes, ignores the same size, and else is an expansion step or refused exactly as a snapshot is |
| `Replicas.Replica.WriteAt` | pkg/replica/replica.go:1418-1445 | a successful write is a write step; a failed one leaves the view cut at the stop; whatever happens, only the head's file changes |
| `Replicas.Replica.ReadAt` | pkg/replica/replica.go:1447-1452 | a read changes no disk, fails exactly past the end, and shows the head's content if the files reach that far |
| `Replicas.Replica.MarkDiskAsRemoved` | pkg/replica/replica.go:373-398 | refuses the head, ignores unknown names, and else is a marking step |
| `Replicas.Replica.RemoveInnerNode` | pkg/replica/replica.go:460-506 | the child takes over the parent, chain and open files lose the disk, and the table agrees |
| `Replicas.Replica.RemoveDiskNode` | pkg/replica/replica.go:460-506 | refuses a disk with several children untouched; else the disk is gone from tree, chain and open files, in step with each other |
| `Replicas.Replica.RemoveDiffDisk` | pkg/replica/replica.go:354-371 | refuses the head and disks with several children untouched; else removes the disk and leaves the replica in order |
| `Replicas.Replica.PrepareRemoveDisk` | pkg/replica/replica.go:508-589 | the plan follows from the children: remove a leaf, fold and replace an inner disk, prune under the head, nothing with several children |
| `Replicas.Replica.RewriteFile` | pkg/replica/replica.go:539-589 | rewriting sectors that the child holds leaves the replica in order |
| `Replicas.Replica.Coalesce` | pkg/sync/rpc/server.go:1647-1675 | the fold is a run of purge steps after which the disk is folded |
| `Replicas.Replica.Prune` | pkg/sync/rpc/server.go:1647-1675 | the prune is a run of purge steps after which exactly the sectors that the head holds are gone |
| `Replicas.Replica.ReplaceDisk` | pkg/replica/replica.go:419-456 | says exactly when it is refused and what is left then; else the target has the source's file and the source is taken out of the tree, which for a folded only child is a replacement step |
| `Replicas.Replica.Relink` | pkg/replica/replica.go:419-456 | the target gets the source's file, and the source is taken out of tree, chain and open files |
| `Replicas.Replica.RefreshHandle` | pkg/replica/replica.go:419-456 | the open file of the target is the file that now has its name |
| `Replicas.Replica.Purge` | pkg/sync/rpc/server.go:1647-1675 | a purge is a run of purge steps; the disk is gone afterwards unless it has several children or the head above it, and then it is pruned |
| `Replicas.Replica.Revert` | pkg/replica/replica.go:985-1029 | yields a new replica that took the revert step, exactly if the snapshot is known, not removed and its chain is not too long |
| `Compare.ChangedWindows` | pkg/replica/replica.go:629-683 | windows are aligned blocks in strictly growing order, each with a sector whose entry lies between the two snapshots, and every such sector's block is listed |
| `Compare.ChangedIff` | pkg/replica/replica.go:629-683 | on a freshly preloaded table an entry lies between the two snapshots exactly if a layer above the one and not above the other holds the sector and no later layer does |
| `Compare.ListsBlocks` | pkg/replica/replica.go:629-683 | so the windows are exactly the aligned blocks in which such a sector starts |
| `Compare.NothingChanged` | pkg/replica/replica.go:629-683 | there are no windows exactly if the layers between hold no sector, as in a comparison of a snapshot with itself |
| `Compare.DifferenceIsChange` | pkg/replica/replica.go:629-683 | where snapshot and ancestor show different bytes, a layer between them owns the sector |
| `Compare.NonzeroIsChange` | pkg/replica/replica.go:629-683 | against nothing, every nonzero byte lies in an owned sector |
| `Compare.BlockHoldsSector` | pkg/replica/replica.go:629-683 | a block of whole sectors holds the whole changed sector |
| `Compare.CompareMissesNothing` | pkg/replica/replica.go:629-683 | every byte in which a snapshot differs from its ancestor lies in a window |
| `Compare.CompareWithNothing` | pkg/replica/replica.go:629-683 | every nonzero byte of a snapshot without a backing file lies in a window |
| `Compare.WindowsDisjoint` | pkg/replica/replica.go:629-683 | windows do not overlap |
| `Compare.WindowsFit` | pkg/replica/replica.go:629-683 | windows stay inside the volume if and only if it is whole blocks or its partial last block is unchanged |
| `Compare.WindowPastEnd` | pkg/replica/replica.go:629-683 | one changed sector and blocks of two: the only window is longer than the volume |
| `Compare.CompareSnapshot` | pkg/replica/replica.go:629-683 | says exactly when each error is raised; else the windows are exactly the aligned blocks in which a sector starts that the layers between the two snapshots hold |
| `Engines.GroupByWrittenBytes` | pkg/controller/control.go:1339-1376 | the groups are the classes of equal written bytes |
| `Engines.GetRetainedReplicas` | pkg/controller/control.go:1339-1376 | the retained replicas are a largest class, with the most bytes among equally large ones |
| `Engines.CategorizeOutOfSpace` | pkg/controller/control.go:1281-1302 | counts the read-write replicas and splits the full ones by mode |
| `Engines.SetInList` | pkg/controller/control.go:508-523 | list and backend map stay in step; a replica in ERR is left there |
| `Engines.Controller.constructor` | pkg/controller/control.go:75-105 | an engine without replicas is in order, with the rotation at its start |
| `Engines.Controller.BuildReaderWriters` | pkg/controller/replicator.go:178-209 | readers are the read-write replicas, writers also the write-only ones, each once |
| `Engines.Controller.SetReplicaMode` | pkg/controller/control.go:508-523 | exactly that replica changes mode unless it is in ERR |
| `Engines.Controller.AddReplica` | pkg/controller/control.go:405-451 | accepted exactly if the address is new, no write-only replica is there and no expansion is running; joining write-only is a step of the engine |
| `Engines.Controller.RemoveReplica` | pkg/controller/control.go:462-481 | refused exactly for the last replica of a volume that is up; else a removal step of the engine, and a no-op for an unknown address |
| `Engines.Controller.Promote` | pkg/controller/rebuild.go:39-103 | succeeds exactly if another replica is read-write and the replica is too, or is write-only with the same disk names; a replica that shows the same bytes takes the promotion step, and any failure demotes it |
| `Engines.Controller.DemoteAll` | pkg/controller/control.go:1232-1275 | exactly these replicas end in ERR, in whatever order |
| `Engines.Controller.HandleDiskNoSpace` | pkg/controller/control.go:1232-1275 | if every read-write disk is full the best class stays, else every full replica goes |
| `Engines.Controller.HandleError` | pkg/controller/control.go:1176-1225 | faults and full disks are handled together, and the caller gets an error exactly if all disks are full, nobody is left or the snapshot existed |
| `Engines.Controller.SortErrors` | pkg/controller/control.go:1176-1225 | the faulty replicas are in ERR and the full ones are collected with their bytes |
| `Engines.Controller.BackendRead` | pkg/controller/replicator.go:97-127 | moves the rotation on by one, asks the readers from there on, returns the bytes of the first that answers, and reports exactly those asked before it |
| `Engines.ReadsRotate` | pkg/controller/replicator.go:97-127 | over as many reads as there are readers, each read-write replica is asked first exactly once |
| `Engines.Controller.BackendWrite` | pkg/controller/multi_writer_at.go:37-73 | every writer gets the bytes; errors and counts are collected for exactly those that failed; the count is the whole buffer if one took it |
| `Engines.Controller.FanOut` | pkg/controller/replicator.go:129-153 | a write with its error handling is the fan-out of the step relation: every replica did what it answered, and who is demoted, what the caller is told and the count reported follow exactly |
| `Engines.Controller.WriteInWOMode` | pkg/controller/control.go:1068-1100 | an unaligned write made of whole sectors is still the flat write; refused, with nothing changed, exactly if the first reader asked fails; the count is exact, also with an error |
| `Engines.Controller.WritePatched` | pkg/controller/control.go:1068-1100 | reading the sectors around a write, patching them and writing them back is the engine's write of the patch |
| `Engines.Controller.ReadAround` | pkg/controller/control.go:1068-1100 | the sectors around a write come from a read-write replica, and only if the first reader asked answers; the rotation moves on |
| `Engines.Controller.WriteAt` | pkg/controller/control.go:1044-1066 | a write is a write step of the engine; an acknowledged one is in full on every read-write replica, a full disk everywhere leaves a common prefix, and each error is raised, and each count reported, exactly when stated |
| `Engines.Controller.ReadAt` | pkg/controller/control.go:1106-1122 | a read without error returns the agreed bytes even if earlier readers failed, who end in ERR by one demotion step; it fails exactly if all read-write replicas do, and moves the rotation on exactly if there is a reader to ask |
| `Engines.Controller.DemoteReaders` | pkg/controller/control.go:1106-1122 | readers that failed end in ERR, and the caller gets an error exactly if none is left |
| `Engines.AlignedRange` | pkg/controller/control.go:1068-1100 | the smallest range of whole sectors around the write, inside the volume |
| `Engines.AnswersHandled` | pkg/controller/control.go:1176-1225 | handling what the replicas answered handles what they did |
| `Engines.FanOutIsFlat` | pkg/controller/control.go:1044-1066 | a fan-out is a write of every flat disk that the read-write replicas may hold |
| `Engines.PatchedIsFlat` | pkg/controller/control.go:1068-1100 | and so is the fan-out of patched sectors, as a write of the patch |
| `EngineSpec.BestUnique` | pkg/controller/control.go:1339-1376 | there is one best class, so map iteration order does not matter |
| `EngineSpec.Survivor` | pkg/controller/control.go:1176-1275 | a read-write survivor was read-write and did not fault; it was full exactly if all were |
| `EngineSpec.HealthyStays` | pkg/controller/control.go:1176-1275 | a replica that neither faulted nor filled up keeps its mode |
| `EngineSpec.SurvivorsLargest` | pkg/controller/control.go:1339-1376 | with all disks full the survivors are exactly the largest class with the most bytes |
| `EngineSpec.SurvivorsMost` | pkg/controller/control.go:1339-1376 | counted out: the survivors wrote equally much, and no group of equal written bytes is larger, or as large with more bytes |
| `EngineSpec.SurvivorsEqual` | pkg/controller/control.go:1339-1376 | and they wrote equally many bytes |
| `EngineSpec.SomeoneStays` | pkg/controller/control.go:1232-1275 | if every failure is a full disk and a replica was read-write, one stays so |
| `EngineSpec.WriteAgrees` | pkg/controller/control.go:1044-1066 | whatever each replica did, the read-write survivors of a write hold the same bytes: all of the write, or a prefix if all disks were full |
| `EngineSpec.HandledInTurn` | pkg/controller/control.go:1176-1225 | handling faults first and full disks after them is handling all errors |
| `EngineSpec.AcknowledgedDone` | pkg/controller/control.go:1044-1066 | an acknowledged write is complete on a replica |
| `EngineSpec.FanOutFlat` | pkg/controller/control.go:1044-1066 | from what each replica did and who was demoted: if the read-write replicas agreed before, the survivors agree on the flat write that the caller was told of |
| `EngineSpec.PatchedOutcome` | pkg/controller/control.go:1068-1100 | writing back a patched window is the write of the patch, prefixes included |
| `EngineSpec.PatchedOutFlat` | pkg/controller/control.go:1068-1100 | a write of patched whole sectors is the flat write of the patch |
| `EngineSpec.WriteFlat` | pkg/controller/control.go:1044-1100 | every write of the engine, refused, sent out as it is or as whole sectors, is a write of the flat disk |
| `EngineSpec.WriteStepFlat` | pkg/controller/control.go:1044-1100 | the same for every disk that the read-write replicas may hold |
| `EngineSpec.StepFlat` | pkg/controller/control.go:405-1122 | every step of the engine (writes with arbitrary answers, demotions, joining, reloading, promotion, removal) is a step of one flat disk |
| `EngineSpec.StepHeld` | pkg/controller/control.go:405-1122 | every step leaves each replica with a volume's worth of bytes |
| `EngineSpec.FullDiskSplits` | pkg/controller/control.go:1339-1376 | the engine's write with the read-write disk full after `n` bytes and a write-only replica that took it all: both stay, and they hold the same bytes if and only if the rest of the write changed nothing |
| `EngineSpec.RunFlat` | pkg/controller/control.go:405-1122 | every run of the engine's steps from replicas that agree, with arbitrary failures per replica and write, is a run of one flat disk that the read-write replicas hold throughout |
| `EngineSpec.RunAgrees` | pkg/controller/control.go:405-1122 | at any point of any such run two read-write replicas hold the same bytes |
| `Rebuilds.PrepareRebuildReplica` | pkg/controller/rebuild.go:148-209 | the copy list holds every disk of the source once; the extra disks are those it does not have |
| `Rebuilds.VerifyRebuildReplica` | pkg/controller/rebuild.go:39-103 | passes exactly if both replicas have the same disk names |
| `Rebuilds.JoinSnapshot` | pkg/controller/control.go:405-451 | the common snapshot taken when a replica is added leaves all read-write replicas and the new one with empty heads, whatever the new one held |
| `Rebuilds.JoinedInv` | pkg/controller/control.go:405-451 | so the invariant of the rebuild holds when it begins |
| `Rebuilds.TwinExplains` | pkg/sync/rpc/server.go:522-640 | a file that makes a disk show the right bytes on one read-write replica does so on every other, although their own files may differ |
| `Rebuilds.WriteExplains` | pkg/controller/control.go:1068-1100 | a head file that explained the head before a mirrored write explains it after both took the write, and no other disk is touched |
| `Rebuilds.CreateExplainsSnapshot` | pkg/controller/control.go:405-451 | what explained the head explains the snapshot taken of it |
| `Rebuilds.CreateExplainsHead` | pkg/controller/control.go:405-451 | the new head is explained by an empty file |
| `Rebuilds.WriteTwins` | pkg/controller/control.go:1068-1100 | replicas that show the same on every disk do so after a write that both took |
| `Rebuilds.CreateTwins` | pkg/controller/control.go:405-451 | and after a snapshot under one name |
| `Rebuilds.WriteKeeps` | pkg/controller/control.go:1068-1100 | a mirrored write keeps the read-write replicas alike and the new head right against each of them |
| `Rebuilds.SnapshotKeeps` | pkg/controller/control.go:405-451 | a snapshot during the rebuild keeps the invariant on all replicas |
| `Rebuilds.MarkKeeps` | pkg/controller/rebuild.go:148-209 | marking a snapshot during the rebuild keeps the invariant: the mark is on the new replica, too, or comes with the copy |
| `Rebuilds.PrepareKeeps` | pkg/controller/rebuild.go:148-209 | making the copy list from one replica and dropping extra disks establishes the invariant of the copy phase against all |
| `Rebuilds.CopyKeeps` | pkg/sync/rpc/server.go:522-640 | copying a disk's file from any read-write replica and its metadata from any, its mark included, in any order, keeps it |
| `Rebuilds.LoseKeeps` | pkg/controller/control.go:1176-1275 | read-write replicas that are lost meanwhile leave the rebuild in order |
| `Rebuilds.StepKeeps` | pkg/sync/rpc/server.go:522-640 | every step of the rebuild keeps the invariant |
| `Rebuilds.RunKeeps` | pkg/sync/rpc/server.go:522-640 | and so does every run of well-formed steps, with the invariant asked of its first state only |
| `Rebuilds.NamesAgree` | pkg/controller/rebuild.go:39-103 | when everything is copied the final check passes against any read-write replica |
| `Rebuilds.RebuiltSound` | pkg/controller/rebuild.go:39-103 | the rebuilt replica is a sound tree with one head |
| `Rebuilds.RebuiltContent` | pkg/sync/rpc/server.go:522-640 | every snapshot of the rebuilt replica, made of files of different sources, shows what it shows on each read-write replica |
| `Rebuilds.RebuiltHead` | pkg/controller/rebuild.go:39-103 | and so does the head |
| `Rebuilds.RebuiltMarks` | pkg/controller/rebuild.go:179-193 | every disk has the metadata that it has on each read-write replica, its mark as removed included |
| `Rebuilds.RebuiltRefines` | pkg/controller/rebuild.go:39-103 | opened, the rebuilt replica stands for the same ideal store as each read-write replica |
| `Rebuilds.RebuildCorrect` | pkg/sync/sync.go:617-659 | after any run of live writes, snapshots, marks, losses of replicas and copies from any of the read-write ones that ends with nothing left to copy, the new replica is a sound tree with the names, contents and marks of every read-write replica, and refines every ideal store that one of them refines |
| `Rebuilds.StepMeans` | pkg/controller/control.go:405-1100 | on every read-write replica that is not lost, a step of the rebuild is its step of the ideal store |
| `Rebuilds.RunMeans` | pkg/controller/control.go:405-1100 | and so is every run |
| `Rebuilds.RebuildRefines` | pkg/sync/sync.go:617-659 | the rebuilt replica stands for the live bytes and snapshots that the volume had when the rebuild began, after all writes, snapshots and marks made meanwhile |
| `Rebuilds.RebuiltLive` | pkg/controller/rebuild.go:39-103 | the rebuilt volume, as a whole, is that of every read-write replica |
| `Rebuilds.WriteLive` | pkg/controller/control.go:1068-1100 | a write of whole sectors to the head splices what the replica shows |
| `Rebuilds.MirrorSurvivors` | pkg/controller/control.go:1068-1275 | after a fan-out that did not fill every disk, the read-write survivors took all of it and the replica that is being rebuilt is still there |
| `Rebuilds.MirrorsFanOut` | pkg/controller/control.go:1068-1275 | such a fan-out of the engine is, in the rebuild, the loss of the demoted replicas and a mirrored write |
| `Rebuilds.LosesDemoted` | pkg/controller/control.go:1106-1275 | replicas demoted by reads are lost to the rebuild, which goes on with the others |
| `Rebuilds.RebuildPromotes` | pkg/controller/rebuild.go:39-103 | after any such run, reloading the rebuilt replica and promoting it are steps of the engine: the equality that promotion needs is derived, not assumed |
| `Rebuilds.FullDisksSplit` | pkg/controller/control.go:1339-1376 | a replica that kept a prefix and one that took the whole write have the same head file if and only if the rest changed neither bytes nor sectors |
| `Backups.RootedDistinct` | cmd/weft-block/driver.go:940-970 | a chain that reaches a root has no repeats |
| `Backups.RootedUnique` | cmd/weft-block/driver.go:940-970 | a backup has one rooted chain |
| `Backups.Reverse` | cmd/weft-block/driver.go:940-970 | swapping in place reverses the list |
| `Backups.WalkBackupChain` | cmd/weft-block/driver.go:940-970 | ends, returns the parent-linked chain root first, and fails exactly if no rooted chain of fewer than 256 links exists |
| `Backups.PlaceGathered` | pkg/reconcile/inproc_engine.go:275-374 | placing what was gathered puts the snapshot's bytes into the ranges and leaves the rest |
| `Backups.IncrementHolds` | cmd/weft-block/driver.go:671-712 | a backup with differences records them and holds just their bytes, range after range |
| `Backups.AppliedIsView` | cmd/weft-block/driver.go:671-712 | a backup applied to its parent's bytes yields its snapshot's bytes, for full, incremental, unsupported and zero-range backups |
| `Backups.RestoreReproduces` | cmd/weft-block/driver.go:898-1015 | applying a chain from its root onto an empty volume reproduces the leaf snapshot byte for byte |
| `Backups.ReadFull` | pkg/reconcile/inproc_engine.go:426-436 | reads exactly as many bytes as asked unless the stream ends, losing none |
| `Backups.ImportBytes` | pkg/reconcile/inproc_engine.go:389-422 | succeeds exactly if the volume and the stream are long enough and no write faults; then the volume begins with the announced bytes and is unchanged after them |
| `Backups.ImportRange` | pkg/reconcile/inproc_engine.go:342-374 | succeeds exactly if the range lies in the volume, the stream is long enough and no write faults; then the range holds the next bytes of the stream and nothing else changed |
| `Backups.ImportBytesAtRanges` | pkg/reconcile/inproc_engine.go:342-374 | succeeds exactly if all ranges lie in the volume, the stream is long enough and no write faults; then it is placed into them one after the other |
| `Backups.RestoreOneBackup` | cmd/weft-block/driver.go:850-933 | finishes exactly if the body is as long as its sidecar says, has room and no write faults, and then was applied as a full image or as ranges; with room and without faults it hangs exactly if the body is longer than what is read |
| `Backups.RestoreBackup` | cmd/weft-block/driver.go:987-1015 | finishes exactly if a chain of fewer than 256 links leads to a full root, all its bodies can be applied and no write faults; then it was applied root first, and from an empty volume and faithful backups, for which it always finishes, the result is the leaf snapshot padded with zeros |
| `Increments.ComparisonCovers` | pkg/replica/replica.go:629-683 | the windows of a comparison cover all differences between the two snapshots' views |
| `Increments.IncrementRestores` | cmd/weft-block/driver.go:671-712 | an increment made from a comparison restores the snapshot from its parent whenever the windows fit |
| `Crypto.BigEndianRoundTrip` | pkg/backupcrypto/crypto.go:191-205 | a number survives being written as k bytes exactly if it fits |
| `Crypto.BigEndianByte` | pkg/backupcrypto/crypto.go:191-257 | byte i is the i-th most significant one of the number |
| `Crypto.NoncesDistinct` | pkg/backupcrypto/crypto.go:252-257 | two chunks share a nonce exactly if their numbers agree modulo 2^32 (counter-based nonces as in section 3.2 of RFC 5116) |
| `Crypto.ChunksOf` | pkg/backupcrypto/crypto.go:210-236 | chunks are full but the last, none is empty, and they join to the plaintext |
| `Crypto.ChunksSnoc` | pkg/backupcrypto/crypto.go:210-236 | a chunk after full chunks is cut off as it is, so how writes split the plaintext does not matter |
| `Crypto.EmitNext` | pkg/backupcrypto/crypto.go:238-250 | sealing the buffer extends the stream of the plaintext so far to that of the longer plaintext |
| `Crypto.HeaderFirst` | pkg/backupcrypto/crypto.go:319-348 | the first 32 bytes of a stream give format, chunk size and prefix back |
| `Crypto.HeaderChunkSize` | pkg/backupcrypto/crypto.go:191-205 | the header carries the right chunk size if and only if it is below 2^32 |
| `Crypto.HeaderFields` | pkg/backupcrypto/crypto.go:191-205 | where magic, version, algorithm, chunk size, prefix and reserved zeros lie in the header |
| `Crypto.NonceFirst` | pkg/backupcrypto/crypto.go:404-411 | the nonce in front of a chunk passes the counter check |
| `Crypto.NonceMatches` | pkg/backupcrypto/crypto.go:404-411 | the counter check admits exactly one nonce |
| `Crypto.ChunkFirst` | pkg/backupcrypto/crypto.go:352-402 | reading one chunk opens it to its plaintext and leaves the rest of the stream, the short last chunk included |
| `Crypto.Encoder.constructor` | pkg/backupcrypto/crypto.go:170-189 | a fresh encoder has written nothing; a chunk size that is not positive becomes the default |
| `Crypto.Encoder.FlushChunk` | pkg/backupcrypto/crypto.go:238-250 | the output is the stream of the plaintext including the buffer |
| `Crypto.Encoder.Write` | pkg/backupcrypto/crypto.go:210-236 | absorbs exactly the plaintext, keeps less than a chunk back, and is refused after closing |
| `Crypto.Encoder.Close` | pkg/backupcrypto/crypto.go:261-279 | the output is the stream of all the plaintext, whatever the writes were; closing twice adds nothing |
| `Crypto.Decoder.constructor` | pkg/backupcrypto/crypto.go:301-315 | a fresh decoder has nothing pending and has delivered nothing |
| `Crypto.Decoder.ReadHeader` | pkg/backupcrypto/crypto.go:319-348 | whatever the stream, a header is accepted exactly if it has the magic, version 1 and an algorithm that the decoder was not configured against; chunk size and prefix are those of its fields |
| `Crypto.Decoder.ReadChunk` | pkg/backupcrypto/crypto.go:352-402 | whatever the stream, delivers a chunk exactly if the expected nonce and a ciphertext follow that authenticates, and reports the end exactly if nothing follows; of an encoder's stream it delivers the next chunk |
| `Crypto.Decoder.Read` | pkg/backupcrypto/crypto.go:352-402 | a non-empty read delivers a non-empty prefix of the plaintext left, and the end exactly when none is left; whatever the stream, what was delivered are the opened chunks in order |
| `Crypto.OpenedAreSealed` | pkg/backupcrypto/crypto.go:352-402 | if nothing but the encoder's chunks authenticates, the opened chunks are the encoder's first ones, in order |
| `Crypto.TamperedPrefix` | pkg/backupcrypto/crypto.go:352-402 | so, whatever was done to the stream, the decoder delivers a prefix of the plaintext |
| `Crypto.CutIsStream` | pkg/backupcrypto/crypto.go:352-402 | a stream cut between two chunks is the stream of a shorter plaintext |
| `Crypto.ReadAll` | pkg/backupcrypto/crypto.go:352-402 | reads of any sizes deliver the whole plaintext and then the end |
| `Crypto.RoundTrip` | pkg/backupcrypto/crypto.go:191-402 | any split into writes yields one stream that depends only on the plaintext, and any reads of it give the plaintext back |
| `DataConn.Client.constructor` | pkg/dataconn/client.go:134-227 | a fresh client has nothing pending and no error |
| `DataConn.Client.ReplyError` | pkg/dataconn/client.go:234-245 | the request leaves the pending ones and completes with the error |
| `DataConn.Client.HandleClientError` | pkg/dataconn/client.go:134-227 | all pending requests fail, once each, nothing is in flight, and the error sticks |
| `DataConn.Client.HandleRequest` | pkg/dataconn/client.go:247-264 | the request is filed and sent under the next number |
| `DataConn.Client.OnRequest` | pkg/dataconn/client.go:134-227 | after an error a request fails at once; else it becomes pending and is sent, and the counters stay right |
| `DataConn.Client.OnResponse` | pkg/dataconn/client.go:266-281 | a response completes the request with its number and no other; an unknown number changes nothing |
| `DataConn.Client.OnTick` | pkg/dataconn/client.go:134-227 | the connection times out exactly if I/O is in flight and has been silent for too long |
| `DataConn.FailOne` | pkg/dataconn/client.go:234-245 | failing a pending request completes it once and loses nobody |
| `DataConn.AnswerOne` | pkg/dataconn/client.go:266-281 | answering a pending request completes it once, with its own number, and the in-flight count follows |
| `DataConn.FailFast` | pkg/dataconn/client.go:134-227 | failing a new request at once keeps all books |
| `DataConn.FileRequest` | pkg/dataconn/client.go:247-264 | filing a new request keeps numbers unique and the in-flight count right |
| `DataConn.PendingSubmit` | pkg/dataconn/client.go:247-264 | filing a request adds exactly it to the waiting ones |
| `DataConn.PendingRespond` | pkg/dataconn/client.go:266-281 | a response takes exactly the request with its number out of the waiting ones, and an unknown number nobody |
| `DataConn.LogRespond` | pkg/dataconn/client.go:266-281 | a response answers the request that waits under its number, with its own payload |
| `DataConn.AnsweredNext` | pkg/dataconn/client.go:266-281 | whoever stops waiting has been answered |
| `DataConn.InflightWaiting` | pkg/dataconn/client.go:134-227 | the in-flight counter is nonzero exactly if a request for I/O is waiting |
| `DataConn.TracksNext` | pkg/dataconn/client.go:134-281 | every event that does not break the connection keeps number, pending requests, log and messages sent as the events so far determine them |
| `DataConn.BrokenNow` | pkg/dataconn/client.go:134-227 | the first event that breaks the connection fails all that waits, and takes no answer away |
| `DataConn.Loop` | pkg/dataconn/client.go:134-281 | over every order of requests, responses, errors and ticks with fewer than 2^32 requests: what is sent are the requests in order, numbered from 1; every answer in the log is the payload of the first response to the number of its request, and every such response is answered; pending are exactly the requests still waiting; the connection fails exactly at the first transport error or overlong silence with I/O waiting, and every later request fails |
| `DataConn.OneCompletion` | pkg/dataconn/client.go:134-281 | a request completes at most once, is not pending then, and is answered only by the number under which it was sent |
| `Placement.SortHosts` | control/placement.go:23-73 | the pool is sorted by DC and id and is a permutation of the candidates |
| `Placement.LessLexical` | control/placement.go:23-73 | the first difference decides, and a string comes before its extensions |
| `Placement.SortedUnique` | control/placement.go:23-73 | there is one sorted order, so any sort will do |
| `Placement.PlaceReplicas` | control/placement.go:23-73 | fails exactly without enough picks; with different hosts it picks the wanted number of different candidates in as many DCs as possible |
| `Placement.FirstSpreads` | control/placement.go:23-73 | the first pass picks at most one host per DC, and one of every DC unless it has enough |
| `Placement.SecondFills` | control/placement.go:23-73 | the second pass adds different hosts until there are enough or none is left |
| `Placement.FirstPicksLowest` | control/placement.go:23-73 | the first pass takes the lowest host of each of the lowest DCs |
| `Placement.SecondPicksLowest` | control/placement.go:23-73 | the second pass takes the lowest hosts that are left |
| `Placement.PicksHosts` | control/placement.go:23-73 | with enough different hosts placement picks exactly the wanted number of different ones |
| `Placement.PicksDcs` | control/placement.go:23-73 | the picks cover min(count, number of DCs) DCs |
| `Placement.PlacementPermutes` | control/placement.go:23-73 | the order of the candidates does not matter |
| `Placement.PicksDistinctIff` | control/placement.go:23-73 | the picks are different hosts if and only if the first hosts of the first `count` DCs are |
| `Placement.SharedIdPickedTwice` | control/placement.go:23-73 | a host listed in two DCs is picked twice |
| `Rereplicate.LeastHost` | control/rereplicate.go:103-270 | the lexically lowest host |
| `Rereplicate.OneOwner` | control/rereplicate.go:103-270 | with one shared view exactly one live host owns a volume: the lowest that serves it, or the lowest of all |
| `Rereplicate.NewUuidInjective` | control/rereplicate.go:278-280 | replacement ids tell apart hosts, and volumes with equally long ids |
| `Rereplicate.Partition` | control/rereplicate.go:103-270 | splits a volume's replicas into the serving ones on live hosts and the orphans |
| `Rereplicate.Candidates` | control/rereplicate.go:103-270 | the live hosts that the volume does not use |
| `Rereplicate.Choose` | control/rereplicate.go:103-270 | replacements go where placement puts them, all or none |
| `Rereplicate.SweepDetermined` | control/rereplicate.go:272-280 | two agents that both act on a volume write the same, in whatever order they list the candidates |
| `Rereplicate.SweepSpreads` | control/rereplicate.go:103-270 | the replacements reach as many DCs as the eligible hosts allow |
| `Rereplicate.AliveAfter` | control/rereplicate.go:103-270 | after the sweep exactly the replacements have joined the live replicas |
| `Rereplicate.SweepHeals` | control/rereplicate.go:103-270 | the sweep brings the live replicas to max(alive, min(wanted, alive + free hosts)) |
| `Rereplicate.NoHostReused` | control/rereplicate.go:103-270 | replacements go to different hosts that the volume never used, and nothing of another volume changes |
| `Rereplicate.SweepSettles` | control/rereplicate.go:103-270 | after the sweep no unmarked orphan is left, and the volume has enough replicas or no free host |
| `Rereplicate.SettledStays` | control/rereplicate.go:103-270 | sweeping a settled volume writes nothing, whatever the candidates |
| `Rereplicate.OthersUntouched` | control/rereplicate.go:77-98 | sweeping one volume leaves the replicas of the others alone |
| `Rereplicate.OthersFree` | control/rereplicate.go:77-98 | and takes none of the ids that theirs would get |
| `Rereplicate.FreeAfter` | control/rereplicate.go:77-98 | the ids that further replacements of the swept volume would get are still free |
| `Rereplicate.QuietWrites` | control/rereplicate.go:77-98 | whoever acts on a quiet volume writes nothing |
| `Rereplicate.QuietAfter` | control/rereplicate.go:77-270 | after a sweep that acted on a volume no agent has anything left to write for it |
| `Rereplicate.ControlPlane.MarkFaulted` | control/rereplicate.go:103-270 | exactly the orphans are marked as faulted, and those not marked before are counted |
| `Rereplicate.ControlPlane.Schedule` | control/rereplicate.go:103-270 | one pending replacement per picked host is added |
| `Rereplicate.ControlPlane.ProcessVolume` | control/rereplicate.go:103-270 | an agent that does not own the volume writes nothing, and nobody does for a quiet volume; the owner marks the orphans and adds what placement chose, which with different candidates is the sweep; the statistics count exactly that |
| `Rereplicate.ControlPlane.RereplicateOrphans` | control/rereplicate.go:77-98 | with different volumes and candidates and free ids, one sweep heals and settles every volume that the agent acts on, leaves the others and the quiet ones alone, leaves ids free again, and reports how many replicas it added and marked and how many volumes it left; if all are quiet it writes nothing, whatever the store |
| `Rereplicate.ControlPlane.SweepTwice` | control/rereplicate.go:77-98 | a second sweep on the same liveness, by any agent, leaves alone every volume that the first acted on, and writes nothing after a sweep that acted for all |

## Left out

- DiffDisk.WriteAt: stated for writes inside the volume, which the engine checks, and for a device that writes in order up
  to the stop.
- Replica.CreateDisk: stated while fewer than 256 files are open; beyond that the one-byte index wraps, which is not
  modelled. `StackShort` shows that the controller's limit of 250 disks suffices.
- Replica.Snapshot: the same.
- Replica.Expand: the same.
- Replica.ReplaceDisk: takes a known target and a source that is neither the target nor the head; the sync agent only asks
  for planned replacements.
- Replica.RemoveDiffDisk: takes a known disk; the source dereferences the entry of an unknown one.
- Replica.Revert: states when a revert may be refused, not the clean-up of the old head's files.
- Rebuilds.RebuildCorrect: no purge, revert or expansion meanwhile, and no write that ends with all read-write disks full
  (`FullDiskSplits` shows why); failed copies, which end the rebuild, and fast sync, which skips equal blocks, are not
  modelled.
- Engines.Controller.AddReplica: takes the bytes that the new replica shows as a parameter; the common snapshot, which
  changes no replica's bytes, is in `JoinSnapshot`.
- Engines.Controller.Promote: the revision counter that is copied before a promotion is not modelled.
- Backups.RestoreBackup: a body that cannot be downloaded is a missing one; the digest check is left out.
- Loop: stated for fewer than 2^32 requests, after which the numbers repeat; a client that is shut down completes nothing
  more.
- Rereplicate.ControlPlane.ProcessVolume: store failures, logging and cancellation are not modelled.
- Handles of open files are values that the model updates together with the files; aliasing of two handles of one file is
  not expressed otherwise.
- `UnmapAt`, forced removal of a disk with several children, and the read-only, revision-counter and snapshot-size checks.
- File system calls, errors of extent queries and of device reads, direct I/O, hard links, JSON metadata, and the roll-back
  of a half-made snapshot.
- The sparse-file library behind fold and prune is modelled as one sector at a time in any order.
- The rank of a disk is a measure of the tree that the source does not store, chosen alike on replicas with the same disks;
  the disk entry of a backing file and the child map's entry under the empty parent name are not modelled.
- Scheduling inside a fan-out and the gap between a write and its error handling: the two are one step.
- Fan-out of snapshot, expand and unmap over the engine's replicas.
- The ciphers and key derivation are abstract: opening undoes sealing, and sealing adds 16 bytes. Write errors of the
  encoder's destination and the reading of sidecars are left out.
- The snapshot server's reuse of its chunk buffer; its streams are taken as faithful.
- RPC clients and servers, NBD, etcd, NATS, backup targets, the command line, salvage, metrics, hashing and status objects.
