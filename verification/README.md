# WovenHat kernel: verified model

A Dafny model of the storage stack, the memory management and the multiprocessor protocols of the
WovenHat kernel, with proofs of what they promise.

**FAT32.** `FatVolume` holds the bytes of a mounted device and gives them the array view that the
algorithms use; `FatChain` is the theory of cluster chains and of the tortoise and hare; `FatAlloc`
and `FatFile` allocate, free, write and read chains; `FatDirectory` and `FatPlan` search
directories. A volume represents a directory tree when its chains are proper, disjoint and
leak-free, each owned by one slot, and no name occurs twice (`FatTree`, `FatSpace`). Creating,
making directories and deleting are four moves on such a tree (`FatMoves`): reserve, prepare,
publish, free. `FatCreate`, `FatOutcome`, `FatLookups`, `FatFiles`, `FatMkdir` and `FatDelete` take
each operation from its loops to what every reader sees afterwards, and every failure back to where
it started. `FatResolve`, `FatNeeds` and `FatPaths` do the same for paths and for whole runs, with
the exact condition under which a path can be made; `FatRead` is the path a reader takes, and when
it leads to what was created. `FatReach` says when every directory hangs from the root. `FatRename`,
`FatRenameSteps` and `FatRenamePaths` are renaming in all its outcomes, and `FatRenameRuns` says what
readers see afterwards, exactly when a directory is cut off, and what runs with renames keep.

**Memory.** `Frames` and `CowRefs` are the frame allocator and the table of shared frames.
`CowView` says what every address space reads and who holds every frame; `Paging` has the
operations, and `PagingRuns` proves that copy-on-write refines eager copying over every run. `Heap`
is the kernel heap; `Swap`, `SwapRuns`, `SwapSteps` and `SwapLosses` the swap slots under concurrent
transfers.

**Multiprocessor protocols.** `TlbShootdown`, `Scheduler` with `SchedulerRuns`, and `BlockQueue`
with `BlockIoRuns` are transition systems in which CPUs, tasks and the device interleave freely.

**Indexes and caches.** `BlockCache` refines a flat disk, `PageCache` the range read of a file,
and `VfsPaths`, `VfsTree`, `VfsFiles` and `VfsRuns` are the path-keyed tree with open files.

Which device operations fail is a parameter. Below the block cache and the swap slots a failed write
may leave anything in its sector; on the FAT volume only data writes fail, and a failed one leaves
its sector as it was. `dafny verify dfyconfig.toml` checks the whole project.

## Model

| member | source | states |
|---|---|---|
| `FatVolume.Mount` | kernel/src/fat32.rs:129-203 | An accepted boot sector gives a geometry in which FATs and clusters lie where they must and every data sector is on the device. |
| `FatMount.EntriesInPlaceIff` | kernel/src/fat32.rs:129-203 | `mount` does not compare the FAT with the cluster count: on a mountable volume every FAT entry lies inside its own FAT copy if and only if the FAT has an entry for every cluster. |
| `FatMount.LinksReadBackIff` | kernel/src/fat32.rs:458-487 | Stored links to all clusters read back as those clusters if and only if no cluster number reaches the bad-cluster mark. |
| `FatMount.MountAcceptsShortFat` | kernel/src/fat32.rs:149-180 | A boot sector that `mount` accepts although its FAT is too short for its clusters. |
| `FatMount.MountAccepts` | kernel/src/fat32.rs:149-180 | A family of boot sectors that `mount` accepts, whatever their FAT size and sector count within the bounds it checks. |
| `FatMount.MountAcceptsMarks` | kernel/src/fat32.rs:149-180 | A boot sector that `mount` accepts although the numbers of its last clusters are the bad-cluster mark and beyond. |
| `FatVolume.LbaInjective` | kernel/src/fat32.rs:58-65 | Different sectors of different clusters have different addresses. |
| `FatVolume.SetCopiesEffect` | kernel/src/fat32.rs:1030-1064 | Writing one entry changes that 28-bit word in every copy and nothing else, keeping the reserved nibble. |
| `FatVolume.FatWriteIsUpdate` | kernel/src/fat32.rs:1030-1064 | The codec law: the byte-level write is an array update of the FAT view; nibbles and mirroring stay. |
| `FatVolume.FatWriteKeepsRest` | kernel/src/fat32.rs:1030-1064 | A FAT write changes neither data clusters nor FSInfo. |
| `FatVolume.DataWriteIsUpdate` | kernel/src/fat32.rs:58-65 | A data sector write changes that sector of that cluster and neither FAT nor FSInfo. |
| `FatVolume.ReservedWriteKeepsViews` | kernel/src/fat32.rs:923-940 | A write to the reserved area changes neither FAT nor data. |
| `FatVolume.Volume.constructor` | kernel/src/fat32.rs:129-203 | Every mountable device whose FAT covers its clusters has the array views the algorithms use. |
| `FatVolume.Volume.NextCluster` | kernel/src/fat32.rs:458-487 | Reads the link of a cluster, with the end, bad and range cases. |
| `FatVolume.Volume.ReadFatEntry` | kernel/src/fat32.rs:1008-1028 | Reads the entry of an allocatable cluster, else `CorruptChain`. |
| `FatVolume.Volume.WriteFatEntry` | kernel/src/fat32.rs:1030-1064 | Updates exactly one entry of the FAT array, mirrored, with data and FSInfo untouched. |
| `FatVolume.Volume.ReadSector` | kernel/src/fat32.rs:58-65 | Reads the bytes of one sector of a cluster. |
| `FatVolume.Volume.WriteSector` | kernel/src/fat32.rs:58-65 | Replaces one sector of a cluster, or, when the device refuses, nothing. |
| `FatVolume.Volume.ReadFsInfo` | kernel/src/fat32.rs:903-921 | The sanitised FSInfo hints. |
| `FatVolume.Volume.WriteFsInfoSector` | kernel/src/fat32.rs:923-940 | Replaces the hints of that sector, if it has the signatures, and changes no other sector. |
| `FatVolume.Volume.WriteFsInfo` | kernel/src/fat32.rs:942-950 | Replaces the hints in the primary and in the backup FSInfo sector, each if it has the signatures, and changes no other sector. |
| `FatVolume.WriteCopies` | kernel/src/fat32.rs:1042-1062 | The mirroring loop equals its specification, copy by copy. |
| `FatChain.ChainWalk` | kernel/src/fat32.rs:787-808 | A chain is exactly the trace of its walk and the walk ends right behind it. |
| `FatChain.ChainUnique` | kernel/src/fat32.rs:787-808 | A start has at most one chain. |
| `FatChain.ChainNoDuplicates` | kernel/src/fat32.rs:787-808 | A chain repeats no cluster and is no longer than the volume. |
| `FatChain.Trichotomy` | kernel/src/fat32.rs:787-808 | From every start the links end, break or cycle, and exactly one of the three. |
| `FatChain.WalkRepeats` | kernel/src/fat32.rs:725-773 | A walk as long as the volume visits some cluster twice (pigeonhole). |
| `FatChain.MeetingFromRepeat` | kernel/src/fat32.rs:725-773 | From any repeat the tortoise and hare have a meeting point within the repeat. |
| `FatChain.FloydMeets` | kernel/src/fat32.rs:725-773 | If the hare survives twice the cluster count, it has met the tortoise before. |
| `FatChain.MeetingMeansCycle` | kernel/src/fat32.rs:742-773 | A meeting proves that the chain never ends. |
| `FatChain.ChainAppend` | kernel/src/fat32.rs:1190-1213 | Linking a fresh one-cluster chain behind the last cluster extends the chain. |
| `FatAlloc.ChainCycleGuard.constructor` | kernel/src/fat32.rs:733-740 | A new guard has both pointers at the start. |
| `FatAlloc.ChainCycleGuard.Advance` | kernel/src/fat32.rs:742-773 | Tracks tortoise and hare; an error names a real cycle or a real break, and the step limit never fires. |
| `FatAlloc.ValidateClusterChain` | kernel/src/fat32.rs:787-808 | Succeeds exactly on proper chains, reports `ChainLoop` exactly on cyclic ones and `CorruptChain` exactly on broken ones. |
| `FatAlloc.WithinLimit` | kernel/src/fat32.rs:787-808 | The loop is detected before the length limit could fire. |
| `FatAlloc.CountFreeCleared` | kernel/src/fat32.rs:810-836 | Freeing a chain returns exactly its clusters to the free count. |
| `FatAlloc.AllocKeepsCount` | kernel/src/fat32.rs:972-985 | An exact FSInfo count stays exact when one cluster is taken. |
| `FatAlloc.FreeKeepsCount` | kernel/src/fat32.rs:987-1006 | An exact FSInfo count stays exact when a chain is freed. |
| `FatAlloc.UpdateFsInfoAfterAlloc` | kernel/src/fat32.rs:972-985 | The new hints, and nothing else, after an allocation. |
| `FatAlloc.UpdateFsInfoAfterFree` | kernel/src/fat32.rs:987-1006 | The new hints, and nothing else, after a free. |
| `FatAlloc.FreeClusterChain` | kernel/src/fat32.rs:810-836 | Clears exactly the entries of a proper chain; refuses every other start before writing anything. |
| `FatAlloc.ClearChain` | kernel/src/fat32.rs:819-836 | The clearing loop reads each link before it is cleared and clears the whole chain. |
| `FatAlloc.AllocateInRange` | kernel/src/fat32.rs:1083-1097 | First fit in a range, or proof that the range has no free entry. |
| `FatAlloc.AllocateCluster` | kernel/src/fat32.rs:1066-1081 | `NoSpace` exactly when no entry is free, whatever the hint; otherwise the first free cluster cyclically from the hint. |
| `FatAlloc.ClearedGrowth` | kernel/src/fat32.rs:1099-1131 | Clearing a grown chain restores the FAT to the word. |
| `FatAlloc.GrowChain` | kernel/src/fat32.rs:1099-1131 | One round of chain growth: allocate and link behind. |
| `FatAlloc.AllocateFileChain` | kernel/src/fat32.rs:1099-1131 | A fresh chain of the needed length, or, exactly when fewer clusters are free, an unchanged FAT. |
| `FatAlloc.UndoGrowth` | kernel/src/fat32.rs:1110-1114 | Rollback gives the FAT of before the growth, with an exact count. |
| `FatAlloc.CountFreeClusters` | kernel/src/fat32.rs:554-598 | The count sector by sector equals the count cluster by cluster. |
| `FatAlloc.CountSector` | kernel/src/fat32.rs:554-598 | One sector adds exactly its share of the count. |
| `FatFile.WriteCluster` | kernel/src/fat32.rs:1133-1177 | A cluster holds the next bytes, zero padded; a refused write touches no other cluster. |
| `FatFile.ZeroCluster` | kernel/src/fat32.rs:1179-1188 | A cluster holds zeros, or only that cluster was touched. |
| `FatFile.WriteFileDataChain` | kernel/src/fat32.rs:1133-1177 | The chain then starts with exactly the bytes; no cluster off the chain is touched. |
| `FatFile.FillChain` | kernel/src/fat32.rs:1141-1177 | The filling loop, cluster after cluster. |
| `FatFile.FillOne` | kernel/src/fat32.rs:1141-1177 | One round of it: fill, then follow the link unless done. |
| `FatFile.ReadFileAt` | kernel/src/fat32.rs:499-552 | On a proper chain every range read returns exactly the bytes of the file, cut at its size. |
| `FatFile.ReadChain` | kernel/src/fat32.rs:514-552 | The walking loop with its cycle guard returns the range. |
| `FatFile.ReadOne` | kernel/src/fat32.rs:517-550 | One round: copy from a cluster, then follow its link unless done. |
| `FatFile.ReadCluster` | kernel/src/fat32.rs:525-539 | Copies from the sectors of one cluster the bytes that belong to the range. |
| `FatDirectory.EncodeShortName` | kernel/src/fat32.rs:382-404 | An encoded name never starts like a free, deleted or dot slot. |
| `FatDirectory.EncodeEntry` | kernel/src/fat32.rs:1659-1679 | Decoding an encoded slot gives the entry back. |
| `FatDirectory.ScanMeaning` | kernel/src/fat32.rs:420-457 | What a scan result says about every slot it passed. |
| `FatDirectory.ScanIsFound` | kernel/src/fat32.rs:420-457 | The converse: the first live slot of the name is what the scan finds. |
| `FatDirectory.LookupOnChain` | kernel/src/fat32.rs:215-253 | On a proper chain a lookup sees the first 128 clusters as one flat list of slots, and refuses a longer directory they do not decide. |
| `FatDirectory.ScanSector` | kernel/src/fat32.rs:420-457 | The slot loop over one sector, with the first deleted slot remembered. |
| `FatDirectory.ScanCluster` | kernel/src/fat32.rs:420-457 | The sector loop over one cluster equals the flat scan. |
| `FatDirectory.FindInDirectory` | kernel/src/fat32.rs:215-253 | The lookup loop equals its specification on any FAT, cycles and broken links included. |
| `FatDirectory.PlanSlot` | kernel/src/fat32.rs:1372-1452 | The slot search loop equals its specification on any FAT. |
| `FatTree.ExtendKeepsTree` | kernel/src/fat32.rs:1190-1213 | A directory that grows by a zeroed cluster leaves a tree. |
| `FatTree.AddKeepsTree` | kernel/src/fat32.rs:1099-1131 | A new chain that no slot owns yet leaves a tree with one orphan. |
| `FatTree.PutKeepsTree` | kernel/src/fat32.rs:1659-1679 | Publishing a slot hands the orphan over and orphans what the slot owned. |
| `FatTree.PutKeepsUnique` | kernel/src/fat32.rs:1659-1679 | No chain gets two owners. |
| `FatTree.FreeKeepsTree` | kernel/src/fat32.rs:810-836 | Freeing an orphan leaves a tree. |
| `FatSpace.ExtendSpace` | kernel/src/fat32.rs:1190-1213 | Chains stay proper, disjoint and leak-free when a directory chain grows. |
| `FatSpace.AddSpace` | kernel/src/fat32.rs:1099-1131 | The same when a chain is allocated. |
| `FatSpace.PutHolds` | kernel/src/fat32.rs:1659-1679 | A slot write into a cluster is that slot write into the directory content. |
| `FatSpace.FreeSpace` | kernel/src/fat32.rs:810-836 | The same when a chain is freed. |
| `FatPlan.PlanMeaning` | kernel/src/fat32.rs:1372-1452 | On a proper chain the planned slot is the name, or a vacant slot with the name absent from everything before it, or a full directory. |
| `FatPlan.NewNameFound` | kernel/src/fat32.rs:1372-1452 | A slot written where the plan says is the first of its name. |
| `FatPlan.OtherNamesKept` | kernel/src/fat32.rs:1372-1452 | It changes the answer for no other name. |
| `FatPlan.SearchAgreesWithLookup` | kernel/src/fat32.rs:1372-1452 | On every volume, corrupt or not, the slot search finds a name exactly when the lookup does, and fails with the same error. |
| `FatPlan.LookupFrame` | kernel/src/fat32.rs:215-253 | Lookups in an unchanged directory do not change. |
| `FatReserve.RestoredKeepsTree` | kernel/src/fat32.rs:1224-1232 | After a rollback the volume represents the same tree on the same chains. |
| `FatReserve.RestoredKeepsLookups` | kernel/src/fat32.rs:1224-1232 | After a rollback every lookup answers as before. |
| `FatReserve.WriteSlot` | kernel/src/fat32.rs:1659-1679 | Replaces one directory slot, or nothing. |
| `FatReserve.AllocateZeroed` | kernel/src/fat32.rs:1190-1213 | A zeroed fresh cluster, or the FAT as before. |
| `FatReserve.ExtendDirectoryChain` | kernel/src/fat32.rs:1190-1213 | A zeroed cluster linked behind the directory, or everything as before; `NoSpace` exactly when nothing is free. |
| `FatReserve.FindDirectorySlot` | kernel/src/fat32.rs:1372-1452 | The planned slot, growing a full directory; a failure restores the volume and has its exact reason. |
| `FatReserve.UndoneRestores` | kernel/src/fat32.rs:1215-1222 | Undoing an extension restores every link and every used cluster. |
| `FatReserve.RollbackReservedSlot` | kernel/src/fat32.rs:1224-1232 | A reservation is undone whatever happened since to clusters that were free. |
| `FatReserve.UnlinkReserved` | kernel/src/fat32.rs:1215-1222 | The FAT is as before the reservation, whatever was written to the reserved slot. |
| `FatMoves.ReserveMove` | kernel/src/fat32.rs:1372-1452 | Reserving a slot keeps the volume well formed and the slot is where the directory says. |
| `FatMoves.PrepareMove` | kernel/src/fat32.rs:1099-1177 | Allocating and filling a chain keeps the volume well formed and every other content. |
| `FatMoves.PublishMove` | kernel/src/fat32.rs:1659-1679 | Publishing keeps the volume well formed. |
| `FatMoves.FreeMove` | kernel/src/fat32.rs:810-836 | Freeing the replaced chain keeps the volume well formed. |
| `FatCreate.PrepareFile` | kernel/src/fat32.rs:1275-1295 | The bytes on a fresh chain, or the FAT as before; `NoSpace` exactly when too few clusters are free. |
| `FatCreate.CheckReplaced` | kernel/src/fat32.rs:1263-1273 | Refuses exactly directories and files with an improper chain. |
| `FatCreate.FreeReplaced` | kernel/src/fat32.rs:1313-1318 | Frees exactly the replaced chain, and cannot fail. |
| `FatCreate.PublishSlot` | kernel/src/fat32.rs:1297-1311 | The slot is written, or the volume is restored. |
| `FatCreate.GiveBack` | kernel/src/fat32.rs:1306-1311 | Freeing the new chain and rolling back restores the volume. |
| `FatCreate.StoreFile` | kernel/src/fat32.rs:1275-1319 | Prepare, publish, free: all of it or a restored volume. |
| `FatCreate.ReserveForFile` | kernel/src/fat32.rs:1257-1273 | A slot that a file may take, or a restored volume. |
| `FatCreate.CreateStepwise` | kernel/src/fat32.rs:1250-1319 | Every step took place, or the volume is restored; it succeeds exactly when feasible, unless the device refuses a write. |
| `FatOutcome.CreateOutcome` | kernel/src/fat32.rs:1250-1319 | The steps of a create change one slot of one directory, store the bytes on a fresh chain, free exactly the replaced chain and leave every other chain to the byte. |
| `FatLookups.CreatedIsFound` | kernel/src/fat32.rs:1372-1452 | The new name resolves to the new entry when its slot lies in the first 128 clusters. |
| `FatLookups.CreatedIsHidden` | kernel/src/fat32.rs:1384-1386 | When a full directory of 128 clusters grows, the new name is not found: lookups stop at 128 clusters. |
| `FatLookups.CreateReaders` | kernel/src/fat32.rs:1250-1319 | What every lookup in every directory answers after a create, with the exact condition for the hidden case. |
| `FatFiles.CreateTheorem` | kernel/src/fat32.rs:1250-1319 | From a volume that represents a tree: the new tree, the bytes, the chains and all lookups after a create. |
| `FatFiles.RestoredRepresents` | kernel/src/fat32.rs:1224-1232 | A failed operation leaves a volume that represents the same tree. |
| `FatFiles.CreateFile` | kernel/src/fat32.rs:1250-1319 | Success stores the bytes, changes one slot, frees the replaced chain and leaves everything else; failure changes nothing a reader can observe and happens only when infeasible or when the device refuses a write. |
| `FatDelete.DirectoryIsEmpty` | kernel/src/fat32.rs:1569-1618 | On any volume, cycles and broken links included, the exact answer of the search; on proper chains of up to 128 clusters that is whether only dot entries are live. |
| `FatDelete.FindExistingSlot` | kernel/src/fat32.rs:1475-1532 | The loop finds the slot the search specification names. |
| `FatDelete.CheckDeletable` | kernel/src/fat32.rs:1796-1815 | Refuses exactly read-only entries, directories that are not found empty and improper chains, each with its error. |
| `FatDelete.EmptyFromMeans` | kernel/src/fat32.rs:1569-1618 | What the search answers on a proper chain: whether the directory owns nothing, or that it is too long to tell. |
| `FatDelete.DeleteRefusalMeans` | kernel/src/fat32.rs:1805-1815 | On a volume that represents a tree, an entry that is not read-only is refused only as a directory that owns something or is too long to be searched. |
| `FatDelete.MarkAndFree` | kernel/src/fat32.rs:1534-1543 | The slot is marked and its chain freed, or nothing changed. |
| `FatDelete.DeleteStepwise` | kernel/src/fat32.rs:1796-1823 | All steps of a delete or an unchanged volume; it fails exactly for the foretold reason, unless the device refuses a write. |
| `FatDelete.DeleteTheorem` | kernel/src/fat32.rs:1796-1823 | What a delete means for tree, chains and all lookups. |
| `FatDelete.DeleteEntry` | kernel/src/fat32.rs:1796-1823 | Only the named entry and its chain go; a directory that owns something never does; failure changes nothing and has its exact reason (name, search, read-only, not empty, chain), unless the device refuses a write. |
| `FatMkdir.DotContentEmpty` | kernel/src/fat32.rs:1681-1751 | A new directory owns nothing; its "." names its own cluster, its ".." the parent, and every other slot is free. |
| `FatMkdir.PrepareDirectory` | kernel/src/fat32.rs:1681-1751 | A fresh cluster with the two dot entries, or the FAT as before. |
| `FatMkdir.StoreDirectory` | kernel/src/fat32.rs:1681-1751 | Prepare and publish a directory, or a restored volume. |
| `FatMkdir.MadeCount` | kernel/src/fat32.rs:1681-1751 | A new directory takes exactly one cluster, and one more if its parent had to grow. |
| `FatMkdir.MakeStepwise` | kernel/src/fat32.rs:1681-1751 | The directory that is there, or all steps of making one, or a restored volume; it fails exactly for the foretold reason, unless the device refuses a write. |
| `FatMkdir.MakeNamed` | kernel/src/fat32.rs:1681-1751 | The same with what it means for the tree: the directory was there and nothing changed, or it was made, with one slot changed and every other lookup as before. |
| `FatMkdir.MakeDirectory` | kernel/src/fat32.rs:1681-1751 | Answers a directory of that name, there before or newly made, with everything else untouched; fails exactly for a name that is too long, a wrong kind of entry, a refused search or too few clusters, unless the device refuses a write. |
| `FatResolve.ResolvesToDirectory` | kernel/src/fat32.rs:1321-1370 | On a volume that represents a tree, paths lead to directories of that tree. |
| `FatResolve.ResolveStays` | kernel/src/fat32.rs:1321-1370 | A path that led somewhere leads there after a create. |
| `FatResolve.CreatedResolves` | kernel/src/fat32.rs:1384-1386 | A created entry is found, and all paths stay, while no directory is longer than lookups read. |
| `FatResolve.RestoredPaths` | kernel/src/fat32.rs:1224-1232 | A failed step leaves every path as it was. |
| `FatNeeds.FreshPlan` | kernel/src/fat32.rs:1372-1452 | In a directory just made no name is found and every name has the third slot. |
| `FatNeeds.MadeFresh` | kernel/src/fat32.rs:1681-1751 | A directory just made is one cluster of two dot slots and an end mark. |
| `FatNeeds.DueStep` | kernel/src/fat32.rs:1754-1780 | Following or making one component leaves exactly what the first volume foretold for the rest of the path. |
| `FatNeeds.DueRefusal` | kernel/src/fat32.rs:1784-1793 | Whether the file fits at the end of the walk is what the first volume foretold. |
| `FatPaths.Components` | kernel/src/fat32.rs:1331-1345 | Exactly the components that count, or `NameTooLong` for "..", none, or more than 16. |
| `FatPaths.LookDirectory` | kernel/src/fat32.rs:1354-1367 | Where one component leads, and whether the name is missing. |
| `FatPaths.MakeComponent` | kernel/src/fat32.rs:1754-1780 | A missing component is made and leads to the new directory; every path stays. |
| `FatPaths.Descend` | kernel/src/fat32.rs:1754-1780 | One component, followed or made. |
| `FatPaths.StepDown` | kernel/src/fat32.rs:1754-1780 | A component that counts, followed or made, keeps the meaning of the path so far. |
| `FatPaths.MakeStep` | kernel/src/fat32.rs:1754-1780 | One round of the walk keeps the meaning of the path so far. |
| `FatPaths.WalkLoop` | kernel/src/fat32.rs:1754-1780 | The walking loop, and where it stops. |
| `FatPaths.MakeWalk` | kernel/src/fat32.rs:1754-1780 | After the walk the components resolve to the directory it returned; it ends as the volume it started on foretells, unless the device refuses a write; every directory still hangs from the root. |
| `FatPaths.FindPath` | kernel/src/fat32.rs:1351-1370 | Without making anything the walk answers, on any volume, exactly what the path means. |
| `FatPaths.MkdirPath` | kernel/src/fat32.rs:1754-1780 | After success the components resolve, every earlier path still does, and the volume represents a tree; it fails exactly when the volume foretells it (name, wrong kind, search or too few clusters along the whole path), unless the device refuses a write. |
| `FatPaths.SplitLeaf` | kernel/src/fat32.rs:1327-1351 | The path above and its leaf, or `NameTooLong` exactly when the path cannot name an entry. |
| `FatPaths.StoreAt` | kernel/src/fat32.rs:1784-1793 | The file below a walked path. |
| `FatPaths.CreatePath` | kernel/src/fat32.rs:1784-1793 | Parents are made and stay; the file is created at once or not at all; afterwards the components resolve to exactly the new entry while no directory is longer than 128 clusters; it fails exactly when the volume foretells it, unless the device refuses a write. |
| `FatPaths.DeletePath` | kernel/src/fat32.rs:1796-1823 | Exactly the entry the path leads to goes; every failure changes nothing and, on any volume, has the reason the volume foretells, unless the device refuses a write; every directory still hangs from the root. |
| `FatPaths.Perform` | kernel/src/fat32.rs:1754-1823 | Any path operation, successful or not, keeps a represented tree, an exact FSInfo count and every directory below the root. |
| `FatPaths.Run` | kernel/src/fat32.rs:1754-1823 | So does every run: chains proper, disjoint and leak-free, one owner each, names unique, every directory below the root, count exact. |
| `FatPaths.FormattedRepresents` | kernel/src/fat32.rs:149-203 | A freshly formatted volume represents the tree of an empty root, with every directory below the root. |
| `FatPaths.ReadBack` | kernel/src/fat32.rs:499-552 | Reading any range of a created file gives that range of the bytes written. |
| `FatRead.ReadComponents` | kernel/src/fat32.rs:343-360 | The components that count, or `NotFound` for "..", none, or more than eight. |
| `FatRead.ResolvePath` | kernel/src/fat32.rs:337-380 | On any volume, the entry readers reach by a path, or the exact error. |
| `FatRead.SplitThenJoin` | kernel/src/fat32.rs:343-360 | Splitting a path at its slashes loses nothing. |
| `FatRead.LeadingSlash` | kernel/src/fat32.rs:343-360 | A leading slash does not matter. |
| `FatRead.EveryFileHasBytes` | kernel/src/fat32.rs:499-552 | On a volume that represents a tree, every file entry a path leads to stands for bytes on a proper chain. |
| `FatRead.ReadVolumePage` | kernel/src/storage.rs:1370-1382 | A range of the file that a path leads to is that range of its bytes; directories and missing paths give their exact error. |
| `FatRead.CreatedIsReadIff` | kernel/src/fat32.rs:337-380 | A path just created leads readers to the new entry if and only if it has at most eight components; otherwise they find nothing. |
| `FatRead.CreatedBytesIff` | kernel/src/fat32.rs:337-380 | So reads by path give the bytes written if and only if it has at most eight components. |
| `FatRead.MadeIsReadIff` | kernel/src/fat32.rs:337-380 | The same for a directory path just made. |
| `FatRead.CreateThenRead` | kernel/src/fat32.rs:1784-1793 | Creating a file and reading a range of it by the same path gives that range, or `NotFound` exactly beyond eight components. |
| `FatRead.NineIsFeasible` | kernel/src/fat32.rs:1784-1793 | On a freshly formatted volume a path of nine components can be created, given room. |
| `FatRead.NineIsLost` | kernel/src/fat32.rs:337-380 | There creating the file succeeds, the file is there, and reading it by the same path finds nothing. |
| `FatReach.CreatedRooted` | kernel/src/fat32.rs:1250-1319 | Creating an entry leaves every directory below the root. |
| `FatReach.DeletedRooted` | kernel/src/fat32.rs:1796-1823 | So does deleting one. |
| `FatReach.OneParent` | kernel/src/fat32.rs:1681-1751 | A directory has one parent, and the root has none. |
| `FatReach.RehungRootedIff` | kernel/src/fat32.rs:1826-1901 | Moving an entry to another directory leaves every directory below the root if and only if it is not a directory that goes to itself or below. |
| `FatRename.UpdateDotDot` | kernel/src/fat32.rs:1620-1648 | The first ".." in the first sector names the new parent, or nothing changed, with the exact reason. |
| `FatRename.MovedRepresents` | kernel/src/fat32.rs:1826-1901 | An entry under another name in a vacant slot, its old slot marked: the volume represents the tree in which exactly that entry moved. |
| `FatRename.DotRepresents` | kernel/src/fat32.rs:1620-1648 | Another parent in ".." keeps the tree and every entry. |
| `FatRename.SameInTheEnd` | kernel/src/fat32.rs:1879-1899 | The writes of a rename in the order in which they are made come to the move the tree understands. |
| `FatRename.MoveTheorem` | kernel/src/fat32.rs:1875-1900 | What the three writes of a move across directories mean: a represented tree, the entry under its new name and otherwise as it was, every other entry as it was, ".." naming the new parent. |
| `FatRename.InPlaceTheorem` | kernel/src/fat32.rs:1871-1873 | The same for another name in the same directory. |
| `FatRenameSteps.PlaceEntry` | kernel/src/fat32.rs:1875-1884 | The entry is written to a reserved slot of the new directory, or nothing a reader can observe changed; the exact reason. |
| `FatRenameSteps.MarkSlot` | kernel/src/fat32.rs:1534-1543 | One slot is marked deleted, or nothing changed. |
| `FatRenameSteps.TakeBack` | kernel/src/fat32.rs:1887-1898 | The new slot is marked, ".." put back and an extension undone; what fails on the way is recorded. |
| `FatRenameSteps.TakenBack` | kernel/src/fat32.rs:1887-1898 | Unless the device refuses to mark the new slot in a cluster the directory had before, taking back leaves every entry and every chain as it was. |
| `FatRenameSteps.StaysDoubled` | kernel/src/fat32.rs:1887-1898 | Otherwise the entry is left in both directories. |
| `FatRenameSteps.EndedKeepsFiles` | kernel/src/fat32.rs:1875-1900 | However the steps end, no chain of a file is touched. |
| `FatRenameSteps.EndingMeans` | kernel/src/fat32.rs:1875-1900 | What every ending of the steps means for the tree. |
| `FatRenameSteps.FinishMove` | kernel/src/fat32.rs:1885-1900 | The steps once the new slot is written: through, or taken back, with the exact reason. |
| `FatRenameSteps.MoveAcross` | kernel/src/fat32.rs:1875-1900 | A move to another directory in all its outcomes. |
| `FatRenameSteps.RenameInPlace` | kernel/src/fat32.rs:1871-1873 | Another name in the same slot, or nothing changed. |
| `FatRenameSteps.RenameResolved` | kernel/src/fat32.rs:1861-1900 | Once both parents are known: the rename in all its outcomes, with the exact reason of every failure that the device does not cause. |
| `FatRenamePaths.OneTrail` | kernel/src/fat32.rs:1321-1370 | There is one way from the root to a directory. |
| `FatRenamePaths.SameShorts` | kernel/src/fat32.rs:382-404 | Paths whose components are held alike lead alike. |
| `FatRenamePaths.BelowIff` | kernel/src/fat32.rs:1650-1657 | The directory of one path lies below that of another if and only if its components, as directories hold them, begin with the components of the other. |
| `FatRenamePaths.RenameRootedIff` | kernel/src/fat32.rs:1826-1901 | A rename leaves every directory below the root if and only if it does not put a directory below itself, which is a matter of the two paths. |
| `FatRenamePaths.RenamePath` | kernel/src/fat32.rs:1826-1901 | Exactly the entry the old path leads to hangs under the new path, under the new name and otherwise as it was, every other entry and every file as before; or every entry and file as before, with the exact reason; or, when the device refuses a step and its undoing, the entry in both places. With it the exact condition under which every directory still hangs from the root. |
| `FatRenameRuns.RenamedLookup` | kernel/src/fat32.rs:215-253 | After a rename the new name leads to the entry, the old one to nothing, and every other name in every directory to what it led to. |
| `FatRenameRuns.DescendsIff` | kernel/src/fat32.rs:1650-1657 | The byte check says exactly that the components of one path begin those of the other. |
| `FatRenameRuns.ByteCheckIsExact` | kernel/src/fat32.rs:1650-1657 | For paths without empty or "." components that spell alike what directories hold alike, the byte check refuses exactly the renames that put a directory below itself. |
| `FatRenameRuns.SameCaseStaysRooted` | kernel/src/fat32.rs:1826-1901 | So there every rename that succeeds leaves every directory below the root. |
| `FatRenameRuns.SpellingSlipsThrough` | kernel/src/fat32.rs:1650-1657 | Two spellings of one name: the byte check passes although the new path lies below the old one. |
| `FatRenameRuns.CaseSlipsThrough` | kernel/src/fat32.rs:1650-1657 | Such are "a" and "A/B". |
| `FatRenameRuns.CutOffBySpelling` | kernel/src/fat32.rs:1826-1901 | On a freshly formatted volume, making a directory and renaming it, by another spelling, into itself both succeed, and the directory hangs from the root no more. |
| `FatRenameRuns.Act` | kernel/src/fat32.rs:1754-1901 | Any path operation or rename keeps a represented tree, unless a rename gets stuck on a faulty device. |
| `FatRenameRuns.RunAll` | kernel/src/fat32.rs:1754-1901 | So does every run of them; every directory hangs from the root unless a rename names a path below what it renames. |
| `Frames.FrameAllocator.constructor` | kernel/src/memory.rs:71-110 | An allocator over disjoint aligned ranges with nothing handed out. |
| `Frames.FrameAllocator.Contains` | kernel/src/memory.rs:121-126 | Whether an address lies in a usable range. |
| `Frames.FrameAllocator.AllocateFrame` | kernel/src/memory.rs:149-174 | A frame nobody holds; none only when every frame of every range is in use. |
| `Frames.FrameAllocator.NextFresh` | kernel/src/memory.rs:161-173 | The cursor loop finds a frame never handed out, or proves there is none. |
| `Frames.FrameAllocator.TakeReclaimed` | kernel/src/memory.rs:154-159 | A reclaimed frame is handed out once. |
| `Frames.FrameAllocator.Carve` | kernel/src/memory.rs:161-168 | Moving a cursor hands out exactly one frame. |
| `Frames.FrameAllocator.DeallocateFrame` | kernel/src/memory.rs:128-142 | A live frame may be handed out again, unless the reclaim list is full. |
| `Frames.CarveStep` | kernel/src/memory.rs:161-168 | Moving one cursor hands out exactly one more frame and changes no range. |
| `CowRefs.CountUpdate` | kernel/src/paging.rs:58-92 | Changing the entry of one frame changes no other count. |
| `CowRefs.CowTable.constructor` | kernel/src/paging.rs:45-49 | No frame is counted. |
| `CowRefs.CowTable.FindSlot` | kernel/src/paging.rs:51-55 | The entry of a frame, or none. |
| `CowRefs.CowTable.Share` | kernel/src/paging.rs:58-77 | One more holder, two on the first share; refused exactly when the count of a listed frame is full, or the frame is not listed and the table is full. |
| `CowRefs.VacancyIff` | kernel/src/paging.rs:58-77 | The table is full exactly when it lists as many frames as it has entries. |
| `CowRefs.CowTable.Release` | kernel/src/paging.rs:80-92 | One holder fewer, and whether it was the last. |
| `CowRefs.CowTable.RefCount` | kernel/src/paging.rs:94-98 | An unlisted frame has one holder. |
| `CowRefs.CowTable.Forget` | kernel/src/paging.rs:674-676 | Only the entry of that frame goes. |
| `CowView.MapFresh` | kernel/src/paging.rs:361-417 | Mapping a fresh frame keeps the invariant: counts equal holders, writable pages are unshared, frames in use are backed. |
| `CowView.MapShared` | kernel/src/paging.rs:552-602 | Mapping a counted frame keeps it. |
| `CowView.SetFlags` | kernel/src/paging.rs:665-678 | Changing the write flag of a sole holder keeps it. |
| `CowView.Unmap` | kernel/src/paging.rs:842-875 | Unmapping keeps it, and the count says exactly when nobody holds the frame any more. |
| `CowView.CacheFresh` | kernel/src/paging.rs:1139-1148 | The file cache holding a fresh frame keeps it. |
| `CowView.Uncache` | kernel/src/paging.rs:1204-1209 | The file cache giving a frame up keeps it, with the same exact test. |
| `Paging.CachedFrame` | kernel/src/paging.rs:1139-1148 | A fresh frame that the file cache takes keeps the invariant, every view and every other cached file. |
| `Paging.StoreSpoilsNothing` | kernel/src/paging.rs:628-731 | A store through a writable page changes no cached file. |
| `CowView.ViewStore` | kernel/src/paging.rs:487-731 | A store through a writable page is seen by that page alone. |
| `CowView.ShareIsolatedIff` | kernel/src/paging.rs:584-600 | Sharing keeps writable pages unshared if and only if the write flag is cleared or was clear. |
| `CowView.UnstrippedShareLeaks` | kernel/src/paging.rs:584-600 | Otherwise a store by the source shows in the copy. |
| `Paging.PagingState.constructor` | kernel/src/paging.rs:146-155 | Nothing is mapped. |
| `Paging.PagingState.TryBreakCow` | kernel/src/paging.rs:628-731 | No address space sees a change and the page becomes writable; it fails only on unmapped or writable pages or with no frame left, and then changes nothing. |
| `Paging.PagingState.RestoreWrite` | kernel/src/paging.rs:665-678 | The sole holder gets write permission back. |
| `Paging.PagingState.BreakShared` | kernel/src/paging.rs:680-731 | One of several holders gets a private copy, or nothing changed. |
| `Paging.PagingState.MoveTo` | kernel/src/paging.rs:684-731 | Copying, remapping and releasing the old frame changes no view. |
| `Paging.PagingState.SharePage` | kernel/src/paging.rs:552-600 | One page is counted, mapped read-only and stripped, or nothing happened, for the exact reason: no room in the counts, or no page table. |
| `Paging.PagingState.UnmapPage` | kernel/src/paging.rs:842-850 | The frame goes back to the allocator exactly when nobody holds it any more and there is room. |
| `Paging.PagingState.RollbackShared` | kernel/src/paging.rs:604-623 | Exactly the pages shared so far disappear; no frame the source maps is freed. |
| `Paging.PagingState.ShareUserRange` | kernel/src/paging.rs:487-602 | On success every page reads in the destination what it reads in the source, as if copied; on failure nothing any space reads changed. It stops at the first page that cannot be shared, and only there, for a reason that follows from the tables as they were before. |
| `Paging.PagingState.ShareLoop` | kernel/src/paging.rs:510-601 | The sharing loop stops at the first page that cannot be shared, for its reason. |
| `Paging.PagingState.ShareNext` | kernel/src/paging.rs:510-601 | One round of it, with the exact refusal. |
| `Paging.ShareableAfter` | kernel/src/paging.rs:552-560 | Whether the counts can take another holder after the first pages of a range is known from the counts before them. |
| `Paging.PagingState.Store` | kernel/src/task.rs:1047-1087 | A store to a writable page changes that byte of that page alone. |
| `Paging.PagingState.UserStore` | kernel/src/task.rs:1047-1087 | A user store with fault and break changes that byte of that page alone; in a writable range it fails only when no frame is left. |
| `Paging.PagingState.UnmapUserRange` | kernel/src/paging.rs:852-875 | The first pages of the range disappear, all of them on success; it stops at a page that is not mapped or when the reclaim list is full. |
| `Paging.PagingState.MapPage` | kernel/src/paging.rs:375-398 | One page on a frame nobody holds. |
| `Paging.PagingState.UnmapFresh` | kernel/src/paging.rs:400-414 | Undoes it. |
| `Paging.PagingState.MapUserRange` | kernel/src/paging.rs:361-417 | Fresh frames for the whole range, or nothing. |
| `Paging.PagingState.RollbackMapped` | kernel/src/paging.rs:400-414 | The rollback loop restores the page table. |
| `Paging.PagingState.CopyPage` | kernel/src/paging.rs:437-474 | The copy reads what the source reads. |
| `Paging.PagingState.CloneUserRange` | kernel/src/paging.rs:420-481 | The eager copy, which is the specification of a fork; a failure leaves nothing behind, unless the reclaim list fills up while it is undone: then exactly the last pages of the destination stay. |
| `Paging.PagingState.CopyRange` | kernel/src/paging.rs:437-474 | The copying loop. |
| `Paging.PagingState.AllocateFileFrame` | kernel/src/paging.rs:1139-1148 | The file cache holds a new frame with the content, or there is no frame left. |
| `Paging.PagingState.MapFileFrame` | kernel/src/paging.rs:1232-1267 | The page reads what the file cache holds, read-only, or nothing changed. |
| `Paging.PagingState.ReleaseFileFrame` | kernel/src/paging.rs:1204-1209 | The cache gives the frame up; it goes back to the allocator exactly when no page maps it and the reclaim list has room, and pages that map it keep it. |
| `Paging.CopyingDone` | kernel/src/paging.rs:420-481 | Copying page by page gives the eager result. |
| `Paging.DropUndoesCopy` | kernel/src/paging.rs:604-623 | Dropping what was copied restores every view. |
| `Paging.ShareKeeps` | kernel/src/paging.rs:552-602 | Sharing one page keeps the invariant, and the new page reads what the source reads. |
| `Paging.BreakKeeps` | kernel/src/paging.rs:684-731 | Moving one page to a private copy keeps the invariant and every view. |
| `PagingRuns.Perform` | kernel/src/paging.rs:420-731 | Any operation, whether it succeeds or fails, does to what every space reads and to what the file cache holds what it would do with eager copies; a mapped file page reads the content of its file. |
| `PagingRuns.Run` | kernel/src/paging.rs:420-731 | Over every run, copy-on-write reads are those of eager copying, and cached files keep their content. |
| `PagingRuns.PerformClone` | kernel/src/paging.rs:420-481 | The eager clone has exactly the effect the specification gives to a fork. |
| `TlbShootdown.FreeFramesAreClean` | kernel/src/paging.rs:852-875 | In a state that satisfies the invariant, a frame that may be handed out again is in no TLB. |
| `TlbShootdown.StepKeepsInv` | kernel/src/smp.rs:321-364 | Every step of every CPU, handler and page-table change keeps the invariant. |
| `TlbShootdown.InitialInv` | kernel/src/smp.rs:321-364 | The initial states satisfy it. |
| `TlbShootdown.SafeInEveryRun` | kernel/src/smp.rs:321-364 | In every reachable state of every interleaving, no TLB holds a reusable frame. |
| `TlbShootdown.ReturnsClean` | kernel/src/smp.rs:337-364 | When `shootdown` returns, the cleared translation is in no TLB. |
| `TlbShootdown.NobodyWritesSharedFrame` | kernel/src/paging.rs:584-600 | In every reachable state, no CPU has a writable translation of a frame all of whose entries are read-only and are not being shot at. |
| `TlbShootdown.DowngradeReturnsClean` | kernel/src/paging.rs:584-600 | When the shootdown after clearing a write flag returns, no CPU has the writable translation. |
| `TlbShootdown.StaysReadOnly` | kernel/src/paging.rs:584-600 | A frame stays read-only until an entry of it is made writable. |
| `TlbShootdown.NoRefill` | kernel/src/smp.rs:321-364 | Nothing enters a TLB that is being shot at. |
| `TlbShootdown.StepKeepsLive` | kernel/src/smp.rs:321-364 | Every step keeps what progress relies on. |
| `TlbShootdown.LiveInEveryRun` | kernel/src/smp.rs:321-364 | So it holds in every state of every run. |
| `TlbShootdown.HandlerNears` | kernel/src/smp.rs:321-333 | Each step of the handler brings its CPU strictly nearer to its acknowledgement. |
| `TlbShootdown.Acknowledges` | kernel/src/smp.rs:321-333 | The handler alone, without any lock, brings its CPU to acknowledge. |
| `TlbShootdown.AllAcknowledge` | kernel/src/smp.rs:321-333 | So all CPUs acknowledge. |
| `TlbShootdown.WaiterLeaves` | kernel/src/smp.rs:337-364 | A waiting CPU gets its acknowledgements and releases the lock. |
| `TlbShootdown.LockIsReleased` | kernel/src/smp.rs:337-364 | Whoever holds the lock can always get to release it. |
| `TlbShootdown.SpinnerGetsLock` | kernel/src/smp.rs:337-364 | From every state of that kind a spinning CPU can get the lock. |
| `TlbShootdown.NoDeadlockInAnyRun` | kernel/src/smp.rs:337-364 | In every state of every run a spinning CPU can get the lock: two CPUs shooting at once cannot deadlock. |
| `Scheduler.SchedulerState.constructor` | kernel/src/task.rs:598-649 | All slots are empty. |
| `Scheduler.SchedulerState.ReapDead` | kernel/src/task.rs:640-649 | Exactly the dead tasks of the CPU, its current one aside, become empty. |
| `Scheduler.SchedulerState.BestPriority` | kernel/src/task.rs:598-626 | The highest priority with a ready task on the CPU, or none. |
| `Scheduler.SchedulerState.NextReady` | kernel/src/task.rs:598-626 | The first ready task of that priority behind the last selected one. |
| `Scheduler.SchedulerState.PrepareSwitch` | kernel/src/task.rs:598-639 | The next ready task round robin within the highest priority becomes running and current, the one that ran becomes ready; without an address space of its own the new current task is not switched to. |
| `Scheduler.NearerOrChosen` | kernel/src/task.rs:598-626 | A selection at the priority of a ready task picks it or brings it strictly nearer. |
| `Scheduler.RingCovers` | kernel/src/task.rs:598-626 | Every slot lies at exactly one round-robin offset. |
| `SchedulerRuns.OneRunning` | kernel/src/task.rs:598-638 | Each CPU has exactly one running task, its current one. |
| `SchedulerRuns.StacksApart` | kernel/src/task.rs:2144-2164 | No two CPUs execute on one stack. |
| `SchedulerRuns.EmptyIsUnused` | kernel/src/task.rs:2124-2142 | A slot that may be initialised anew is executed on by nobody. |
| `SchedulerRuns.ResumesSaved` | kernel/src/task.rs:2144-2164 | A switch resumes a context that has been saved. |
| `SchedulerRuns.NeverStuck` | kernel/src/task.rs:2216-2305 | A task that blocks, sleeps or exits finds another to hand over to. |
| `SchedulerRuns.ChosenIsSaved` | kernel/src/task.rs:598-638 | The chosen task was ready, is another one, and its context is saved. |
| `SchedulerRuns.StepKeepsInv` | kernel/src/task.rs:2144-2305 | Publishing a switch, leaving the stack, waking, spawning, reaping and bringing a CPU up keep the invariant if and only if no task without an address space is created. |
| `SchedulerRuns.UnmappedTaskMisleads` | kernel/src/task.rs:628-639 | Such a task becomes current while its CPU stays on the stack of the one before. |
| `SchedulerRuns.InitialInv` | kernel/src/task.rs:2745-2784 | The boot state satisfies it. |
| `SchedulerRuns.SafeInEveryRun` | kernel/src/task.rs:2144-2305 | In every interleaving that creates no task without an address space: one running task per CPU, stacks apart, saved contexts only, no reuse of a stack in use. |
| `SchedulerRuns.WaitStep` | kernel/src/task.rs:598-626 | Every step brings a waiting ready task nearer or does not select at its priority. |
| `SchedulerRuns.BoundedWaiting` | kernel/src/task.rs:2166-2183 | While a task stays ready, fewer than 32 selections at its priority on its CPU pass before it is chosen. |
| `BlockQueue.NextIdCounts` | kernel/src/block_io.rs:68-74 | Identifiers count up and skip zero when they wrap. |
| `BlockQueue.SameIdIff` | kernel/src/block_io.rs:68-74 | Two requests share an identifier if and only if whole rounds of identifiers lie between them. |
| `BlockQueue.Queue.constructor` | kernel/src/block_io.rs:61-66 | An empty queue. |
| `BlockQueue.Queue.Push` | kernel/src/block_io.rs:68-74 | The first vacant slot, refused only when there is none. |
| `BlockQueue.Queue.TakePending` | kernel/src/block_io.rs:76-90 | The first pending request is marked in progress. |
| `BlockQueue.Queue.Finish` | kernel/src/block_io.rs:92-101 | Completes the request it was taken from and nothing else. |
| `BlockQueue.Queue.TakeResult` | kernel/src/block_io.rs:103-121 | The first completed request with the identifier leaves the queue with its reply. |
| `BlockIoRuns.CollectsOwn` | kernel/src/block_io.rs:292-300 | The only completed request a submitter can collect is its own. |
| `BlockIoRuns.StepKeepsInv` | kernel/src/block_io.rs:267-351 | Every step of submitters, worker, direct callers and device keeps the invariant. |
| `BlockIoRuns.InitialInv` | kernel/src/block_io.rs:61-66 | The initial states satisfy it. |
| `BlockIoRuns.InvInEveryRun` | kernel/src/block_io.rs:267-351 | It holds in every state of every run. |
| `BlockIoRuns.EveryCallOnce` | kernel/src/block_io.rs:267-327 | Each call that returned ran on the device exactly once, between its invocation and its return, with the reply it returned, and the log of runs is a history of the plain disk. |
| `BlockIoRuns.RealTimeOrder` | kernel/src/block_io.rs:267-351 | What a call did precedes what any call made after its return did: the history is linearizable. |
| `BlockIoRuns.SubmitStep` | kernel/src/block_io.rs:267-290 | Pushing on the queue is exactly a submission of the transition system, or a rejection when it is full. |
| `BlockIoRuns.TakeStep` | kernel/src/block_io.rs:310-315 | Taking work is exactly the first step of the worker. |
| `BlockIoRuns.FinishStep` | kernel/src/block_io.rs:316-327 | Finishing is exactly its last step. |
| `BlockIoRuns.CollectStep` | kernel/src/block_io.rs:292-300 | Taking a result is exactly the collection of the own request, with the reply that is recorded as returned. |
| `BlockIoRuns.LogGrows` | kernel/src/block_io.rs:310-327 | The log only grows and later calls are recorded behind it. |
| `BlockCache.ViewIsUnique` | kernel/src/block_cache.rs:161-212 | Entries and device determine what callers see. |
| `BlockCache.CleanMeansWritten` | kernel/src/block_cache.rs:130-135 | With nothing dirty the device holds what callers see. |
| `BlockCache.DirtySectorIsHidden` | kernel/src/block_cache.rs:94-103 | A failed write-back may leave anything in its sector; callers see no difference. |
| `BlockCache.WrittenBack` | kernel/src/block_cache.rs:94-103 | A successful write-back keeps coherence and the view. |
| `BlockCache.Replaced` | kernel/src/block_cache.rs:105-128 | Replacing a clean entry changes the view only at the new sector. |
| `BlockCache.Overwritten` | kernel/src/block_cache.rs:189-211 | New data in an entry changes the view only at its sector. |
| `BlockCache.VictimIsLeastRecent` | kernel/src/block_cache.rs:82-92 | While at most one age has saturated, the victim is the least recently used entry. |
| `BlockCache.SaturationLosesOrder` | kernel/src/block_cache.rs:71-92 | With two saturated ages, the same entries fit a history with another least recently used one. |
| `BlockCache.VictimExact` | kernel/src/block_cache.rs:71-92 | The entries tell the least recently used one if and only if at most one age has saturated. |
| `BlockCache.ShowsLastWrite` | kernel/src/block_cache.rs:161-212 | Over every run, a sector shows the last successful write to it, whatever failed in between. |
| `BlockCache.CachedDevice.constructor` | kernel/src/block_cache.rs:51-60 | An empty cache shows the device. |
| `BlockCache.CachedDevice.DeviceRead` | kernel/src/block.rs:11-22 | A read of the device below, or its error. |
| `BlockCache.CachedDevice.DeviceWrite` | kernel/src/block.rs:11-22 | A write to the device below; a failed one may spoil that sector. |
| `BlockCache.CachedDevice.DeviceFlush` | kernel/src/block.rs:11-22 | A flush of the device below, or its error. |
| `BlockCache.CachedDevice.Age` | kernel/src/block_cache.rs:71-76 | Every valid entry one use older, the used one new. |
| `BlockCache.CachedDevice.Touch` | kernel/src/block_cache.rs:71-76 | Ages stay the time since the last use, up to saturation. |
| `BlockCache.CachedDevice.Find` | kernel/src/block_cache.rs:78-80 | The entry of a sector, or proof that it is not cached. |
| `BlockCache.CachedDevice.Victim` | kernel/src/block_cache.rs:82-92 | The first unused entry, or else the last of the greatest age. |
| `BlockCache.CachedDevice.WriteBack` | kernel/src/block_cache.rs:94-103 | Callers see no difference whether or not it succeeds. |
| `BlockCache.CachedDevice.Evict` | kernel/src/block_cache.rs:111-113 | The victim with nothing left to write back, or everything as before. |
| `BlockCache.CachedDevice.Place` | kernel/src/block_cache.rs:116-127 | One sector takes over an entry that is not needed any more. |
| `BlockCache.CachedDevice.Load` | kernel/src/block_cache.rs:105-128 | The entry that holds the sector; a miss evicts the victim; the view is unchanged. |
| `BlockCache.CachedDevice.ReadSector` | kernel/src/block_cache.rs:161-174 | What was written last, or an error with the view unchanged. |
| `BlockCache.CachedDevice.Overwrite` | kernel/src/block_cache.rs:189-210 | A hit takes the new data and becomes dirty. |
| `BlockCache.CachedDevice.Buffer` | kernel/src/block_cache.rs:189-211 | A cached write changes that sector, or nothing on failure; a hit keeps its entry, a miss takes the victim, and the entry becomes dirty and the most recently used. |
| `BlockCache.CachedDevice.WriteThrough` | kernel/src/block_cache.rs:186-188 | Without a cache a failed write shows what the device left. |
| `BlockCache.CachedDevice.WriteSector` | kernel/src/block_cache.rs:176-212 | Exactly that sector changes; with a cache a failure changes nothing, and without one exactly the spoiled sector. |
| `BlockCache.CachedDevice.Flush` | kernel/src/block_cache.rs:130-135 | Success means the device holds what callers see. |
| `BlockCache.CachedDevice.Perform` | kernel/src/block_cache.rs:150-213 | Any operation is one of the plain disk. |
| `BlockCache.CachedDevice.Run` | kernel/src/block_cache.rs:150-213 | Every run of the cache is a run of the plain disk, and nothing fails that the device does not fail. |
| `Swap.NextGenerationCounts` | kernel/src/swap.rs:112-118 | Generations count up and skip zero when they wrap. |
| `Swap.SameGenerationIff` | kernel/src/swap.rs:112-118 | Two uses of a slot share a generation if and only if whole rounds lie between them. |
| `Swap.PageIsUnique` | kernel/src/swap.rs:342-370 | Eight sectors determine the page. |
| `Swap.WriteOne` | kernel/src/swap.rs:342-355 | One sector of a page is written, or that sector may hold anything. |
| `Swap.WrittenHolds` | kernel/src/swap.rs:342-355 | What has been written is the page. |
| `Swap.WritePage` | kernel/src/swap.rs:342-355 | The sectors written before the first failure hold their part of the page and nothing else changes but the sector that failed; on success all eight do. |
| `Swap.ReadPage` | kernel/src/swap.rs:357-370 | The page the eight sectors hold. |
| `Swap.SwapState.constructor` | kernel/src/swap.rs:70-75 | All slots empty, no disk. |
| `Swap.SwapState.FreeSlot` | kernel/src/swap.rs:99-101 | The first unoccupied slot, or none. |
| `Swap.SwapState.Used` | kernel/src/swap.rs:92-97 | The number of slots that hold a page with references. |
| `Swap.SwapState.ConfigureDisk` | kernel/src/swap.rs:77-90 | Accepted exactly when no page is held and there is room for one. |
| `Swap.SwapState.ReserveDisk` | kernel/src/swap.rs:141-151 | The first free slot is pending under its next generation. |
| `Swap.SwapState.PublishReservedDisk` | kernel/src/swap.rs:153-164 | Exactly a pending reservation of that generation becomes live. |
| `Swap.SwapState.CancelReserved` | kernel/src/swap.rs:166-173 | Exactly a pending reservation of that generation is cleared. |
| `Swap.SwapState.AllocateRam` | kernel/src/swap.rs:175-178 | The first free slot holds the page. |
| `Swap.SwapState.Share` | kernel/src/swap.rs:234-243 | One more reference, refused for stale handles and full counts. |
| `Swap.SwapState.Release` | kernel/src/swap.rs:245-254 | One reference less; the last one clears the slot. |
| `SwapRuns.StepKeepsInv` | kernel/src/swap.rs:292-370 | Every step of every task, sector transfers included, keeps the invariant if and only if it leaves every page on its way to the disk its place. |
| `SwapRuns.InvInEveryRun` | kernel/src/swap.rs:292-370 | It holds in every state of every run. |
| `SwapRuns.InvThroughoutIff` | kernel/src/swap.rs:292-370 | A run keeps the invariant throughout if and only if the disk is never set up so that a page on its way loses its place. |
| `SwapRuns.PublishSucceeds` | kernel/src/swap.rs:301-306 | A finished transfer always finds its reservation pending. |
| `SwapRuns.KeptInEveryRun` | kernel/src/swap.rs:292-336 | What a use of a slot was given never changes, and a use that is over stays over. |
| `SwapRuns.MemoryKeepsPage` | kernel/src/swap.rs:312-317 | While its handle has references, a page in memory is the one given. |
| `SwapRuns.ReadsWhatWasGiven` | kernel/src/swap.rs:312-328 | In every run that leaves pages on their way their places, a page read back from disk is the one its handle was given, under any interleaving, if the handle still has references at the end. |
| `SwapRuns.LiveIff` | kernel/src/swap.rs:193-201 | A handle is live if and only if its slot holds a page and a whole number of rounds of generations has passed since it was made. |
| `SwapRuns.MovedPageIsLost` | kernel/src/swap.rs:77-90 | A page whose place moved in flight is published all the same and reads as what lies at the new place. |
| `SwapSteps.ConfigureStep` | kernel/src/swap.rs:288-290 | Setting the disk up is exactly that step of the transition system. |
| `SwapSteps.ShareStep` | kernel/src/swap.rs:330-332 | Sharing a page is exactly that step. |
| `SwapSteps.ReleaseStep` | kernel/src/swap.rs:334-336 | Releasing one is exactly that step. |
| `SwapSteps.TransferOut` | kernel/src/swap.rs:295-300 | Writing a page out is a series of steps of the transition system, one for each sector. |
| `SwapSteps.AllocateInMemory` | kernel/src/swap.rs:175-178 | Memory takes the page, unless every slot is taken. |
| `SwapSteps.AllocateOnDisk` | kernel/src/swap.rs:293-308 | A slot on the disk takes the page, or nothing stays reserved. |
| `SwapSteps.AllocatePage` | kernel/src/swap.rs:292-310 | A page is taken in on disk, or in memory when the disk fails, under a live handle; it is refused exactly when every slot is taken. |
| `SwapSteps.FetchPage` | kernel/src/swap.rs:312-328 | A page is read back as it was given, from memory or from the disk; a handle that is not live reads nothing. |
| `SwapSteps.TransferUnderWay` | kernel/src/swap.rs:292-300 | From boot, a run to a page on its way to the disk. |
| `SwapSteps.PageIsLostInARun` | kernel/src/swap.rs:77-90 | From boot, a run that sets the disk up again meanwhile: the page is published, its handle is live, and its place holds something else. |
| `SwapLosses.PageStored` | kernel/src/swap.rs:292-310 | A page is reserved, written and published in a run. |
| `SwapLosses.ReadEndsWithAnother` | kernel/src/swap.rs:312-328 | From boot, a run in which the last reference of a page goes while it is read and its slot is given to another page: the read ends with the bytes of the other. |
| `SwapLosses.UsedAgain` | kernel/src/swap.rs:112-118 | From a free slot, a run of any number of further uses of it. |
| `SwapLosses.StaleHandleRevives` | kernel/src/swap.rs:193-196 | From boot, a run in which a handle whose page was fully released is live again after 65535 further uses, for another page. |
| `PageCache.NextPart` | kernel/src/page_cache.rs:81-138 | The next part continues the range; an empty part or a short page means the end of the file. |
| `PageCache.PartOfContent` | kernel/src/page_cache.rs:126-137 | What a page contributes to a range. |
| `PageCache.Cache.constructor` | kernel/src/page_cache.rs:44-51 | No page is cached. |
| `PageCache.Cache.Invalidate` | kernel/src/page_cache.rs:62-66 | Whatever the files become, no stale page is left. |
| `PageCache.Cache.Find` | kernel/src/page_cache.rs:86-93 | The slot of a page, or proof that it is not cached. |
| `PageCache.Cache.Victim` | kernel/src/page_cache.rs:96-103 | The first unused slot, or else the last of the oldest. |
| `PageCache.Cache.Touch` | kernel/src/page_cache.rs:121-125 | The touched slot is new and every other one use older. |
| `PageCache.Cache.Load` | kernel/src/storage.rs:1370-1400 | One page of the file that the path leads readers to, resolved on the volume; a path that resolves to nothing fails. |
| `PageCache.Cache.Refill` | kernel/src/page_cache.rs:94-119 | A page is loaded into a slot given up for it; a failed load leaves it unused. |
| `PageCache.Cache.Fetch` | kernel/src/page_cache.rs:86-125 | The page as the file has it, hit or miss. |
| `PageCache.Cache.CopyPart` | kernel/src/page_cache.rs:82-138 | One round of the copy loop. |
| `PageCache.Cache.ReadAt` | kernel/src/page_cache.rs:67-140 | After any history of hits, evictions and failed loads, a read at any offset returns the bytes of the file up to its end, and fails exactly when the last load failed. |
| `PageCache.Cache.ReadDiskFile` | kernel/src/storage.rs:1349-1368 | A read by a path below the mount point gives the range of the file, and fails exactly when a load does; other paths, an absent mount, an absent disk and bad requests are refused. |
| `Heap.AlignUp` | kernel/src/heap.rs:262-270 | The next multiple of the alignment, whenever it exists. |
| `Heap.TakenOff` | kernel/src/heap.rs:91-92 | A block taken off the list meets nothing that remains. |
| `Heap.LiveAdded` | kernel/src/heap.rs:129-132 | A block that meets nothing may become live. |
| `Heap.FreeAdded` | kernel/src/heap.rs:109-117 | A block that meets nothing may be listed. |
| `Heap.LiveRemoved` | kernel/src/heap.rs:177-187 | A block that is no longer live meets nothing that remains. |
| `Heap.BytesUpdate` | kernel/src/heap.rs:109-188 | Changing one table entry changes the byte count by exactly its size. |
| `Heap.HeapState.constructor` | kernel/src/heap.rs:45-56 | An empty heap. |
| `Heap.HeapState.Init` | kernel/src/heap.rs:58-71 | Only the first time, and only if mapping succeeds. |
| `Heap.HeapState.FindBest` | kernel/src/heap.rs:73-91 | The first of the smallest blocks that fit; none exactly when none fits or rounding some block up overflows. |
| `Heap.HeapState.TakeFrom` | kernel/src/heap.rs:92-106 | The block is off the list, what lies behind the allocation is back on it if there is room, and what lies before it is lost. |
| `Heap.CutBytes` | kernel/src/heap.rs:92-106 | Taking an allocation from a listed block never lists more bytes than were left. |
| `Heap.HeapState.InsertFreeBlock` | kernel/src/heap.rs:109-117 | The block is listed, or dropped when 128 have been. |
| `Heap.HeapState.FindFree` | kernel/src/heap.rs:73-107 | Takes exactly the best fit, and nothing when there is none; what is left goes back. |
| `Heap.HeapState.FreeSlot` | kernel/src/heap.rs:125-128 | The first unused entry of the live table; none exactly when the table is full. |
| `Heap.HeapState.Record` | kernel/src/heap.rs:129-134 | A spare block becomes live, with the accounts kept. |
| `Heap.HeapState.Bump` | kernel/src/heap.rs:157-161 | Moving the bump pointer leaves all blocks as they are. |
| `Heap.HeapState.Alloc` | kernel/src/heap.rs:119-165 | Aligned, inside the heap, disjoint from every live and free block; null exactly when not initialised, the table is full, or neither a listed block nor the room above serves; the best fit is taken first, and is lost when the table is full. |
| `Heap.HeapState.AllocAbove` | kernel/src/heap.rs:147-164 | The room above the bump pointer, used only when the table has an entry left. |
| `Heap.HeapState.Enter` | kernel/src/heap.rs:125-134 | A spare block becomes live, unless the table is full. |
| `Heap.HeapState.Dealloc` | kernel/src/heap.rs:167-188 | Only the allocation at the pointer ends; its block is listed, or lost once 128 have been. |
| `Heap.HeapState.Perform` | kernel/src/heap.rs:119-188 | Any request keeps the heap valid; once 128 blocks have been listed, nothing it frees can be handed out again. |
| `Heap.HeapState.Run` | kernel/src/heap.rs:119-188 | Over any run, once 128 blocks have been listed, no more bytes are handed out than were left then. |
| `VfsPaths.GoodPartsJoin` | kernel/src/vfs.rs:439-457 | Joined names are proper exactly when both parts are. |
| `VfsPaths.CanonicalHasParent` | kernel/src/vfs.rs:465-475 | Every canonical path but the root has a shorter parent. |
| `VfsPaths.ParentIsCanonical` | kernel/src/vfs.rs:465-475 | Parents of canonical paths are canonical. |
| `VfsPaths.ParentIff` | kernel/src/vfs.rs:478-504 | A path is an immediate child of exactly its parent. |
| `VfsPaths.UnderParent` | kernel/src/vfs.rs:460-463 | What lies under a directory has its parent there or is its child. |
| `VfsPaths.MovedIsCanonical` | kernel/src/vfs.rs:330-344 | A moved path that fits is canonical. |
| `VfsPaths.MovedParent` | kernel/src/vfs.rs:330-344 | Moving goes along with taking parents. |
| `VfsPaths.MovedDiffer` | kernel/src/vfs.rs:330-344 | Different paths stay different when both move. |
| `VfsTree.NodeAdded` | kernel/src/vfs.rs:153-215 | A node with a new name in an existing directory leaves a tree. |
| `VfsTree.NameRemoved` | kernel/src/vfs.rs:224-263 | Removing the name of a file or childless directory leaves a tree. |
| `VfsTree.NodeRewritten` | kernel/src/vfs.rs:367-387 | New contents under the same name leave a tree. |
| `VfsTree.AncestorIsDir` | kernel/src/vfs.rs:265-292 | Every directory on the way to a named node exists. |
| `VfsTree.NewNameIsFree` | kernel/src/vfs.rs:279-284 | Once accepted, nothing lies at the new name or under it: no collision. |
| `VfsTree.RenameKeepsTree` | kernel/src/vfs.rs:319-365 | An accepted rename moves the whole subtree in place and leaves a tree: canonical unique paths, parents that are directories, backings equal to paths. |
| `VfsTree.RenameBack` | kernel/src/vfs.rs:319-365 | The old names are free afterwards, and renaming back is accepted and restores every node. |
| `VfsFiles.Vfs.constructor` | kernel/src/vfs.rs:126-151 | A tree of the root alone. |
| `VfsFiles.Vfs.FindNode` | kernel/src/vfs.rs:229-233 | The node of a path, or proof that there is none. |
| `VfsFiles.Vfs.HasDirectory` | kernel/src/vfs.rs:162-171 | Whether a directory of that path exists. |
| `VfsFiles.Vfs.Place` | kernel/src/vfs.rs:153-176 | A free node exactly when the path may be created, else the exact refusal. |
| `VfsFiles.Vfs.Insert` | kernel/src/vfs.rs:153-186 | A new file, or nothing and the exact refusal. |
| `VfsFiles.Vfs.CreateDiskFile` | kernel/src/vfs.rs:627-645 | A new file backed by its own path. |
| `VfsFiles.Vfs.Mkdir` | kernel/src/vfs.rs:188-215 | A new directory, or nothing and the exact refusal. |
| `VfsFiles.Vfs.HasChild` | kernel/src/vfs.rs:236-243 | Whether some node is an immediate child. |
| `VfsFiles.Vfs.RemovableIndex` | kernel/src/vfs.rs:224-245 | Exactly files and childless directories other than the root. |
| `VfsFiles.Vfs.FreeAt` | kernel/src/vfs.rs:251-263 | The node is free under a new generation. |
| `VfsFiles.Vfs.Unlink` | kernel/src/vfs.rs:697-703 | An open file loses its name and keeps its bytes; refused exactly when the disk does not deliver them. |
| `VfsFiles.Vfs.RemoveNode` | kernel/src/vfs.rs:251-263 | The node of a path that nothing has open is freed; refused exactly for the root, a directory with children or used-up generations. |
| `VfsFiles.Vfs.Remove` | kernel/src/vfs.rs:682-707 | The name goes; the node is freed unless it is open; it is refused exactly for the stated reasons, and then changes nothing. |
| `VfsFiles.Vfs.Fits` | kernel/src/vfs.rs:294-315 | Whether every resulting path fits. |
| `VfsFiles.Vfs.CheckPlaces` | kernel/src/vfs.rs:265-292 | Why the old or the new path of a rename is refused. |
| `VfsFiles.Vfs.ValidateRename` | kernel/src/vfs.rs:265-317 | Accepts exactly the renames that keep a tree, with the exact refusal otherwise. |
| `VfsFiles.Vfs.MoveAll` | kernel/src/vfs.rs:330-363 | The renaming loop, node by node, at stable indices. |
| `VfsFiles.Vfs.Rename` | kernel/src/vfs.rs:319-365 | An accepted rename moves the subtree; anything else changes nothing. |
| `VfsFiles.Vfs.Open` | kernel/src/vfs.rs:734-746 | A new description of the file at the path, with its generation. |
| `VfsFiles.Vfs.CloneOpenFile` | kernel/src/vfs.rs:570-574 | One more reference, refused for dead descriptions and full counts. |
| `VfsFiles.Vfs.CloseOpenFile` | kernel/src/vfs.rs:755-776 | One reference less; a file without a name is freed at the last close, and not before. |
| `VfsFiles.Vfs.FetchAt` | kernel/src/vfs.rs:908-943 | Bytes of the very file that was opened; a dead description, a stale generation, a start beyond the end and bytes the disk does not deliver are refused, each with its error, and nothing else is. |
| `VfsFiles.Vfs.ReadFrom` | kernel/src/vfs.rs:908-950 | The same bytes; only a read without a position moves the offset. |
| `VfsFiles.Vfs.Seek` | kernel/src/vfs.rs:965-980 | The offset, cut at the end of the file. |
| `VfsFiles.Vfs.Put` | kernel/src/vfs.rs:1001-1011 | The bytes that fit go into the file at the offset. |
| `VfsFiles.Vfs.Write` | kernel/src/vfs.rs:982-1016 | A write through a description in all its outcomes, short writes and failed reads from disk included. |
| `VfsFiles.Vfs.WriteFile` | kernel/src/vfs.rs:367-390 | The path holds exactly the bytes, in its old node or a new one; every refusal has its exact reason and changes nothing. |
| `VfsFiles.Vfs.Replace` | kernel/src/vfs.rs:367-387 | The bytes of an existing file are replaced, or refused for the exact reason. |
| `VfsFiles.Overwritten` | kernel/src/vfs.rs:1001-1004 | The bytes at the offset, the others as before, longer if need be. |
| `VfsFiles.Fetch` | kernel/src/vfs.rs:928-941 | As much as there is room for, from memory or as the disk delivers it. |
| `VfsFiles.NothingUnderFile` | kernel/src/vfs.rs:293-303 | Nothing lies under a file, so a file rename needs no length check below it. |
| `VfsFiles.FitsMeans` | kernel/src/vfs.rs:293-315 | The length check is the one the rename needs. |
| `VfsFiles.RenameKeeps` | kernel/src/vfs.rs:319-365 | Renaming keeps tree, descriptions and identities. |
| `VfsRuns.Perform` | kernel/src/vfs.rs:616-1016 | Any operation leaves another description on its own file, with bytes that only writes to that file change. |
| `VfsRuns.Run` | kernel/src/vfs.rs:616-1016 | Across any run of renames, unlinks and re-creations, a description with a reference left keeps its own file. |

## Left out

- FAT32 listing, `check_volume` and long file names are not modelled.
- FatVolume.Volume.WriteSector: a refused data write leaves its sector unchanged; FAT and FSInfo sectors are always written, so partial failure inside one mirrored FAT write is not covered.
- FatVolume.Volume.WriteFatEntry: the FAT copies are always written, see above.
- FatVolume.Volume.ReadSector: the device reads every sector of the volume, so the error of a failed read is not covered.
- FatVolume.Volume.ReadFatEntry: the same.
- FatVolume.Volume.NextCluster: the same.
- FatVolume.Volume.constructor: requires that the FAT has an entry for every cluster and that no cluster number is a mark, which `mount` does not check; FatMount states exactly when that holds and gives boot sectors for which it does not.
- FatPaths.CreatePath: the created path is claimed to resolve only while no directory is longer than 128 clusters, because lookups stop there and growth does not; FatLookups.CreatedIsHidden states what happens otherwise. It may have 16 components, while readers follow eight: FatRead.CreatedIsReadIff.
- FatPaths.MkdirPath: likewise, and it may have any number of components: FatRead.MadeIsReadIff.
- FatRenamePaths.RenamePath: when the device refuses both a step and its undoing, only the two slots of the entry are described.
- FatRenameRuns.RunAll: nothing is claimed for the rest of a run after a rename got stuck that way.
- Paging.PagingState.ShareUserRange: requires that pages of the range that still have their write flag belong to a writable range; CowView.ShareIsolatedIff shows that this is what isolation needs.
- PagingRuns.Perform: a fork whose write flag contradicts a page of its range is refused, where the code goes on and, as CowView.UnstrippedShareLeaks shows, isolation is lost.
- PagingRuns.Run: the same.
- Paging.PagingState.MapFileFrame: models read-only mappings; shared writable file mappings and the pager worker are not modelled.
- Paging.PagingState.BreakShared: mapping a page right after unmapping it is taken to succeed, and so are flag updates of a mapped page; other page-table updates may fail.
- Paging.PagingState.TryBreakCow: the same.
- Paging.PagingState.MoveTo: the same.
- Frames.FrameAllocator.constructor: takes the whole frames of usable memory; the clipping of the boot memory map to them is not modelled.
- Frames.FrameAllocator.DeallocateFrame: requires a frame in use; the code checks only its range and the reclaim list.
- Page tables are maps from pages to frame and flags; the executable flag, zeroing of frames, destruction of whole address spaces and protection changes are not modelled.
- TlbShootdown.SafeInEveryRun: atomics are sequentially consistent, page-table changes take effect at once, and a CPU's interrupts are eventually deliverable.
- SchedulerRuns.SafeInEveryRun: `kill_process`, which can mark a running task dead, timer arithmetic of sleeping tasks and process tables are not modelled; the bootstrap task of each CPU never blocks.
- BlockIoRuns.EveryCallOnce: no submitter waits while 2^64 - 1 further requests are accepted; BlockQueue.SameIdIff states when identifiers repeat.
- BlockIoRuns: the wake-up of waiting tasks and the choice between queue and direct path are left open; every choice is covered.
- BlockCache and PageCache: hit, miss, write-back and eviction statistics are not modelled.
- PageCache.Cache.ReadAt: changing a file is one step with invalidating the cache, because the storage layer serialises reads and changes; mounting the volume anew for every page is not modelled.
- SwapRuns.ReadsWhatWasGiven: claimed for runs in which setting the disk up leaves pages on their way their places, and while the handle has references. SwapRuns.InvThroughoutIff states that the invariant needs the former, SwapSteps.PageIsLostInARun gives a run that loses a page without it, and SwapLosses.ReadEndsWithAnother one that reads another page without the latter.
- Swap: other users of the disk area and the loss of the device between two transfers are not modelled.
- Heap.HeapState.Alloc: layouts have non-zero size, as the allocator interface demands; address zero is never part of the heap.
- VfsFiles.Vfs.ReadFrom: the overlay of dirty file frames is not modelled; reads of the mounted disk are a parameter.
- VfsFiles.Vfs.constructor: starts from the root alone; the boot files are further directories and files inserted into it.
- VfsFiles.Vfs.CreateDiskFile: the import loop that calls it while the disk is mounted is not modelled.
- VfsFiles: version counters, shared file mappings, `readdir`, `stat` and `prepare_remove` are not modelled.
- Shell, console, graphics, keyboard, network, system calls, program loading, partition tables, capabilities, pipes and hardware setup are not modelled.
