# SolOS kernel: a verified model

SolOS is a small 32-bit x86 kernel. This project models the parts of it that keep state other code
relies on, and proves what they keep.

**The FAT32 driver** is the core (`Bytes`, `FatLayout`, `OnDisk`, `Volume`, `Chains`, `ChainCycles`,
`ChainData`, `DirEntries`, `DirScan`, `DirTree`, `FileData`, `FileRead`, `FileList`, `Names`, `FsState`, `FsSteps`,
`FsEffects`, `FileSystem`, `FsLaws`, `FsPaths`, `FsRuns`). The disk is a mutable array of 512-byte sectors,
and the driver's address arithmetic is kept. The proofs climb by layers:

1. sectors, and the `Image` they stand for: the FAT as links, the data area as clusters, plus the reserved
   bits and all other sectors, so that "nothing else changed" can be said;
2. chains: the clusters in use are partitioned into acyclic, terminated chains (`Chains.Partition`);
3. directories: a chain of slots, read as a map from names to entries, and the tree the entries form;
4. `FsState.Consistent`, which ties image, chains and tree together. `FileSystem.Valid` says it holds, and
   write, mkdir, rmdir, remove, read, list and change-directory are proved to keep it, each with its full
   effect: the directory's map, the FAT outside the chains touched, and every other chain byte for byte;
5. laws over several calls: read after write, undoing, conservation, non-interference along whole paths,
   and runs of any commands, during which a written file stays readable.

`OnDisk` writes boot sectors, FATs, clusters and directory entries out as the C structures' fields in order,
and proves that the driver reads and writes each at its place; `ElfLoader.HeaderRead` does so for ELF headers.
On-disk structures follow the Microsoft FAT32 File System Specification v1.03, sections "FAT Data Structure"
and "FAT Directory Structure".

**Beside it**, each on its own: the heap (`Heap`), the scheduler (`Process`), the window manager (`Window`),
the page allocator (`Pmm`), the ELF loader (`Elf`), framebuffer presentation (`Video`) and the shell's
tokenizer (`Shell`).

Where the code does less than its comments say, the model follows the code and a lemma gives the exact
condition: `".."` never finds the parent (`Names.NeverDot`); reading converts names differently from writing
(`Names.ReadNameAgrees`), which is when a read after a write fails (`FsLaws.WriteThenProbe`); reading an
empty file returns sectors below the data area (`FileSystems.FileSystem.ReadFile`); a write near 4 GiB asks
for no cluster (`FsLaws.NeededCovers`); a chain past the hop limit is freed only in part
(`Chains.FreeChainWhole`); an exited process is revived by the next tick (`Processes.ExitThenTick`); a press
on one window's body can grab a window it covers (`WindowManager.CoveredTitleGrabs`); overlapping memory
regions and freeing past the top of memory break the page count (`PageMaps.CountIsExact`,
`PageMaps.PageMap.FreePage`).

`dafny verify dfyconfig.toml` checks everything.

## Model

| member | source | states |
|---|---|---|
| `FatLayout.ClusterInside` | src/kernel/fat32.c:79-81 | every in-range cluster lies wholly on the volume and above all FAT copies |
| `FatLayout.ClustersDisjoint` | src/kernel/fat32.c:79-81 | two cluster sectors have the same address exactly when cluster and offset agree |
| `FatLayout.WriteData` | src/kernel/fat32.c:45-47 | writing one data sector changes that sector of the image, keeps the FAT copies equal, and nothing else |
| `FatLayout.WriteEntry` | src/kernel/fat32.c:97-110 | patching the same entry in every FAT copy keeps the copies equal, sets the 28-bit link, keeps the reserved 4 bits of every entry, and touches no data sector |
| `OnDisk.BootParsed` | src/kernel/fat32.h:4-33 | each field the driver goes by is read from its own place in the boot sector, written out as the structure's fields in order |
| `OnDisk.VolumeImage` | src/kernel/fat32.c:79-110 | on a volume written out as boot sector, reserved sectors, equal FATs of four-byte entries and clusters in order, the driver sees exactly those links and clusters |
| `OnDisk.EntryMeaning` | src/kernel/fat32.h:35-48 | what each byte pattern of a directory entry, written out field by field, means to the driver: end, deleted, hidden, dot, or name, kind, cluster and size |
| `OnDisk.NewEntries` | src/kernel/fat32.h:35-48 | the bytes of a new file's entry and of a new directory's: name, attributes, both halves of the cluster, zeros |
| `OnDisk.ChangedEntry` | src/kernel/fat32.c:614-620 | rewriting a file replaces the cluster's two halves and the size in its entry, and no other field |
| `OnDisk.DeletedEntry` | src/kernel/fat32.c:780-788 | deleting replaces the first byte of an entry by 0xE5 and keeps the others |
| `OnDisk.DotEntries` | src/kernel/fat32.c:683-700 | the bytes of the "." and ".." entries a new directory starts with |
| `OnDisk.DirectorySlots` | src/kernel/fat32.c:360-390 | the slots of a directory are its entries, 32 bytes each, in the order they are stored |
| `Volumes.FatNextCluster` | src/kernel/fat32.c:83-91 | reads the 28-bit link of a cluster, through the sector-and-offset arithmetic |
| `Volumes.FatSetCluster` | src/kernel/fat32.c:97-110 | sets one link in every FAT copy; the image changes there alone, reserved bits and all sectors off the volume untouched |
| `Volumes.FindFreeCluster` | src/kernel/fat32.c:115-130 | the lowest free cluster; 0 exactly when none is free within both FAT and volume |
| `Volumes.ScanFatSector` | src/kernel/fat32.c:118-128 | looks through one FAT sector: the lowest free cluster in it, or the end of the volume, or none so far |
| `Volumes.ZeroCluster` | src/kernel/fat32.c:141-145 | zeroes the sectors of one cluster and no others |
| `Volumes.AllocateCluster` | src/kernel/fat32.c:135-147 | claims the lowest free cluster with an end mark and zeroed sectors; changes nothing when there is none |
| `Volumes.ClaimedImage` | src/kernel/fat32.c:135-147 | what claiming means: 0x0FFFFFFF in the entry, zero bytes in the sectors, every other entry and cluster as before |
| `Volumes.FreeChainFrom` | src/kernel/fat32.c:153-161 | the FAT afterwards is the walk-and-zero function of the FAT before, data and sectors elsewhere untouched |
| `Volumes.ExtendChain` | src/kernel/fat32.c:166-171 | links a claimed, zeroed cluster after the last one |
| `Chains.ChainHasNoCycle` | src/kernel/fat32.c:153-161 | a terminated walk never visits a cluster twice |
| `Chains.ChainFits` | src/kernel/fat32.c:12 | a chain has distinct clusters and no more of them than the volume |
| `Chains.EndMarks` | src/kernel/fat32.c:153-161 | entries from 0x0FFFFFF8 on end a chain, and only those |
| `Chains.FreeChainZeroes` | src/kernel/fat32.c:153-161 | freeing a chain zeroes exactly its first MAX_CLUSTER_CHAIN clusters and touches no other entry |
| `Chains.FreeChainWhole` | src/kernel/fat32.c:153-161 | the whole chain is freed if and only if it is no longer than the hop limit |
| `Chains.Relink` | src/kernel/fat32.c:97-171 | relinking, freeing or claiming clusters that were set aside keeps the partition of the rest |
| `Chains.PutBack` | src/kernel/fat32.c:166-171 | clusters set aside and linked into a chain rejoin the partition |
| `ChainCycles.FreesReached` | src/kernel/fat32.c:153-161 | on any in-range FAT, cyclic or not, freeing zeroes exactly the reachable clusters; the count of non-zero entries bounds the hops |
| `ChainCycles.HopLimitIdle` | src/kernel/fat32.c:153-161 | with fewer non-zero entries than the hop limit, the limit plays no part |
| `DirEntries.SlotsPut` | src/kernel/fat32.h:35-48 | rewriting 32 bytes of a sector replaces that slot of the directory and no other |
| `DirEntries.ViewMatch` | src/kernel/fat32.c:304-314 | a slot matches a name exactly when it is a visible entry carrying it |
| `DirEntries.DotViews` | src/kernel/fat32.c:683-700 | the two stamped slots read back as "." and ".." with the clusters stamped |
| `DirScan.ScanDir` | src/kernel/fat32.c:360-390 | one scan along a chain: the first hit before the first unused slot, with its sector and index, or how the scan ended |
| `DirScan.FindDirEntryLoc` | src/kernel/fat32.c:396-426 | finds the slot carrying a name, or proves that no entry of the directory carries it |
| `DirScan.DirIsEmpty` | src/kernel/fat32.c:628-655 | true exactly when the directory has no entry but "." and ".." |
| `DirScan.FindFreeDirSlot` | src/kernel/fat32.c:432-464 | the first free slot; else the first slot of a zeroed cluster linked to the chain; else nothing changes and the volume is full |
| `DirTree.ListingPut` | src/kernel/fat32.c:535-565 | rewriting one slot changes the directory's map at the old and the new name and nowhere else |
| `DirTree.CleanFill` | src/kernel/fat32.c:432-464 | filling the first free slot keeps live slots before unused ones and names unique |
| `DirTree.RewireOk` | src/kernel/fat32.c:535-789 | every permitted change of one slot keeps the tree: each chain owned by one slot, depths, dot entries, clean directories |
| `DirTree.GrowOk` | src/kernel/fat32.c:432-464 | a directory grown by unused slots keeps the tree |
| `FileData.OverwrittenBytes` | src/kernel/fat32.c:591-601 | the bytes of a cluster after the copy are the data's, as far as it goes |
| `FileData.WriteCluster` | src/kernel/fat32.c:591-601 | writes one cluster, zero-padding the last partial sector, and returns how far it got |
| `FileData.NextCluster` | src/kernel/fat32.c:582-589 | the cluster to write next: the chain's, or a fresh one linked after the previous; 0 with nothing changed when the volume is full |
| `FileData.CutAfter` | src/kernel/fat32.c:608-612 | ends the chain after the clusters used and frees exactly the old tail |
| `FileData.WriteClusters` | src/kernel/fat32.c:572-612 | the data written is on the chain, which is the old one cut or extended; every other cluster and link is as it was; short only when the volume is full |
| `FileData.NeededIsUsed` | src/kernel/fat32.c:573 | no cluster is asked for that no byte needs, in 32-bit arithmetic |
| `FsState.LengthenPartition` | src/kernel/fat32.c:166-171 | a directory's chain gains a free cluster: the partition and the bound on chains hold |
| `FsState.GrowDirectory` | src/kernel/fat32.c:432-464 | growing a directory keeps the whole invariant and every chain's bytes |
| `FsState.SlotPutEnts` | src/kernel/fat32.c:553-565 | rewriting one slot on disk replaces one entry of the directory |
| `FsSteps.ReserveSlot` | src/kernel/fat32.c:432-464 | a free slot at the cost of at most one cluster for the directory; every other chain keeps its bytes |
| `FsSteps.SettleStep` | src/kernel/fat32.c:614-620 | pointing a file's slot at its new chain, or erasing it, keeps the invariant |
| `FsSteps.FillStep` | src/kernel/fat32.c:702-722 | filling a reserved slot with a file or a seeded directory keeps the invariant |
| `FsEffects.Erase` | src/kernel/fat32.c:749-788 | freeing an entry's chain and marking its slot removes that name, frees exactly those clusters, keeps all other chains |
| `FsEffects.WriteEffect` | src/kernel/fat32.c:535-623 | creating and writing add up to the effect of the whole call |
| `FsEffects.MakeDir` | src/kernel/fat32.c:663-725 | one new name, one new chain of one cluster holding "." and "..", all else kept |
| `FsEffects.UnseedStep` | src/kernel/fat32.c:693-705 | giving the seeded cluster back leaves every 28-bit link as it was |
| `FsEffects.OneDeeper` | src/kernel/fat32.c:470-500 | a listed directory lies one level below the one that lists it |
| `Names.BuildFatName` | src/kernel/fat32.c:347-356 | the 11 bytes are the base and extension, each cut or padded with spaces |
| `Names.StoredForm` | src/kernel/fat32.c:347-356 | base and extension padded to eight and three; a longer extension is cut, and after a base of more than eight it is lost |
| `Names.NeverDot` | src/kernel/fat32.c:347-356 | no typed name is stored with a leading dot, so ".." never finds the parent entry |
| `Names.NewSlotVisible` | src/kernel/fat32.c:374 | a new slot is found under its name exactly when the name does not start with the deletion mark |
| `Names.BuildReadName` | src/kernel/fat32.c:307-310 | the reader's own conversion, which lays the extension over a long base |
| `Names.ReadNameAgrees` | src/kernel/fat32.c:307-310 | the two conversions agree if and only if the base has at most eight characters or only spaces follow the eighth |
| `Names.NineLettersDisagree` | src/kernel/fat32.c:307-310 | a name of nine letters is stored one way and looked for another |
| `Names.DecodeName` | src/kernel/fat32.c:266-276 | the listing shows base and extension without padding, and a dot only before an extension |
| `Names.ShownBack` | src/kernel/fat32.c:266-276 | storing a valid 8.3 name and listing it gives the name back |
| `Names.NameShapes` | src/kernel/fat32.c:307-310 | which names fit the reader's buffer, and which are 8.3 names, by the lengths of base and extension |
| `FileRead.ReadChain` | src/kernel/fat32.c:317-335 | copies the sectors of the walk, in order, up to the size asked for, and nothing beyond |
| `FileRead.ZeroFollowable` | src/kernel/fat32.c:79-81 | cluster 0 is a walk of one step over the sectors below the data area when those lie on the disk and its FAT entry is an end mark |
| `FileList.ListEntries` | src/kernel/fat32.c:244-285 | the visible entries in order, up to the limit, decoded |
| `FileList.CompleteListing` | src/kernel/fat32.c:244-285 | a listing short of its limit shows every entry, and nothing else but names starting with a dot |
| `FileSystems.FileSystem.constructor` | src/kernel/fat32.c:204-207 | starts in the root of a consistent volume |
| `FileSystems.FileSystem.WriteContents` | src/kernel/fat32.c:567-623 | writes an existing file: its entry, its chain, its data, the FAT outside it, every other file and directory |
| `FileSystems.FileSystem.RewriteChain` | src/kernel/fat32.c:567-612 | the chain holds the data written, or is freed when there is none; what other entries own is as it was |
| `FileSystems.FileSystem.SettleFile` | src/kernel/fat32.c:614-623 | pointing the slot at the chain written completes the effect and restores the invariant |
| `FileSystems.FileSystem.OpenForWrite` | src/kernel/fat32.c:535-565 | finds or creates the entry; refuses exactly for a directory, or with no slot and no cluster to make one |
| `FileSystems.FileSystem.WriteFile` | src/kernel/fat32.c:535-623 | the three outcomes, each if and only if; on success the whole effect, with the invariant kept, and the count as a 32-bit signed result; on refusal -1 or -2, and nothing changes |
| `FileSystems.FileSystem.SeedDirectory` | src/kernel/fat32.c:668-700 | claims a cluster and seeds it; every chain keeps its bytes |
| `FileSystems.FileSystem.AddDirectory` | src/kernel/fat32.c:708-725 | filling the reserved slot completes the effect of mkdir and restores the invariant |
| `FileSystems.FileSystem.Mkdir` | src/kernel/fat32.c:663-725 | 0, -1 or -2, each exactly when; -2 leaves every link of the FAT as before, and all chains |
| `FileSystems.FileSystem.Rmdir` | src/kernel/fat32.c:732-761 | for any name 0, -1, -2 or -3, each exactly when; the refusal -4 never occurs; only that name and its clusters go |
| `FileSystems.FileSystem.RemoveFile` | src/kernel/fat32.c:766-789 | for any name 0, -1 or -2, each exactly when; only that name and its clusters go |
| `FileSystems.FileSystem.EraseEntry` | src/kernel/fat32.c:780-789 | how both removals end: one name and its clusters gone, all else kept, the invariant restored |
| `FileSystems.FileSystem.ReadFile` | src/kernel/fat32.c:287-342 | -1 when the name is absent; else the chain's bytes up to the size asked for, whatever the size on record, and their count as a 32-bit signed result; for an empty file, the bytes of the sectors below the data area |
| `FileSystems.FileSystem.ListDir` | src/kernel/fat32.c:244-285 | lists the current directory's visible entries in order |
| `FileSystems.FileSystem.ChangeDir` | src/kernel/fat32.c:470-520 | root, stay, or enter a listed directory, always one level deeper; -1 and -2 exactly when |
| `FsLaws.NothingLeaks` | src/kernel/fat32.c:535-789 | a cluster is free, bad, or in exactly one chain |
| `FsLaws.WriteConserves` | src/kernel/fat32.c:535-623 | free clusters plus the file's and its directory's are conserved by a write |
| `FsLaws.WriteThenRead` | src/kernel/fat32.c:287-342 | any prefix of what was written is read back, for all sizes and previous lengths; both results are the counts themselves below 2^31 |
| `FsLaws.WriteThenProbe` | src/kernel/fat32.c:287-342 | after a write, reading the same name finds a file if and only if the conversions agree or the directory already had an entry under the reader's form; otherwise -1 |
| `FsLaws.ListingIsDir` | src/kernel/fat32.c:244-285 | a listing short of its limit shows the name, size and kind of exactly the entries of the directory's map, and names starting with a dot |
| `FsLaws.WriteThenList` | src/kernel/fat32.c:244-285 | a file written under a valid 8.3 name is listed under it with the size written |
| `FsLaws.ResizeExact` | src/kernel/fat32.c:572-622 | the chain has exactly ceil(written / cluster) clusters; a short write fills whole clusters and means a full volume; shrinking and growing keep a prefix |
| `FsLaws.NeededCovers` | src/kernel/fat32.c:573 | the clusters asked for hold the data if and only if rounding up stays in 32 bits; otherwise none is asked for |
| `FsLaws.AddErase` | src/kernel/fat32.c:535-789 | adding a name with a chain of its own and erasing it restores the volume |
| `FsLaws.WriteThenRemove` | src/kernel/fat32.c:766-789 | writing a new file and removing it gives back all but a cluster the directory may have gained |
| `FsLaws.MkdirThenRmdir` | src/kernel/fat32.c:732-761 | making a directory and removing it does too, and a failed mkdir leaves the same |
| `FsLaws.MkdirThenEnter` | src/kernel/fat32.c:663-725 | a new directory can be entered: it is empty, a level down, and its first slots name itself and its parent |
| `FsLaws.FormattedIsConsistent` | src/kernel/fat32.c:204-207 | a freshly formatted volume meets the invariant |
| `FsLaws.Mount` | src/kernel/fat32.c:173-208 | mounting a freshly made volume, written out field by field, takes each field of its boot sector for what it is, and gives a file system that meets the invariant, in an empty root directory |
| `FsPaths.Reachable` | src/kernel/fat32.c:470-520 | every directory is entered from the root by one name a level |
| `FsPaths.OnePath` | src/kernel/fat32.c:470-520 | by one path only: the directories form a tree |
| `FsPaths.ResolveKept` | src/kernel/fat32.c:535-789 | paths that avoid the name a call was given lead where they did |
| `FsPaths.OnlyNameIsolates` | src/kernel/fat32.c:535-789 | every such path finds the same: nothing, a folder, or a file of the same size and bytes |
| `FsPaths.AvoidsUnlessThrough` | src/kernel/fat32.c:470-520 | a path avoids a name unless it leads through the directory by that name: there is one way to each directory |
| `FsRuns.Balance` | src/kernel/fat32.c:115-161 | free, used and bad clusters add up to the volume |
| `FsRuns.Step` | src/kernel/fat32.c:535-789 | any command keeps the invariant, bad marks, reserved bits, sectors elsewhere, and every path that avoids its name; directories grow by at most one cluster |
| `FsRuns.Run` | src/kernel/fat32.c:535-789 | so does any run of commands: free plus used clusters are conserved, and a path that no command named leads where it did and finds what it found |
| `FsRuns.RanMore` | src/kernel/fat32.c:535-789 | isolation composes: what each command leaves alone, the run leaves alone |
| `FsRuns.WriteRunRead` | src/kernel/fat32.c:287-342 | a file written, then any run that uses no name on its path, then a read in the same directory: the bytes written come back, and the results are their counts |
| `Heaps.Canonical` | src/kernel/heap.c:52-68 | a list without free neighbours is determined by the allocated blocks |
| `Heaps.LiveDisjoint` | src/kernel/heap.c:29-49 | allocated blocks, headers included, never overlap |
| `Heaps.AllocateTotal` | src/kernel/heap.c:29-49 | splitting keeps the tiling, and no two free blocks become neighbours |
| `Heaps.AllocateLive` | src/kernel/heap.c:29-49 | allocating adds one block at a fresh address, and no other changes |
| `Heaps.ReleaseLive` | src/kernel/heap.c:52-68 | freeing removes exactly the block freed |
| `Heaps.AllocateRelease` | src/kernel/heap.c:29-68 | kmalloc then kfree of the result restores the list exactly |
| `Heaps.ReleasesCommute` | src/kernel/heap.c:52-68 | the order of two frees does not matter |
| `Heaps.ReleaseEverything` | src/kernel/heap.c:52-68 | freeing everything in any order gives back the single initial block |
| `Heaps.Heap.constructor` | src/kernel/heap.c:15-27 | one free block spans the heap |
| `Heaps.Heap.Kmalloc` | src/kernel/heap.c:29-49 | the lowest fitting block, 0 exactly when none fits; headers in memory stay linked and tile the heap |
| `Heaps.Heap.Kfree` | src/kernel/heap.c:52-68 | the headers left in memory are the merged list |
| `Heaps.Heap.MergePass` | src/kernel/heap.c:58-67 | one pass without going back merges every run of free blocks |
| `Processes.StepSound` | src/kernel/process.c:39-107 | every event keeps: only the current slot runs, and the count covers the live slots |
| `Processes.RunSound` | src/kernel/process.c:39-107 | so does any run of events |
| `Processes.KillIsFinal` | src/kernel/process.c:74-107 | after a kill the slot stays dead and is never current, whatever else happens, until something is spawned |
| `Processes.SearchIsNext` | src/kernel/process.c:91-97 | the search stops at the nearest slot that is not dead, going round |
| `Processes.NextUnique` | src/kernel/process.c:91-97 | there is only one such slot, so the search is fully described |
| `Processes.TickApproaches` | src/kernel/process.c:87-107 | a tick brings a waiting process strictly nearer or makes it current |
| `Processes.Fair` | src/kernel/process.c:87-107 | a ready process that is not killed becomes current and runs within its cyclic distance of ticks, whatever else happens between them |
| `Processes.ExitThenTick` | src/kernel/process.c:102 | an exited process becomes ready at the next tick if and only if another process is live |
| `Processes.Scheduler.constructor` | src/kernel/process.c:39-51 | slot 0 runs, the other fifteen are dead |
| `Processes.Scheduler.ProcessSpawn` | src/kernel/process.c:54-72 | the lowest dead slot becomes ready and the count grows by one, no other slot changes; -1 exactly when none is dead |
| `Processes.Scheduler.ProcessKill` | src/kernel/process.c:74-85 | a live slot other than the current one becomes dead and the count drops by one; any other number changes nothing |
| `Processes.Scheduler.ProcessSchedule` | src/kernel/process.c:87-107 | runs the nearest slot ahead that is not dead and makes the old one ready; stays when all others are dead |
| `Processes.Scheduler.Retire` | src/kernel/process.c:24-37 | the entry point returns: the current slot is dead, and nothing else changes |
| `WindowManager.RaiseStack` | src/kernel/window.c:178-186 | raising permutes z_order and moves one window to the top of the stack |
| `WindowManager.CloseStack` | src/kernel/window.c:194-214 | closing removes one window and keeps the order of the rest despite renumbering |
| `WindowManager.OpenStack` | src/kernel/window.c:233-248 | opening puts a window on top |
| `WindowManager.StackTitles` | src/kernel/window.c:216-227 | titles are distinct in the array exactly when they are in the stack |
| `WindowManager.TitledAt` | src/kernel/window.c:216-227 | looking a title up in the array and in the stack finds the same window |
| `WindowManager.HitBoxes` | src/kernel/window.c:84-140 | where title bar, close button and body lie, to the pixel; the button is in the title bar, the body is not |
| `WindowManager.PressOffBars` | src/kernel/window.c:440-487 | the frontmost window whose button was hit goes and nothing is dragged; else the frontmost body hit comes to the front; else nothing changes |
| `WindowManager.HookOpens` | src/kernel/window.c:466-473 | a window the clicked app opens or asks for by title is in front afterwards |
| `WindowManager.CoveredTitleGrabs` | src/kernel/window.c:440-522 | a press on the front window's body over another's title bar grabs the covered window |
| `WindowManager.OnlyCloseCloses` | src/kernel/window.c:301-487 | a press loses a window only if it is the frontmost whose close button was hit, off the bars |
| `WindowManager.Desktop.BringToFront` | src/kernel/window.c:178-186 | z_order afterwards, and the stack it stands for; an index no window has changes nothing |
| `WindowManager.Desktop.CloseWindow` | src/kernel/window.c:194-214 | both arrays afterwards, and the stack; out-of-range indices change nothing |
| `WindowManager.Desktop.FindWindowByTitle` | src/kernel/window.c:216-227 | a window with the title, or -1 exactly when there is none |
| `WindowManager.Desktop.SpawnWindow` | src/kernel/window.c:233-248 | the new window, on top, and the pixel it opens at, for any title; -1 exactly when there are eight; titles stay distinct if and only if the title is new |
| `WindowManager.Desktop.SpawnOrFocus` | src/kernel/window.c:251-256 | raises the window with the title or opens it; -1 exactly when it is absent and there is no room; titles stay distinct |
| `WindowManager.Desktop.Perform` | src/kernel/window.c:308-386 | a window selected comes to the front and the others keep their order; a number no window has changes nothing |
| `WindowManager.Desktop.ClickClose` | src/kernel/window.c:440-454 | closes the frontmost window whose button was hit, and no other |
| `WindowManager.Desktop.ClickBody` | src/kernel/window.c:456-487 | raises the frontmost window whose body was hit |
| `WindowManager.Desktop.StartDrag` | src/kernel/window.c:512-522 | drags the frontmost window whose title bar was hit, and raises it |
| `WindowManager.Desktop.MoveDragged` | src/kernel/window.c:556-570 | the dragged window follows the pointer, clamped; no other moves |
| `WindowManager.Desktop.Click` | src/kernel/window.c:301-487 | a press changes the stack as the bars, the close buttons and the bodies say, in that order; on the bars, a selected window comes to the front |
| `WindowManager.Desktop.Round` | src/kernel/window.c:293-605 | the stack after a round, from the stack before: a fresh press acts on the bars, where a selected window comes to the front, then on the frontmost close button, then on the frontmost body; then a drag starts, goes on or ends; the dragged window is the front one |
| `PageMaps.CountIsExact` | src/kernel/pmm.c:46-56 | no page is counted twice if and only if no two regions share a page |
| `PageMaps.UnalignedApart` | src/kernel/pmm.c:49-51 | disjoint regions, aligned or not, share no page, by floor arithmetic |
| `PageMaps.UpperGuardIdle` | src/kernel/pmm.c:51 | the guard against the end of the bitmap never cuts a region short |
| `PageMaps.RamIsFree` | src/kernel/pmm.c:29-56 | for whole-page regions, the pages found free are those of RAM regions that end below 4 GiB, and of no other kind |
| `PageMaps.BitPut` | src/kernel/pmm.c:11-21 | setting or clearing one page's bit changes no other page's |
| `PageMaps.PageMap.constructor` | src/kernel/pmm.c:23-76 | the free pages are those of RAM regions past the kernel and bitmap; the count is right if and only if no two regions share a page |
| `PageMaps.PageMap.TakeLow` | src/kernel/pmm.c:58-76 | the pages up to the end of the bitmap are taken, and the count follows |
| `PageMaps.PageMap.AllocPage` | src/kernel/pmm.c:78-87 | hands out the lowest free page; 0 when none is free |
| `PageMaps.PageMap.FreePage` | src/kernel/pmm.c:89-95 | the count stays right if and only if the page is below the top of memory or its bit was clear |
| `PageMaps.PageMap.ReserveRegion` | src/kernel/pmm.c:102-114 | takes exactly the pages that touch the region, or none where rounding up leaves 32 bits, and keeps the count |
| `PageMaps.StaysTaken` | src/kernel/pmm.c:78-114 | a page off the free list is not handed out until it is freed |
| `PageMaps.ReservedStaysOut` | src/kernel/pmm.c:46-114 | a page of a region that is not RAM is not handed out until it is freed |
| `ElfLoader.AcceptedInUser` | src/kernel/elf.c:78-82 | the wrapping checks admit only segments inside the user range |
| `ElfLoader.AcceptedExactly` | src/kernel/elf.c:68-82 | exactly which segments are looked at and let through, wrapping sums included |
| `ElfLoader.HeaderRead` | src/kernel/elf.h:37-52 | each header field is read from its place, and only 32-bit little-endian x86 executables are taken |
| `ElfLoader.TableRead` | src/kernel/elf.h:54-63 | each program header of the table is read field by field from its place |
| `ElfLoader.LastSegmentWins` | src/kernel/elf.c:84-92 | after a load each byte is its last covering segment's file byte or zero, and is as before elsewhere |
| `ElfLoader.CopySegment` | src/kernel/elf.c:84-92 | memory afterwards is the segment placed in memory before; nothing outside the user range is written |
| `ElfLoader.ElfLoad` | src/kernel/elf.c:39-97 | for any file nothing outside [0x400000, 0x800000) is written; when no sum wraps, memory is the segments placed in order |
| `Video.PixelsApart` | src/kernel/vga.c:252-268 | pixels do not overlap, for any pitch that holds a row |
| `Video.SamePixels` | src/kernel/vga.c:245-272 | a framebuffer is determined by its pixels and its padding |
| `Video.EncodedColour` | src/kernel/vga.c:252-268 | the bytes of a colour at 32, 24 and 16 bits: blue lowest, then green, then red |
| `Video.PaintedBytes` | src/kernel/vga.c:245-307 | which bytes of the framebuffer a pixel of the rectangle is, and which of the buffer's colours they get |
| `Video.PartialIsFull` | src/kernel/vga.c:274-307 | if only a rectangle changed, presenting it leaves the same bytes as presenting everything |
| `Video.Present` | src/kernel/vga.c:245-272 | every pixel shows the buffer's colour, and padding is untouched; at a depth the code does not know nothing is written |
| `Video.PresentRect` | src/kernel/vga.c:274-307 | exactly the on-screen pixels of the rectangle are repainted, wherever it lies |
| `Video.PresentTwice` | src/kernel/vga.c:245-307 | a full present and then a partial one paint what the new buffer says |
| `Shell.NothingDropped` | src/kernel/shell.c:126-144 | below the argument limit every character that is not a space is in some word |
| `Shell.TokensUnique` | src/kernel/shell.c:126-144 | the words are determined by the text |
| `Shell.Tokenize` | src/kernel/shell.c:126-144 | argv holds the maximal runs in order, up to the limit; the line is cut at their ends and nowhere else |
| `Shell.RestoreText` | src/kernel/shell.c:323-340 | the text from the third word to the end of the last is restored byte for byte |

## Left out

- FileSystems.FileSystem.ReadFile: an empty file may be asked for bytes only where the sectors the driver then reads lie on the disk and FAT entry 0 is an end mark, as formatting leaves it; and the name must fit the buffer of the reader, which does not check.
- FileSystems.FileSystem.WriteFile: requires that the 200,000-hop limit lets the driver follow the chains involved (any volume of up to 200,000 clusters qualifies); past the limit the driver gives up silently. Names are NUL-free, and do not start with byte 0xE5, which the keyboard never yields (`src/kernel/keyboard.c:129`): a file stored under such a name is invisible at once (`Names.NewSlotVisible`) and its clusters are lost.
- FileSystems.FileSystem.Mkdir: requires the same of the hop limit and of the name.
- FileSystems.FileSystem.ListDir: the characters of an entry's name are not bounded by the caller's record, because the decoder never yields more than twelve.
- FsRuns.Run: on a volume of more than 200,000 clusters, requires that no chain of a directory can outgrow the hop limit during the run.
- Heaps.Heap.Kmalloc: the memory between headers is not modelled, so a program overrunning its block is not either; nor is the overlap of the heap's address range with the ELF image range.
- Processes.Scheduler.ProcessSpawn: stacks and registers are left out; a context switch is the change of states and of the current slot.
- WindowManager.Desktop.Round: what the task bar and menu bar make of a click, and what a clicked app opens, are inputs; an app may open a window when clicked, and none on a key, as the apps there are do; powering off, drawing and dirty rectangles are left out.
- PageMaps.PageMap.constructor: requires that the kernel and its bitmap lie in RAM; the walk over Multiboot2 tags is replaced by a list of regions.
- ElfLoader.ElfLoad: a load past the end of the image yields any byte at all, so with wrapping sums only the bound on writes is stated.
- Video.Present: colours are split by division rather than by shifts.
- Video.PresentRect: the edges of the rectangle must be representable in the 32-bit integers the code adds them in; otherwise its guards miss and it writes outside the framebuffer.
- Disk hardware (ATA, AHCI, NVMe, eMMC, PCI, I2C): a sector read or write is taken to be perfect.
- GPT lookup and the boot signature warning: the partition's first sector is a parameter.
- Entries with any of the attribute bits 0x0F set are invisible to every lookup; they are taken to own no clusters.
- The driver's six copies of the directory scan are one scanning method with the test for a hit as a parameter; loops that copy 32 bytes of a slot or zero a padded sector are sequence slices.
- Timestamps (always zero), the printed listing, and the `cwd_path` text are left out.
- Keyboard, mouse, timer, interrupt entry, assembly, ACPI, clock, icons, menus and the applications are left out.
- The host tool in `tools/` and the superseded code in `old/` are left out.
