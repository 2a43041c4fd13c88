# Kil0yOS storage and memory: a Dafny model

This project models the parts of Kil0yOS where a lost block, a shared frame or a
stale count would go unnoticed longest, and proves what each of them keeps:

- the **ext2 driver** (`src/kernel/fs/ext2.c`): bitmap allocators, inode table,
  direct, single and double indirection, directory records, create, read and
  write, the directory loader, `mkfs` and the superblock probe
  (`Ext2*.dfy`);
- the **FAT32 backend** (`src/kernel/fs/fs.c`): the cached table, the next-fit
  allocator, chain release, copy-then-swap file writes, short names, directory
  entries, the in-memory tree, create and delete, the reload and `fs_format`
  (`Fat*.dfy`);
- **user memory** (`src/kernel/core/uvm.c`): page tables over one frame pool,
  region tables, map, unmap, protect, mmap, release, fork and the copies
  through the identity map (`Uvm*.dfy`);
- the **ELF64 loader** (`src/kernel/core/elf.c`) on top of it (`Elf.dfy`);
- the **file-descriptor tables** (`src/kernel/core/file.c`, `FdTable.dfy`).

`Bytes.dfy` holds little-endian fields and byte patches. Drivers that update
state in place are classes (`Ext2`, `Volume`, `Driver`, `Kernel`, `FdLayer`);
each method is proved against functions of an abstract view (used blocks and
pointer slots, a FAT and its clusters, page tables and frames, slots and
counts), and the laws about that view are lemmas. `dafny verify dfyconfig.toml`
checks everything.

## Main results

- *ext2 ownership over every run.* Whatever sequence of creates and writes
  runs, and whichever of them fail half-way, each block reached from the inode
  table stays allocated, outside the metadata, and reached by one pointer of one
  inode (`Ext2Run.Run`). After any run a file holds the data of the last write to
  it, if that succeeded (`LastWrite`), a directory lists what it listed and
  exactly what was created in it (`Listings`), and each entry names a typed
  inode (`RunReferenced`). A write succeeds exactly when there is a free block
  for every empty slot on the way to its blocks, changes the content of its own
  inode and nothing else, and stops at a known block otherwise
  (`Ext2.WriteFile`, `GivesUpOnce`); a link adds exactly one entry to one
  listing (`Ext2.AddDirent`), and formatting then probing recovers the same
  mount (`FormatAndProbe`).
- *FAT tree and disk agree over every run.* Cached table and disk agree byte for
  byte, no cluster has two owners, none is leaked, and tree and directories
  match one to one (`Driver.Run`, `OneToOne`), so a load from disk rebuilds the
  whole tree after any run (`RunAndLoad`). Each call states exactly when it
  fails and what it then leaves, and FSInfo's free count is followed through
  every run (`CountAlong`).
- *Frames.* Over every run of address-space calls no frame backs two pages or
  sits in the pool while mapped (`UvmRun.Run`), tracked pages are mapped exactly
  as long as every call is safe (`RunTracked`), and the frames lost are exactly
  the double copies of forks (`LostStepHolds`), while a release leaves exactly
  the untracked pages behind (`ReleaseLeaves`); map, mmap, fork and the ELF
  loader succeed exactly when the pool holds enough frames, counted as the union
  of what they touch.
- *Reference counts.* Over every run a table's count is the number of its
  holders and a file's count its slots plus the references lost so far
  (`FdLayer.Run`); when every process has exited, the files still open are
  exactly those a dup on a full table lost (`LeftOpen`).

## Where the code does not do what it says

Each of these is modelled as the code behaves, with a lemma or contract that
says exactly when the promise holds:

- A file write takes a fresh ext2 indirect block without clearing it
  (`ext2.c:702-731`), and `mkfs` leaves the data area as it was
  (`ext2.c:888-889`): ownership survives exactly when what the block's stale
  words show is harmless, for each of the three levels (`AdoptExactly`), and
  `StaleIndirect` formats, creates and writes its way to a file that shares the
  root directory's block. A fresh file system's free blocks are zero exactly
  when its data area was (`FreshOk`).
- `fs_format` leaves the root directory's FAT entry zero, so the first
  allocation after it is the root cluster (`FormatThenAllocate`,
  `RootHandedOut`); with that entry marked, every run is sound
  (`FormatMarkRun`).
- The FAT is said to cover every data cluster (`fs.c:602-609`); its size is one
  entry short exactly for totals that are 31 modulo 129 (`SizeFat`). The
  built-in disk size is not one of them, and the allocator clamps.
- When every `~N` name is taken the code leaves the last mangled name, not the
  plain one as its comment says (`fs.c:571`, `UniqueShort`); with the child
  table's bound that case cannot arise (`FewUsed`).
- A `mkdir` whose parent entry cannot be written frees its cluster without
  counting it: FSInfo then reads one too low (`MakeDir`), never more over any
  run, and until the disk has been full (`CountAlong`). `MissOne` is a run that
  gets there.
- A reload shows a child under its short name cut at the first space, and spaces
  are legal: children with different short names can come back under one name
  (`ShownCollide`), exactly when these agree up to the spaces (`ShownExactly`).
- Remapping a user page is said to OR the protections; it never clears
  no-execute (`MergeExact`). A fork drops the no-execute bit of every page
  (`Fork`).
- A map that runs out of frames also removes pages of the range that were
  mapped before, tracked or not (`RollbackTracked`); `RollbackLoses` does it in
  two calls.
- Unmapping the middle of a region stops tracking its tail (`CutExact`).
- A fork copies a page in two regions twice and loses one frame; a fork that
  runs out of frames leaves the pages of the unfinished region mapped and
  untracked (`CopiesExact`, `Fork`).
- The ELF header check adds the table's offset and size in 64 bits
  (`elf.c:116`): it keeps the table inside the image exactly when the sum does
  not wrap (`TableInside`), and `WrappingHeader` is one for which it does.
- `fd_dup` on a full table keeps the reference it took (`Dup`, `CountExact`).

## Model

| member | source | states |
|---|---|---|
| `Ext2Layout.InodesApart` | src/kernel/fs/ext2.c:190-201 | two inode numbers have disjoint 128-byte records, in different table blocks or at different offsets |
| `Ext2Layout.InodePlace` | src/kernel/fs/ext2.c:190-201 | an inode's record lies inside its group's table, inside the device |
| `Ext2Alloc.TakeBlock` | src/kernel/fs/ext2.c:129-152 | returns the lowest clear block below the block count and sets that bit alone; 0, device untouched, only when every block is used |
| `Ext2Alloc.TakeInode` | src/kernel/fs/ext2.c:154-180 | the same for inode numbers and the inode bitmaps |
| `Ext2Alloc.AllocatedModel` | src/kernel/fs/ext2.c:129-152 | setting that bit adds the block to the used set and changes no inode, no data block and no inode bit |
| `Ext2Alloc.InodeAllocatedModel` | src/kernel/fs/ext2.c:154-180 | setting an inode bit adds the number to the taken set and changes nothing else |
| `Ext2Alloc.InodeModel` | src/kernel/fs/ext2.c:221-237 | patching one record of an inode table changes that inode and no other inode, bitmap or data block |
| `Ext2Driver.Ext2.AllocBlock` | src/kernel/fs/ext2.c:129-152 | an allocation that succeeds adds one unused block to the used set; a failing one means no block is free |
| `Ext2Driver.Ext2.AllocInode` | src/kernel/fs/ext2.c:154-180 | the same for inode numbers |
| `Ext2Driver.Ext2.ReadInode` | src/kernel/fs/ext2.c:203-219 | the record of an existing inode, or failure for a number out of range |
| `Ext2Driver.Ext2.WriteInode` | src/kernel/fs/ext2.c:221-237 | rewrites one inode of the view, leaving used blocks, taken numbers and data blocks alone |
| `Ext2Driver.Ext2.IndGet` | src/kernel/fs/ext2.c:270-275 | the pointer stored in an indirect block |
| `Ext2Driver.Ext2.IndSet` | src/kernel/fs/ext2.c:277-282 | patches one pointer of an indirect block |
| `Ext2View.SetTop` | src/kernel/fs/ext2.c:691-697 | naming a fresh block in an inode's own slot changes that pointer only and keeps every block owned by one pointer |
| `Ext2View.SetChild` | src/kernel/fs/ext2.c:707-737 | the same for a slot inside an indirect block |
| `Ext2View.AdoptFresh` | src/kernel/fs/ext2.c:691-737 | filling one slot, and no other, with a used block that no pointer names keeps every block owned by one pointer |
| `Ext2View.WriteData` | src/kernel/fs/ext2.c:741-745 | overwriting a data block changes no pointer and no other file's blocks |
| `Ext2View.AdoptExactly` | src/kernel/fs/ext2.c:702-731 | the write path takes a free block as singly indirect, doubly indirect or second-level block without zeroing it; ownership survives if and only if the pointers the block then shows, two levels of them for the doubly indirect one, name only used, unowned, distinct blocks |
| `Ext2View.AdoptNeedsZero` | src/kernel/fs/ext2.c:702-731 | when no used block is ownerless, that condition is exactly: the block shows no pointer |
| `Ext2View.AdoptTop` | src/kernel/fs/ext2.c:702-720 | storing a free block in the inode's singly or doubly indirect slot shows exactly the block's old words as new pointers and changes no other |
| `Ext2View.AdoptSecond` | src/kernel/fs/ext2.c:721-726 | the same for a second-level block stored in the doubly indirect block |
| `Ext2Stale.StaleIndirect` | src/kernel/fs/ext2.c:664-750 | formatting a device of any accepted size whose data area holds stale words, creating a file and writing thirteen blocks to it ends with the file and the root directory sharing a block, which now holds the file's data |
| `Ext2File.BmapFindsSlot` | src/kernel/fs/ext2.c:242-267 | the read path's mapping equals the pointer the write path maintains, for every block number and every tree |
| `Ext2File.ReadSlice` | src/kernel/fs/ext2.c:612-647 | reading block by block yields the file's content, holes as zeros |
| `Ext2File.WrittenContent` | src/kernel/fs/ext2.c:741-749 | when every block of the file holds its chunk and the size is set, the content is the data |
| `Ext2File.DataSlotAlone` | src/kernel/fs/ext2.c:741-745 | a data block is named by its own file's data slots only: no other inode and no indirect slot holds its number |
| `Ext2File.Abandon` | src/kernel/fs/ext2.c:664-756 | a write given up half-way leaves ownership sound and every other inode as it was |
| `Ext2File.Commit` | src/kernel/fs/ext2.c:748-750 | writing the inode back completes the write without disturbing other inodes |
| `Ext2Driver.Ext2.MapBlock` | src/kernel/fs/ext2.c:690-739 | finds or allocates the block of any file offset through direct, single and double indirection, changing no other mapping and taking exactly one block for each empty slot on the way; fails only past that range, or when no block is free and a slot is still empty |
| `Ext2Need.CountSlot` | src/kernel/fs/ext2.c:691-737 | a block taken and stored in an empty slot: since the write began exactly the slots counted so far and this one were filled, one block each |
| `Ext2Need.LastSlot` | src/kernel/fs/ext2.c:690-739 | with the pointer blocks above it in place, the last slot completes the mapping and the count, or is left to pay for |
| `Ext2Need.GaveUp` | src/kernel/fs/ext2.c:690-756 | a write given up at block bn: the blocks before it that the stored inode still reaches hold the data, all others what they held |
| `Ext2Need.GivesUpOnce` | src/kernel/fs/ext2.c:690-756 | a write gives up at one block at most, which the file and the number of free blocks before it determine: the first past double indirection or for whose empty slots there are too few blocks |
| `Ext2Need.NeededBound` | src/kernel/fs/ext2.c:690-739 | a write of n blocks never takes more than 3n |
| `Ext2Alloc.Enough` | src/kernel/fs/ext2.c:129-152 | the number of free blocks is never negative, and zero exactly when the allocator fails |
| `Ext2Driver.Ext2.WriteBlocks` | src/kernel/fs/ext2.c:686-746 | the write loop: the first n blocks hold their chunks and exactly the slots that were empty on the way are filled; or it stops at the one block at which it must |
| `Ext2Driver.Ext2.WriteFile` | src/kernel/fs/ext2.c:664-756 | succeeds if and only if the target is a regular file of a writable mount, the data needs no triple indirection, and the free blocks are at least the empty slots on the way to its blocks; then the content is exactly the data; a failed write keeps the record and stops at the one block at which the state before it says it must, the blocks before that one which the stored inode reaches holding the data and all others what they held; either way every other inode keeps its content, listing and record, the invariant holds and free blocks stay zero |
| `Ext2Driver.Ext2.ReadFile` | src/kernel/fs/ext2.c:612-647 | returns exactly the content, cut to the buffer |
| `Ext2Dir.DirentPut` | src/kernel/fs/ext2.c:290-298 | the record decodes to the entry, with the given length, and no byte outside it changes |
| `Ext2Dir.FillDead` | src/kernel/fs/ext2.c:334-341 | reusing a dead record keeps the records tiling the block and inserts exactly one entry in its walk |
| `Ext2Dir.SplitLive` | src/kernel/fs/ext2.c:342-352 | cutting a live record's slack does the same |
| `Ext2Dir.LinkInBlock` | src/kernel/fs/ext2.c:327-354 | links into one block: all old entries plus exactly the new one, or the block untouched and every record full |
| `Ext2Fs.ConcatInsert` | src/kernel/fs/ext2.c:320-355 | an insertion in one block's walk is one insertion in the whole directory's listing |
| `Ext2Fs.DirGrew` | src/kernel/fs/ext2.c:357-388 | a block appended to a directory adds its walk at the end of the listing |
| `Ext2Driver.Ext2.AddDirent` | src/kernel/fs/ext2.c:302-393 | every other inode as before; on success the directory lists the old entries plus exactly the new name, inode and type, whichever slot or fresh block was used; failure only for a bad call, a directory at its size limit or no free block |
| `Ext2Driver.Ext2.CreateFile` | src/kernel/fs/ext2.c:760-775 | the directory gains exactly the new entry, naming an inode that was free and is now an empty regular file; on failure every inode is as before, except that one untyped inode may have become an empty file, without a new entry; the cause is one of: not writable, no free inode, no such directory, bad name, directory at its size limit, no free block; no pointer in use moves and no free block changes |
| `Ext2Driver.Ext2.CreateDir` | src/kernel/fs/ext2.c:777-804 | the same for a directory, whose listing is exactly dot and dot-dot, or these and itself when the caller names the very inode being created as parent |
| `Ext2Load.LoadDir` | src/kernel/fs/ext2.c:517-592 | the loader's children are those of the directory's listing, capped at the table size |
| `Ext2Load.ChildInserted` | src/kernel/fs/ext2.c:532-584 | a linked entry adds its child to what the loader shows and no other, wherever it was inserted |
| `Ext2Run.Run` | src/kernel/fs/ext2.c:664-804 | any run of creates and writes, failing calls included, goes through states each of which follows from the one before by what its call does and keeps: each reached block used, outside the metadata and reached by one pointer of one inode; directories tiled; free blocks zero |
| `Ext2Run.FileStays` | src/kernel/fs/ext2.c:664-804 | over any part of a run in which no call writes a regular file, its record and content stay the same |
| `Ext2Run.LastWrite` | src/kernel/fs/ext2.c:664-756 | after any run a file holds exactly the data of the last write to it, if that write succeeded |
| `Ext2Run.Listings` | src/kernel/fs/ext2.c:302-393 | over any part of a run a directory keeps its entries and gains exactly one for each creation in it that succeeds, with the name, type and inode number created |
| `Ext2Run.RunReferenced` | src/kernel/fs/ext2.c:302-393 | no run makes an entry other than dot and dot-dot name an untyped inode, or its own directory as a file |
| `Ext2Run.CreatedShows` | src/kernel/fs/ext2.c:532-584 | after a creation at any point of a run, below the table's capacity, a reload shows the children it showed before with the new one at one place, under its name and with size zero, and no other change |
| `Ext2Mkfs.MkfsFits` | src/kernel/fs/ext2.c:829-858 | every accepted device has room for its metadata and the two directories |
| `Ext2Mkfs.Areas` | src/kernel/fs/ext2.c:860-887 | bitmaps and tables of all groups lie inside the device, after the descriptors, pairwise apart |
| `Ext2Mkfs.Mkfs` | src/kernel/fs/ext2.c:813-1009 | accepts exactly the sizes from 16384 sectors up to 256 groups and then writes each block as its area demands, the rest untouched; otherwise the device is unchanged |
| `Ext2Mkfs.FormattedModels` | src/kernel/fs/ext2.c:860-1009 | the formatted device is the view whose used blocks are exactly the two directory blocks, so the free ones run from past them to the end |
| `Ext2Mkfs.FreshOk` | src/kernel/fs/ext2.c:888-889 | the fresh file system satisfies the invariant whatever the data area held; its free blocks are zero if and only if the data area was zero before, which mkfs does not arrange |
| `Ext2Mkfs.FreshRoot` | src/kernel/fs/ext2.c:937-969 | the root lists exactly dot, dot-dot and lost+found |
| `Ext2Mkfs.FreshReferenced` | src/kernel/fs/ext2.c:937-1009 | every entry of the two fresh directories other than dot and dot-dot names a typed inode |
| `Ext2Mkfs.Probe` | src/kernel/fs/ext2.c:397-481 | accepts exactly the superblocks that pass the plausibility checks and whose descriptors are readable, and caches the tables found there |
| `Ext2Mkfs.ProbeRecovers` | src/kernel/fs/ext2.c:397-481 | on a formatted device that is the geometry and the group tables mkfs used |
| `Ext2Mkfs.FormatAndProbe` | src/kernel/fs/ext2.c:397-481 | formatting then probing any accepted size recovers the same mount, well formed, its root listing lost+found; its free blocks are zero exactly for a zero data area |
| `Ext2Mkfs.FormatAndRun` | src/kernel/fs/ext2.c:813-1009 | every run from a format over a zero data area ends in a well-formed file system whose entries all name typed inodes, the root listing exactly what it listed when fresh and what was created in it |
| `FatDisk.ClusterInside` | src/kernel/fs/fs.c:36-42 | every allocatable cluster lies past the FATs and inside the disk |
| `FatDisk.SectorsApart` | src/kernel/fs/fs.c:40-42 | distinct sectors of clusters are distinct sectors of the disk |
| `FatVolume.DataCoherent` | src/kernel/fs/fs.c:79-111 | no data-cluster write lands in a FAT sector, so the cached table still equals the table on disk |
| `FatVolume.CacheWrite` | src/kernel/fs/fs.c:95-111 | an entry write keeps cache and disk equal byte for byte |
| `FatVolume.Volume.LoadCache` | src/kernel/fs/fs.c:60-75 | the cache equals the FAT sectors |
| `FatVolume.Volume.ReadEntry` | src/kernel/fs/fs.c:79-93 | the entry's value, from the cache or from disk; for a number beyond the table the word the disk has there, or the error value past its end |
| `FatVolume.Volume.WriteEntry` | src/kernel/fs/fs.c:95-111 | changes that entry, in cache and on disk, and no other entry, cluster or count |
| `FatVolume.Volume.AllocCluster` | src/kernel/fs/fs.c:113-157 | for any hint, the first free allocatable cluster at or after it, going round once, marked end-of-chain; 0, nothing changed, only when none is free; an unknown FSInfo count is counted, and one that misses clusters misses as many afterwards, or all that are left if fewer |
| `FatVolume.Volume.ZeroChain` | src/kernel/fs/fs.c:159-179 | ends on every table whose entries are zero, end-of-chain or in range, cyclic ones included; on a proper chain zeroes exactly its entries |
| `FatVolume.Volume.FreeChain` | src/kernel/fs/fs.c:159-196 | zeroes exactly a proper chain's entries, adds its length to the free clusters and to FSInfo's count, which misses as many as before |
| `FatChain.CountCleared` | src/kernel/fs/fs.c:181-193 | freeing a chain raises the number of zero entries by its length |
| `FatChain.CountSet` | src/kernel/fs/fs.c:129-147 | changing one entry moves that number by that entry alone |
| `FatChain.SpaceSet` | src/kernel/fs/fs.c:1324-1410 | giving one owner another chain, of free clusters and its own, keeps every cluster owned by at most one chain and leaves no used cluster unowned |
| `FatIo.LaidUndo` | src/kernel/fs/fs.c:1346-1353 | freeing a partly built chain restores every FAT entry |
| `FatIo.WriteChain` | src/kernel/fs/fs.c:1311-1362 | lays the data in a chain of formerly free clusters, no longer than it must be, or restores every entry; the latter exactly when the free clusters cannot hold the data |
| `FatIo.ReadChain` | src/kernel/fs/fs.c:1439-1470 | exactly the first size bytes the chain holds |
| `FatDriver.Store` | src/kernel/fs/fs.c:1311-1410 | copy then swap: the file's new chain holds the data, its parent changes in that one entry, every other file and directory is untouched; or, exactly when the clusters do not suffice, nothing in use changes; the free clusters change by the difference of the chains' lengths |
| `FatDriver.Driver.WriteFile` | src/kernel/fs/fs.c:1277-1413 | succeeds if and only if the node is a file and the free clusters hold the clamped data; then the file holds the data in as few clusters as possible and all else is as before; otherwise FAT, tree and all contents are as they were |
| `FatDriver.Driver.ReadFile` | src/kernel/fs/fs.c:1415-1470 | exactly the file's bytes, cut to the buffer |
| `FatDir.FindSlot` | src/kernel/fs/fs.c:375-399 | the first slot of the directory's chain that satisfies the test, or none does |
| `FatDir.NameExists` | src/kernel/fs/fs.c:490-508 | true exactly when a slot in use before the first never-used one has this name; where never-used slots end the directory, exactly when any slot in use has it |
| `FatDir.PatchSlot` | src/kernel/fs/fs.c:1381-1391 | changes that slot of the directory and no cluster outside its sector's |
| `FatDir.WriteEntry` | src/kernel/fs/fs.c:367-429 | the entry goes in the first free slot, or in a fresh cluster linked at the end; fails, nothing changed, exactly when no slot and no cluster is free |
| `FatName.MangledInjective` | src/kernel/fs/fs.c:553-570 | distinct counters give distinct names, since the last tilde of the stem starts the counter |
| `FatName.Pigeonhole` | src/kernel/fs/fs.c:553-570 | distinct names that are all taken need as many slots in use |
| `FatName.FormatShort` | src/kernel/fs/fs.c:431-486 | the cleaned, upper-cased, padded 8.3 form; never free-looking, never a dot entry, never holding a zero byte |
| `FatName.UniqueShort` | src/kernel/fs/fs.c:516-572 | the plain 8.3 form if no slot seen has it, else the mangled name with the lowest counter no slot seen has, else, with all 999,999 seen, the last one; with fewer than 999,999 slots in use, a name no slot in use has |
| `FatName.TryCounters` | src/kernel/fs/fs.c:553-571 | the lowest counter whose mangled name is not seen, or the last counter when all are |
| `FatTree.Repoint` | src/kernel/fs/fs.c:1383-1385 | the entry's first cluster and size, and nothing in its first twenty bytes, change |
| `FatTree.OneToOne` | src/kernel/fs/fs.c:1056-1078 | where tree and disk agree, each child has exactly one entry in use under its name, matching its name, type, first cluster and size, and each live entry exactly one child |
| `FatTree.AgreesInsert` | src/kernel/fs/fs.c:1056-1078 | adding a child and its entry keeps the agreement |
| `FatTree.AgreesUpdate` | src/kernel/fs/fs.c:1364-1405 | repointing a child and its entry keeps it |
| `FatTree.AgreesRemove` | src/kernel/fs/fs.c:1519-1543 | removing a child and marking its entry deleted keeps it |
| `FatTree.FewUsed` | src/kernel/fs/fs.c:905-916 | a directory that fits the child table never exhausts the name counters |
| `FatCreate.WriteNew` | src/kernel/fs/fs.c:1056-1069 | the short name chosen is unused and the entry is inserted; or nothing changes, exactly when no slot and no cluster is free |
| `FatCreate.Hang` | src/kernel/fs/fs.c:1056-1078 | the tail of both create calls: tree, disk and cluster ownership agree again with exactly one child more; other nodes keep their clusters and bytes |
| `FatCreate.WriteDots` | src/kernel/fs/fs.c:1173-1200 | the new directory holds dot, naming itself, dot-dot, naming its parent, and nothing else |
| `FatCreate.MakeDir` | src/kernel/fs/fs.c:1163-1254 | the new directory is in place, or FAT and all contents are as before; no cluster exactly when none was free, no entry exactly when the parent was full and that cluster the last; in the latter case the FSInfo count ends one too low, at zero |
| `FatDriver.Driver.CreateFile` | src/kernel/fs/fs.c:965-1079 | one empty child in the first free table slot and one entry in the parent's first free slot on disk or in a new cluster, every other node's clusters and bytes untouched; on any error nothing changes; each error code exactly when its cause holds, the I/O error exactly when no slot and no cluster is free |
| `FatDriver.Driver.CreateDir` | src/kernel/fs/fs.c:1081-1255 | the same for a directory holding its dot entries; on error every FAT entry and all contents are as before; each error code exactly when its cause holds |
| `FatDelete.DeleteRec` | src/kernel/fs/fs.c:1472-1496 | removes exactly the node and everything below it, freeing all their clusters and no others |
| `FatDelete.Mark` | src/kernel/fs/fs.c:1519-1540 | marks the named entry deleted and changes nothing else in the directory |
| `FatDriver.Driver.Delete` | src/kernel/fs/fs.c:1498-1549 | fails exactly when no child has the name; otherwise the first such child's subtree, entry and clusters are gone and every other node keeps its bytes |
| `FatDriver.Driver.Run` | src/kernel/fs/fs.c:965-1549 | any run of create, write and delete, failing calls included, keeps tree, directories, cache and cluster ownership in agreement and goes through states each of which follows from the one before by what its call does, FSInfo's count included |
| `FatDriver.CountAlong` | src/kernel/fs/fs.c:113-1255 | over every run from an unknown or exact FSInfo count it stays unknown, exact or one short, and it is one short exactly when a directory creation has forgotten its cluster and a cluster was free all the time since |
| `FatStart.MissOne` | src/kernel/fs/fs.c:1163-1254 | a run that gets there: sixteen files fill the root's cluster, one of them is written into all free clusters but one, and the directory creation that follows fails with one cluster free and a count of zero |
| `FatLoad.ReadEntries` | src/kernel/fs/fs.c:217-299 | the kept entries before the end of the directory, in order |
| `FatLoad.ReloadsChildren` | src/kernel/fs/fs.c:339-365 | where tree and disk agree, a reload reads exactly the children, each once and in the order of their slots: entries have distinct names, each matches a child, and each child is matched by exactly one |
| `FatReload.LoadDirectory` | src/kernel/fs/fs.c:339-365 | the recursive load of a directory of a driver in agreement describes each of its children once, with kind, size, first cluster, short name and the name that is shown as, and theirs down to the leaves; no directory is cut off by the table's size |
| `FatReload.EntryFrom` | src/kernel/fs/fs.c:316-337 | the entry read back says of the node what the directory entry says |
| `FatReload.RunAndLoad` | src/kernel/fs/fs.c:339-365 | so after any run a load from disk rebuilds the tree in memory, names as shown |
| `FatName.ParseShort` | src/kernel/fs/fs.c:198-215 | the name a reload shows: the short name's stem up to its first space, and the extension after a dot if there is one |
| `FatName.ShownExactly` | src/kernel/fs/fs.c:198-215 | two short names without a dot in the stem show as the same name if and only if they agree up to the first space of each field |
| `FatName.ShownApart` | src/kernel/fs/fs.c:198-215 | so names padded only at the end of their fields show apart |
| `FatName.ShownCollide` | src/kernel/fs/fs.c:431-486 | the formatter keeps spaces, so the names a b and a c get different short names that a reload shows as one |
| `FatFormat.SizeFat` | src/kernel/fs/fs.c:602-618 | for 64 to 2^28 sectors the table's size in closed form; it is at most one entry short of the cluster count, and short exactly when the disk is 31 sectors more than a multiple of 129 |
| `FatFormat.Format` | src/kernel/fs/fs.c:574-666 | on the built-in disk size a table of 508 sectors covers every one of 64996 clusters; entries 0 and 1 are set, every other entry is zero, the root's own included, and the root sector is clear |
| `FatFormat.RootHandedOut` | src/kernel/fs/fs.c:113-157 | for some hint the allocator hands out the root cluster if and only if the root's entry is zero |
| `FatFormat.FormatThenAllocate` | src/kernel/fs/fs.c:650-665 | after a format the first allocation is the root cluster |
| `FatStart.FormatMarkRun` | src/kernel/fs/fs.c:574-666 | once the root's entry is marked end-of-chain, a formatted disk starts every run in agreement, with the cached table still equal to the one on disk and FSInfo's count unknown, exact or one short as said above |
| `UvmModel.MergeExact` | src/kernel/core/uvm.c:114-119 | remapping a mapped page gives the OR of both protections if and only if execution is not being added to a page that lacks it |
| `UvmModel.Commit` | src/kernel/core/uvm.c:80-102 | tracks exactly the old pages and the new range, in one new or grown region of that protection, the others unchanged; or, with a full table, what it tracked before |
| `UvmModel.CutExact` | src/kernel/core/uvm.c:166-176 | after an unmap a region tracks its pages outside the hole, less the tail behind a hole in its middle |
| `UvmModel.CutAll` | src/kernel/core/uvm.c:166-176 | applies that cut to every region |
| `Uvm.MapSound` | src/kernel/core/uvm.c:127-143 | mapping a free frame keeps each frame behind at most one page |
| `Uvm.UnmapSound` | src/kernel/core/uvm.c:157-163 | an unmapped page's frame was allocated, is mapped by no other page and may be freed |
| `Uvm.Kernel.AllocFrame` | src/kernel/core/uvm.c:127-128 | some frame of the pool, or none when it is empty |
| `Uvm.Kernel.FreeFrame` | src/kernel/core/uvm.c:134-137 | only for an allocated frame that no page maps, so nothing is freed twice or while mapped |
| `Uvm.Kernel.MapPages` | src/kernel/core/uvm.c:112-145 | succeeds if and only if the pool has a frame for each page of the range that has none; then old pages keep frame and bytes and new ones are zero; otherwise it stops at the one page before which the range lacked exactly as many pages as the pool had frames, all pages of the range before it are gone and their frames are in the pool |
| `Uvm.Kernel.MapRange` | src/kernel/core/uvm.c:104-150 | that, with the range tracked on success, and no other address space affected; an empty range is refused and nothing changes |
| `Uvm.Kernel.UnmapRange` | src/kernel/core/uvm.c:152-178 | exactly the range is unmapped, exactly its frames are freed, regions are cut |
| `Uvm.Kernel.CheckRange` | src/kernel/core/uvm.c:203-221 | true exactly when every page is tracked and mapped |
| `Uvm.Kernel.ChangeProt` | src/kernel/core/uvm.c:180-201 | succeeds exactly on usable ranges; then their pages have the new protection and the same frames |
| `Uvm.Kernel.MmapAnon` | src/kernel/core/uvm.c:223-243 | succeeds if and only if the length is not zero, the range lies in the arena and the pool has a frame for each page without one; then a page-aligned range, all mapped, zeroed when fixed, above the old cursor otherwise; a failed fixed call has unmapped its range, a failed other call has at most raised the cursor and rolled back; other address spaces untouched |
| `Uvm.RemapNeeds` | src/kernel/core/uvm.c:226-232 | a fixed mapping that unmaps its range first needs no more free frames than the range is short of |
| `Uvm.MapTracked` | src/kernel/core/uvm.c:147-147 | after a successful map every tracked page is mapped |
| `Uvm.UnmapTracked` | src/kernel/core/uvm.c:152-178 | after an unmap every tracked page is mapped |
| `Uvm.RollbackTracked` | src/kernel/core/uvm.c:129-141 | a map that runs out of frames keeps tracked pages mapped if and only if, before the call, every tracked page of the range lay past as many unmapped pages as the pool had frames |
| `Uvm.BelowStop` | src/kernel/core/uvm.c:127-141 | a page of the range lies before the stop exactly when the unmapped pages up to it are no more than the frames |
| `UvmRun.RollbackLoses` | src/kernel/core/uvm.c:104-150 | two calls that get there: with one frame in the pool, map a page, then a two-page range that starts with it; the page is tracked and no longer mapped |
| `UvmFork.Release` | src/kernel/core/uvm.c:247-267 | exactly the tracked pages are unmapped and their frames freed; nothing is tracked afterwards |
| `UvmFork.Fork` | src/kernel/core/uvm.c:276-328 | succeeds if and only if the pool holds a frame for every page of every region; then the child has exactly the parent's tracked pages, byte for byte, overlapping regions included, with the write bit but never the no-execute bit; the frames taken beyond the child's pages are lost, none if and only if no mapped page is in two regions; a failed fork leaves the child exactly the untracked pages of the region it stopped in; all other address spaces are untouched |
| `UvmFork.CopiesExact` | src/kernel/core/uvm.c:283-306 | forking copies a page once for each region it lies in, so one copy for each page exactly when no page lies in two |
| `UvmFork.LostCount` | src/kernel/core/uvm.c:292-306 | the frames no page maps are as many as were taken beyond one for each page of the child |
| `UvmFork.DropLost` | src/kernel/core/uvm.c:294-298 | releasing the child returns the frames of the pages it drops and loses no more |
| `UvmFork.ForkAndRead` | src/kernel/core/uvm.c:276-328 | a usable range reads the same in parent and child after the fork |
| `UvmFork.WriteUser` | src/kernel/core/uvm.c:41-58 | overwrites the bytes up to the first unmapped page and no other byte of any process |
| `UvmFork.ReadUser` | src/kernel/core/uvm.c:61-77 | the bytes up to the first unmapped page |
| `UvmFork.WriteManyRead` | src/kernel/core/uvm.c:41-77 | any writes to one process leave what another reads unchanged |
| `UvmRun.Run` | src/kernel/core/uvm.c:80-328 | every run of map, unmap, protect, mmap, fork, release and write keeps each frame behind at most one page and out of the pool while mapped, and goes through states each of which follows from the one before by what its call does |
| `UvmRun.TrackedStep` | src/kernel/core/uvm.c:80-328 | a call keeps every tracked page of every process mapped if and only if it is safe, which is a condition on the state before it: only a map or an mmap whose rollback reaches a tracked page is not |
| `UvmRun.RunTracked` | src/kernel/core/uvm.c:80-328 | over every run, tracked pages are mapped throughout if and only if they were at the start and every call was safe |
| `UvmRun.LostStepHolds` | src/kernel/core/uvm.c:80-328 | the frames that are neither in the pool nor behind a page stay the same in every call but a fork, which adds exactly its double copies |
| `UvmRun.ReleaseLeaves` | src/kernel/core/uvm.c:247-267 | in any run a release of a process leaves exactly its mapped but untracked pages mapped, and until a later call on that process these and no other pages stay mapped there, their frames out of the pool |
| `UvmRun.ApartNoDoubles` | src/kernel/core/uvm.c:276-328 | a fork of a process no mapped page of which lies in two regions adds none |
| `Elf.Scan` | src/kernel/core/elf.c:126-139 | accepts exactly images whose interpreter entries are in range, and finds the lowest segment's address |
| `Elf.TableInside` | src/kernel/core/elf.c:110-118 | a header the loader accepts has its program-header table inside the image if and only if the 64-bit sum of table offset and size does not wrap |
| `Elf.WrappingHeader` | src/kernel/core/elf.c:110-118 | a 64-byte image whose header is accepted although its table lies outside the image |
| `Elf.Place` | src/kernel/core/elf.c:141-152 | the load bias, a function of the image and the forced base; Format exactly for a bad interpreter entry, Layout exactly for a fixed image below the arena or with a forced base |
| `Elf.PlacedLowest` | src/kernel/core/elf.c:141-152 | under that bias a fixed image stays at its linked address, above the arena's start, and a movable one's lowest segment starts on the page of the chosen base |
| `Elf.LoadMap` | src/kernel/core/elf.c:172-172 | mapping a further segment keeps what is loaded, and its new pages are zero |
| `Elf.LoadCopy` | src/kernel/core/elf.c:73-90 | copying a segment's bytes loads it and disturbs no other, shared pages included |
| `Elf.NewPagesStep` | src/kernel/core/elf.c:154-183 | mapping one more segment takes a frame for each of its pages that no earlier segment and no old mapping has |
| `Elf.CopySegment` | src/kernel/core/elf.c:73-90 | copies the file bytes to their addresses and nothing else; fails exactly when one of these addresses is unmapped |
| `Elf.LoadSegment` | src/kernel/core/elf.c:155-183 | a segment with a bad file range is refused, one for which the pool is too small fails to map, and a loaded one is mapped and holds its bytes without disturbing the earlier ones |
| `Elf.LoadSegments` | src/kernel/core/elf.c:154-183 | succeeds, for segments no longer in the file than in memory, if and only if every file range is in the image and the pool has a frame for each new page of the union of the segments; then all are loaded and the image ends at the page-aligned end of its highest segment; otherwise it gave up at one segment, whose file range is bad or whose pages could not all be mapped or copied, and the earlier ones stay mapped |
| `Elf.ImageExact` | src/kernel/core/elf.c:154-183 | each segment's memory is its file bytes followed by zeros |
| `Elf.FindPhdrs` | src/kernel/core/elf.c:189-203 | the address of the program headers through the first segment whose file range holds them; fails exactly when none does |
| `Elf.LoadAt` | src/kernel/core/elf.c:106-214 | succeeds if and only if headers, interpreter entries, placement, file ranges, header table and frame count all allow it; then the break is the page-aligned end of the highest segment, and, for separate segments on unmapped pages, every segment is exact and the header table is in memory at the reported address; a failed load leaves the page table as it was, with all segments, or with those before the one at which it gave up and what that one's map left; no other process is affected |
| `Elf.LoadInterp` | src/kernel/core/elf.c:100-104 | refuses a base that is zero or not page-aligned, else loads there under the same conditions and leaves the same behind |
| `FdTable.SlotFilled` | src/kernel/core/file.c:97-101 | filling an empty slot adds one slot to that file and none to others |
| `FdTable.TableDropped` | src/kernel/core/file.c:179-183 | dropping a table takes its slots from every file |
| `FdTable.Unref` | src/kernel/core/file.c:82-90 | giving back a reference keeps the counts right; a file released at zero is named by no slot |
| `FdTable.CountExact` | src/kernel/core/file.c:66-184 | a file's count is at least its live slots, and equal exactly when no reference to it was lost |
| `FdTable.FdLayer.FileNew` | src/kernel/core/file.c:66-75 | a new file with one reference in hand |
| `FdTable.FdLayer.FileRef` | src/kernel/core/file.c:77-80 | one reference more, in hand |
| `FdTable.FdLayer.FileClose` | src/kernel/core/file.c:82-90 | one reference less; released exactly at zero |
| `FdTable.FdLayer.Install` | src/kernel/core/file.c:94-104 | the lowest free slot, or -1 with every slot in use |
| `FdTable.FdLayer.OpenFile` | src/kernel/core/lnxvfs.c:118-130 | the new file in the lowest free slot; or, without a table or a free slot, closed again and everything as before |
| `FdTable.FdLayer.FileAt` | src/kernel/core/file.c:106-111 | the file in a slot; a non-null one is open |
| `FdTable.FdLayer.Close` | src/kernel/core/file.c:113-121 | clears exactly that slot and drops one reference; EBADF exactly for an empty or bad slot |
| `FdTable.FdLayer.Dup` | src/kernel/core/file.c:123-127 | the lowest free slot names the same file; a full table loses one reference and changes no slot |
| `FdTable.FdLayer.Dup2` | src/kernel/core/file.c:129-139 | the target slot names the file, whatever it held; nothing changes for equal or bad descriptors |
| `FdTable.FdLayer.Init` | src/kernel/core/file.c:141-152 | a table held once, with three terminals in slots 0 to 2 |
| `FdTable.FdLayer.Fork` | src/kernel/core/file.c:155-163 | the child's own table names the same files |
| `FdTable.FdLayer.Share` | src/kernel/core/file.c:166-170 | both processes hold one table, its count one higher; nothing changes when the parent has none |
| `FdTable.FdLayer.Exit` | src/kernel/core/file.c:174-184 | the last holder drops the table and closes its files; otherwise only the count falls |
| `FdTable.FdLayer.Run` | src/kernel/core/file.c:66-184 | every run goes through states each of which follows from the one before by what its call does, each with a table's count equal to its holders, a file's count equal to its slots plus lost references, and no slot naming a released file; the references lost to a file are exactly the dups of it that met a full table |
| `FdTable.LostCounted` | src/kernel/core/file.c:123-127 | over every run the references lost to a file grow by one for each dup of it on a full table and by nothing else |
| `FdTable.Leftovers` | src/kernel/core/file.c:82-184 | once no process holds a table, the files still open are exactly those with a lost reference |
| `FdTable.LeftOpen` | src/kernel/core/file.c:66-184 | so after a run from empty tables in which every process exits, a file is still open if and only if some dup of it met a full table |

## Left out

- Ext2Driver.Ext2.WriteFile: takes data shorter than 4 GiB and assumes that free blocks hold zeros, as a zeroed device and every modelled operation keep it; without that, `AdoptExactly` says when each pointer block it takes keeps ownership
- Ext2Stale.StaleIndirect: the thirteenth block is written by the primitives in the order of the write loop, since `WriteBlocks` past the direct blocks requires zero free blocks
- Ext2Mkfs.Probe: group counts of 2^31 and more, which the C code truncates, are refused
- Ext2Mkfs.Mkfs: the buffer for group descriptors is uninitialised in the code and a parameter here; descriptors are written block by block; the checks that the device is not mounted are not modelled
- Ext2Driver.Ext2.MapBlock: past the direct blocks free blocks must hold zeros, as in `WriteFile`
- Ext2Driver.Ext2.WriteBlocks: the same
- Ext2Run.Run: writes take data shorter than 4 GiB and free blocks hold zeros at the start, as in `WriteFile`
- Ext2Load.LoadDir: one directory level, without the recursion over subdirectories; a name that runs past the end of its block is clipped there, which the code does not check
- FatFormat.Format: the bytes of the boot sector are a parameter
- FatVolume.Volume.WriteEntry: entries beyond the table are not written; the allocator and the drivers never ask for one
- FatVolume.Volume.FreeChain: chains are followed inside the table; an entry that points outside it is not modelled
- FatDelete.DeleteRec: a dying node's child table is dropped at once rather than cleared slot by slot
- FatLoad.ReadEntries: the second pass of the reader; the first only counts
- Uvm.Kernel.MapRange: address arithmetic that would wrap past 2^64 is excluded, here and in the other range calls; regions are kept in pages
- Uvm.Kernel.CheckRange: walks the process's own page table, where the code walks the current one; they are the same when a process checks its own memory
- Elf.LoadAt: segments are taken to end inside the canonical user range and the sum of table offset and size not to wrap, a case `TableInside` describes; page protections after loading and the interpreter's name are not modelled
- Elf.Place: segments are taken to end inside the canonical user range, as in `LoadAt`
- Elf.LoadInterp: the same as `LoadAt`
- FdTable.FdLayer.Exit: the table leaves the map before its files are closed one by one
- FdTable.FdLayer.FileClose: the close operation of a file kind is not modelled, only that it runs at zero
- Device I/O errors and failed kernel allocations: every sector read or write and every `kmalloc` succeeds
- Block sizes above 1 KiB in the ext2 write path, triple indirection (the code refuses it) and hard links
- Path resolution, the in-memory and mounted backends of the file tree, and the copy-on-write overlay of a read-only root
- Page-table frames, the supervisor identity map and huge pages: a page table is a map from page numbers to entries
- The scheduler, drivers, network stack, shell and system-call layer, which would mostly add independent members
