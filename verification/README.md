# A verified model of the Luma3DS storage, crypto and kernel-extension core

Luma3DS is custom firmware for the Nintendo 3DS. This project models the parts of it that compute: the FAT
filesystem (FatFs, in the configuration that is compiled), the in-place decompressor of code modules, the AES
driver and the encrypted NAND partition on top of it, the page-table pass of the kernel extension, its session
table, and the smaller algorithms for searching, checksums and option text. To verify:

    dafny verify dfyconfig.toml

Operations that the program carries out step by step on memory are methods on classes and arrays with the same
loops. Each is proved against a specification on values, and the properties are lemmas about that.

- **FAT volume.** `FatLayout` has the geometry and the packed entries of 12, 16 and 32 bits, `FatWindow` the
  filesystem object with its one-sector window: the *view* is the medium overlaid by the window, and the table is an
  array of entries of it. `FatMount` finds the volume on a drive and derives the geometry
  from its boot sector; `FatFormat` says the same byte by byte, makes such sectors, and shows that mounting inverts
  that. `FatChains` says when a table is a
  *forest* (no two entries with the same successor, no cycle, no link to a free cluster); `FatAlloc` has the
  operations that allocate and free.
- **Files.** `FatContent` defines the contents of a file as the bytes of its chain cut at the size, `FatFileState` an open
  file as a value with its dirty buffer overlaid, and what every operation keeps; `FatFile` has the class `FIL` with
  f_write, f_read, f_lseek and f_truncate, and `FatRuns` has runs of calls on any number of open files.
- **Directories.** `LongNames` has the pieces of a long name, `NumberedNames` the short names made for it, `Directories` the
  search, the listing and the registration on a table of entries, `DirTables` that table on the volume, and `DirObject`
  the class `DIR`, which walks over the clusters and stretches them. `PatternMatch` is the wildcard matcher on UTF-8
  strings, `Utf` has the characters. `VolumeRuns` has runs of calls on files and directories together.
- **Decompression.** `Lzss` decodes backwards in place, against a recursive decoder into memory of its own.
- **Cipher.** `Aes` has counters, layouts and modes over an arbitrary block cipher, `AesFifo` the driver and the engine as a
  machine with steps in any order, `AesDriver` the loops, `CtrNand` the partition as an array of plain words.
- **Kernel extension.** `Mmu` has the two-level tables, `Sessions` the sorted session table.
- **Algorithms.** `Memsearch`, `Crc` with `Bitwise`, `Options` and `KeyCombos`.

Bytes and 32-bit words are bounded integers with wrap-around written out where the code relies on it; page-table
descriptors are bit vectors. Device operations succeed.

## Model

| member | source | states |
|---|---|---|
| FatLayout.ReadEntry12 | arm9/source/fatfs/ff.c:1178-1185 | an entry of 12 bits is the odd or even half of the two bytes from c + c / 2 on, which may lie in two sectors; both are inside the FAT |
| FatLayout.Put12 | arm9/source/fatfs/ff.c:1252-1264 | after the two byte stores for entry c, that entry reads as the value cut to 12 bits and every other entry as before, the one that shares a byte included |
| FatLayout.Put16 | arm9/source/fatfs/ff.c:1266-1271 | the same for 16 bits |
| FatLayout.Put32 | arm9/source/fatfs/ff.c:1273-1284 | the same for 32 bits, of which 28 are the value |
| FatLayout.PutEntries12 | arm9/source/fatfs/ff.c:1252-1264 | on the table as an array, the stores are one update at c; no byte outside the FAT is touched |
| FatLayout.PutEntries32 | arm9/source/fatfs/ff.c:1273-1284 | the same on FAT32, and the upper four bits of every entry stay as they were |
| FatLayout.EndMarkEnds | arm9/source/fatfs/ff.c:1239-1288 | the end-of-chain mark, cut to the width of an entry, is never below the number of entries, so never taken for a link |
| FatLayout.ClustersDisjoint | arm9/source/fatfs/ff.c:1144-1152 | the sectors of different clusters do not overlap, and none lies in front of the data area |
| FatWindow.FATFS.SyncWindow | arm9/source/fatfs/ff.c:1055-1073 | writing the window back changes no sector of the view, leaves the medium equal to it outside the second FAT, and keeps the two FAT copies equal |
| FatWindow.FATFS.MoveWindow | arm9/source/fatfs/ff.c:1077-1098 | any other sector may be brought into the window: the view outside the second FAT stays, the window holds the sector as the view had it, equal FAT copies stay equal |
| FatWindow.FATFS.GetFat | arm9/source/fatfs/ff.c:1161-1229 | the entry as the array of entries has it, on all three FAT widths, or 1 outside; nothing in the view changes |
| FatWindow.FATFS.PutFat | arm9/source/fatfs/ff.c:1239-1288 | the array of entries is updated at one place, with the value cut to the width, whatever is in the window; data sectors, reserved bits and equality of the copies are kept |
| FatWindow.FATFS.SyncFs | arm9/source/fatfs/ff.c:1108-1134 | afterwards nothing is pending: the medium is the view with the FSInfo sector brought up to date, the table stays if that sector is in front of the FATs, equal copies stay equal, and where FSInfo is in use mounting the medium would give exactly the counts |
| FatWindow.FsInfoRoundTrip | arm9/source/fatfs/ff.c:3564-3587 | the free count and the allocation hint that sync_fs stores are those the next mount loads |
| FatWindow.FrontKeepsInfo | arm9/source/fatfs/ff.c:1117-1128 | the law of FSInfo: either an update is due, or the boot and FSInfo sectors give exactly the free count and the hint; it stays when the sectors in front of the FATs do and every change of the two is noted |
| FatWindow.FsInfoSparesFat | arm9/source/fatfs/ff.c:1117-1128 | sync_fs leaves the table of a FAT32 volume as it is, for all contents and counts, exactly when the sector after the boot sector lies in front of the first FAT |
| FatMount.OneBitIsPower | arm9/source/fatfs/ff.c:3522-3523 | the bit test of the cluster size accepts exactly the powers of two |
| FatMount.MountGeometry | arm9/source/fatfs/ff.c:3512-3561 | if the FAT branch succeeds, every entry lies in its FAT, the FATs in front of the clusters and all clusters on the volume exactly when the sizes in the boot sector do not overflow 32 bits; which geometry it is, FatFormat.MountExactly tells |
| FatMount.RootDirBetween | arm9/source/fatfs/ff.c:3525-3560 | without overflow, the root directory of a FAT12 or FAT16 volume fills the sectors between the FATs and the clusters |
| FatMount.FsInfoOverFat | arm9/source/fatfs/ff.c:1117-1128 | the FSInfo sector as sync_fs writes it, read as the first sector of a FAT32 table, has 0 in entry 2, whatever the counts |
| FatFormat.MountExactly | arm9/source/fatfs/ff.c:3500-3561 | without overflow, the FAT branch of mount_volume yields a geometry exactly when the boot sector describes it: every field, 16 and 32 bits wide, by its bytes, the root cluster of FAT32 included, the type by the number of clusters, and sums that do not wrap |
| FatFormat.RecognisedExactly | arm9/source/fatfs/ff.c:3291-3325 | check_fs takes a sector for a boot sector exactly by these bytes |
| FatFormat.FoundExactly | arm9/source/fatfs/ff.c:3331-3376 | find_volume finds sector 0 if that is a boot sector, else the start, by its four bytes in the partition table, of the first partition that begins with one |
| FatFormat.MountsExactly | arm9/source/fatfs/ff.c:3291-3561 | mounting a medium gives a geometry exactly when the volume that is found on it has a boot sector that describes it |
| FatFormat.WrittenDescribes | arm9/source/fatfs/ff.c:3500-3561 | the boot sector that is written for a geometry describes it, with 16-bit and 32-bit size fields |
| FatFormat.MadeIsMounted | arm9/source/fatfs/ff.c:3291-3561 | mounting inverts making a volume: a medium that begins with that sector is mounted with just that geometry |
| FatFormat.MadeIsMountedInPartition | arm9/source/fatfs/ff.c:3331-3561 | the same behind a partition table, in any of the four partitions |
| FatFormat.CountsExactly | arm9/source/fatfs/ff.c:3564-3587 | the counts and the flag after mounting, by the bytes of the boot and the FSInfo sector |
| FatFormat.FsInfoExactly | arm9/source/fatfs/ff.c:1117-1128 | the FSInfo sector that is written has the two marks, the signature and the counts at their bytes and zeros elsewhere |
| FatFormat.EntryBytes12 | arm9/source/fatfs/ff.c:1178-1185 | two entries of 12 bits are the halves of three bytes |
| FatFormat.EntryNumbers | arm9/source/fatfs/ff.c:1187-1195 | entries of 16 and 32 bits are numbers, lowest byte first; the upper four bits of the latter are not read |
| FatFormat.EndMarkIs | arm9/source/fatfs/ff.c:1239-1288 | 0xFFFFFFFF is stored as 0xFFF, 0xFFFF and 0x0FFFFFFF |
| FatChains.ChainNoRepeat | arm9/source/fatfs/ff.c:1453-1486 | a chain that ends visits no cluster twice |
| FatChains.ChainsMeet | arm9/source/fatfs/ff.c:1453-1486 | two chains that share a cluster have the same rest |
| FatChains.RemoveFromChain | arm9/source/fatfs/ff.c:1453-1486 | the walk of remove_chain, which goes by the entries it is zeroing, frees exactly the chain |
| FatChains.RemoveChainForest | arm9/source/fatfs/ff.c:1429-1515 | remove_chain, of a whole chain or of a tail behind a named cluster, frees exactly that chain, adds its length to the free clusters and leaves a forest |
| FatChains.LinkedForest | arm9/source/fatfs/ff.c:1600-1603 | marking a free cluster as an end and linking a chain's end to it keeps the forest |
| FatChains.RemoveWholeChain | arm9/source/fatfs/ff.c:1445-1486 | removing from a cluster without naming its predecessor keeps the forest exactly when no entry links to that cluster |
| FatAlloc.Clst2Sect | arm9/source/fatfs/ff.c:1144-1152 | the 32-bit computation yields the first sector of the cluster, and 0 exactly for numbers that are no cluster |
| FatAlloc.WalkAndFree | arm9/source/fatfs/ff.c:1453-1486 | the loop terminates on every table, cyclic ones too, frees what the walk meets, and keeps a trusted free count right |
| FatAlloc.RemoveChain | arm9/source/fatfs/ff.c:1429-1515 | the resulting table and result code for every argument; data sectors and equal copies are kept, and so is a right free count, whose changes are noted for sync_fs |
| FatAlloc.FindFree | arm9/source/fatfs/ff.c:1586-1599 | the wrap-around search terminates from every start; 0 means no entry is free, and a cluster is the first free one in circular order |
| FatAlloc.PickCluster | arm9/source/fatfs/ff.c:1574-1599 | the allocation policy: the cluster next to the one that is stretched if it is free, else the first free one of the circular search |
| FatAlloc.CreateChain | arm9/source/fatfs/ff.c:1524-1615 | the outcome for every entry of the cluster: an existing link is followed, a free cluster is linked, or the table stays; a right free count stays right and a known one known, and every change of the count or the hint is noted for sync_fs |
| FatAlloc.CreateChainFails | arm9/source/fatfs/ff.c:1534-1599 | in a forest create_chain never returns 1, and returns 0 exactly when the chain ends there and the count is 0 or nothing is free; for a trusted count exactly when nothing is free |
| FatAlloc.CreateChainForest | arm9/source/fatfs/ff.c:1524-1615 | create_chain, new or stretching, keeps the forest |
| FatContent.ContentWrite | arm9/source/fatfs/ff.c:4072-4096 | writing whole sectors straight to the medium overwrites exactly the corresponding bytes of the file |
| FatContent.FileBytePlace | arm9/source/fatfs/ff.c:3939-3968 | byte i of a file is at byte i % 512 of sector i / 512 % csize of cluster number i / 512 / csize of its chain, clusters counting from 2 at the start of the data area |
| FatContent.OverwriteSlices | arm9/source/fatfs/ff.c:4039-4121 | writing two consecutive slices one after the other is writing both at once |
| FatFileState.EvolvesTrans | arm9/source/fatfs/ff.c:4014-4126 | what each step of writing or seeking keeps is kept by steps in a row |
| FatFileState.StartHere | arm9/source/fatfs/ff.c:4521-4526 | the shortcut of f_lseek: the current cluster is the one that starts at the rounded-down position before fptr, so the walk may start there |
| FatFileState.LimitIs | arm9/source/fatfs/ff.c:4034-4037 | the 32-bit test lets f_write write as many bytes as end at position 0xFFFFFFFF or before |
| FatFileState.TruncateForest | arm9/source/fatfs/ff.c:4912-4953 | cutting a file keeps the forest; cutting it to nothing does if nothing links to its first cluster |
| FatFileState.OtherFile | arm9/source/fatfs/ff.c:4014-4126 | whatever read, write and seek do to one file, a file with other clusters keeps its chain and every byte |
| FatFileState.ConfinedObject | arm9/source/fatfs/ff.c:4912-4953 | a change confined to one file's clusters, as truncating is, leaves another open file consistent and its contents, the unwritten buffer included, as they are |
| FatFileState.OtherObject | arm9/source/fatfs/ff.c:4014-4126 | the same for reading, writing and seeking, with the clusters the file grew by |
| FatFile.WriteBeside | arm9/source/fatfs/ff.c:4014-4126 | two open files of a volume: writing to one leaves the other valid with its contents, unwritten bytes included, and the two apart, so that this goes on over any number of writes |
| FatRuns.StepGrow | arm9/source/fatfs/ff.c:3914-4588 | one read, write or seek on one of any number of open files does to it what it should and leaves every other file valid with its contents, and all of them apart |
| FatRuns.StepCut | arm9/source/fatfs/ff.c:4912-4953 | the same for f_truncate; the files are together again if the buffer still holds a sector of its file |
| FatRuns.FreedExactly | arm9/source/fatfs/ff.c:4912-4953 | after f_truncate the sector in the buffer is not the file's any more exactly when its cluster is free |
| FatRuns.Run | arm9/source/fatfs/ff.c:3914-4953 | any run of reads, writes, seeks and truncations on any number of open files, up to the first truncation that leaves a foreign sector in the buffer: the history of what the users see is that of each call alone |
| FatFileState.TruncateSector | arm9/source/fatfs/ff.c:4912-4953 | after truncating, the sector in the buffer is still one of the file exactly when its cluster is kept |
| FatFile.FIL.constructor | arm9/source/fatfs/ff.c:3855-3866 | an object opened on a chain that covers the size is consistent, stands at 0 and contains the bytes of the chain |
| FatFile.FIL.Stretch | arm9/source/fatfs/ff.c:4043-4062 | create_chain from an open file: the chain is as before or one free cluster longer, the contents stay, 0 means the volume is full |
| FatFile.FIL.Write | arm9/source/fatfs/ff.c:4014-4126 | the contents are those before, overwritten or extended at fptr by the first bw bytes, on any result; all bytes up to the 32-bit limit unless the volume is full; in a forest the result is FR_OK; consistency, table and free count are kept |
| FatFile.FIL.Read | arm9/source/fatfs/ff.c:3914-4004 | exactly the next bytes of the contents, as many as asked for or left; contents and table stay, the dirty buffer counting as contents |
| FatFile.FIL.Walk | arm9/source/fatfs/ff.c:4539-4567 | the walk over the chain ends in the cluster of the target, or right behind the last cluster with the volume full, or on an invalid entry |
| FatFile.FIL.Lseek | arm9/source/fatfs/ff.c:4433-4588 | afterwards fptr is the offset, clipped to the size when reading, or the end of the clusters when the volume fills up; clust is the cluster of the byte before fptr; old contents stay; in a forest the result is FR_OK |
| FatFile.FIL.Truncate | arm9/source/fatfs/ff.c:4912-4953 | exactly the first fptr bytes are left, exactly the clusters behind are freed, and changes are confined to the file's own clusters; the forest and the free count are kept |
| LongNames.PutLfn | arm9/source/fatfs/ff.c:1959-1984 | the 32 bytes become the ord-th piece of the name, with terminator, filler, last-entry flag and checksum; no other byte changes |
| LongNames.PieceIsBytes | arm9/source/fatfs/ff.c:1959-1984 | the ord-th piece of a name is one sequence of 32 bytes: order, characters low byte first at their three places, attribute 0x0F, checksum, zeros |
| LongNames.SumRotates | arm9/source/fatfs/ff.c:2053-2065 | each further byte of a short name turns the checksum, by its bits, one to the right and is added to it |
| LongNames.SumOfAbc | arm9/source/fatfs/ff.c:2053-2065 | the checksum of ABC.TXT is 0xD1 |
| LongNames.PickPiece | arm9/source/fatfs/ff.c:1921-1950 | pick_lfn accepts every such piece and stores exactly its part of the name |
| LongNames.CmpPiece | arm9/source/fatfs/ff.c:1885-1913 | cmp_lfn accepts a piece exactly when its part of the stored name is that of the buffer up to case |
| Directories.FindPieces | arm9/source/fatfs/ff.c:2431-2440 | over the pieces of a block, from any state, dir_find counts down and remembers the block exactly as long as all pieces agree |
| Directories.FindBlock | arm9/source/fatfs/ff.c:2384-2455 | at a block dir_find stops exactly when the long name is the wanted one up to case or the short name is the wanted one, and otherwise goes on behind the block |
| Directories.FindItems | arm9/source/fatfs/ff.c:2384-2455 | on every table of files, labels, deleted entries and long-name entries that belong to no object, dir_find is a search in that list |
| Directories.ReadBlock | arm9/source/fatfs/ff.c:2306-2374 | the entries of a block are accepted by dir_read in any state, and the name is back in the buffer |
| Directories.ReadItems | arm9/source/fatfs/ff.c:2306-2374 | on every such table dir_read from any item on gives the next file or directory that is no dot entry, with its long name |
| Directories.WrittenElsewhere | arm9/source/fatfs/ff.c:2306-2455 | a block of entries given by its bytes, for Abcdefghijklm.txt with the short name ABC.TXT and checksum 0xD1, is read with its long name and found by it |
| LongNames.PickAccepts | arm9/source/fatfs/ff.c:1921-1950 | whether pick_lfn accepts an entry does not depend on what is in the buffer |
| LongNames.CmpAccepts | arm9/source/fatfs/ff.c:1885-1950 | what cmp_lfn accepts, for whatever name, pick_lfn accepts, if the order byte is one that counts down to 0 |
| Directories.KeepsExactly | arm9/source/fatfs/ff.c:2306-2560 | a short name registered without a long one is there under its own name only, for dir_read coming from the object before it and for dir_find, exactly when no long-name entries that pick_lfn accepts wait for its checksum right before its place |
| Directories.OwnNameInDirectory | arm9/source/fatfs/ff.c:2306-2560 | the same for every directory, with an object, or the start of the table, to come from |
| Directories.AdoptedIsFound | arm9/source/fatfs/ff.c:2306-2560 | otherwise dir_read gives it the name of those entries, and dir_find stops at it for that name, unless it stops somewhere before |
| DirTables.SectorsApart | arm9/source/fatfs/ff.c:1697-1738 | the table of a directory, in its clusters or in the root directory area, never has the same device sector twice |
| DirTables.AreaEntryPlace | arm9/source/fatfs/ff.c:1706-1738 | entry k of the root directory area is the 32 bytes from 32 * (k % 16) on in its sector k / 16 |
| DirTables.EntryPlace | arm9/source/fatfs/ff.c:1714-1738 | entry k of any other directory is there in sector k / 16 of its clusters |
| DirTables.EntryWritten | arm9/source/fatfs/ff.c:2544-2556 | a change of 32 bytes in the window is a change of one entry of the table |
| DirTables.EntriesGrow | arm9/source/fatfs/ff.c:1658-1687 | a cleared cluster at the end of the chain adds unused entries to the table and changes no other |
| DirObject.DirClear | arm9/source/fatfs/ff.c:1658-1687 | exactly the sectors of the cluster become zeros, through the window, and the window is at the first of them |
| DirObject.DIR.Follow | arm9/source/fatfs/ff.c:1714-1729 | the walk along the chain ends in the cluster that holds the entry, or reports exactly the entries behind the end of the chain |
| DirObject.DIR.Sdi | arm9/source/fatfs/ff.c:1697-1738 | goes to exactly the entry asked for, and fails exactly for those the table does not have, on directories in clusters and in the root area; nothing changes |
| DirObject.DIR.Stretch | arm9/source/fatfs/ff.c:1768-1782 | the chain gets one cluster that was free and the table unused entries at its end; 0 means a full volume, 1 an invalid allocation table; all else on the volume stays |
| DirObject.DIR.Next | arm9/source/fatfs/ff.c:1745-1795 | goes to the next entry over sector and cluster boundaries, or says that there is none; with stretching the end is reached only in the root area, at 65536 entries, or on a full volume |
| DirObject.DIR.Find | arm9/source/fatfs/ff.c:2384-2455 | the loop over the sectors of the directory: the result, the entry and the start of its block are those of the search that the lemmas, those on entries given by their bytes included, are about; nothing changes |
| DirObject.DIR.Read | arm9/source/fatfs/ff.c:2306-2374 | the same for dir_read, with the name buffer and the end of the directory |
| DirObject.DIR.Alloc | arm9/source/fatfs/ff.c:1806-1837 | the first run of n free entries of the table, stretched by unused ones if need be, is reserved; denial means that there is none and that the table cannot grow |
| NumberedNames.AttemptsApart | arm9/source/fatfs/ff.c:1996-2043 | for every name, the short names with the numbers up to 5 are all different, and so are those with the hashes |
| NumberedNames.NumberedApart | arm9/source/fatfs/ff.c:2025-2043 | two numbers make the same short name only if they are equal, wherever the body is cut for the suffix |
| NumberedNames.ShiftIs | arm9/source/fatfs/ff.c:2013-2019 | a step of the hash is one of the remainder modulo x^16 + x^12 + x^5 + 1 |
| NumberedNames.FirstAttempts | arm9/source/fatfs/ff.c:2024-2042 | the first five names for ABCDEFGH.TXT are ABCDEF~1.TXT to ABCDEF~5.TXT |
| NumberedNames.GenNumname | arm9/source/fatfs/ff.c:1996-2043 | the loops over hash, digits and suffix give the short name the lemmas are about |
| NumberedNames.AllTakenIsLarge | arm9/source/fatfs/ff.c:2511-2522 | registration runs out of numbered names only in a directory of 94 objects or more |
| DirObject.DIR.NumberName | arm9/source/fatfs/ff.c:2511-2522 | the short name becomes the first of the 99 attempts that no entry has, with the flags as before; it is denied exactly when all 99 are taken |
| DirObject.DIR.Register | arm9/source/fatfs/ff.c:2465-2560 | on success the table, perhaps stretched, is as before except that the pieces of the name, last first, and the short entry, all of its 32 bytes, stand in the reserved run; on denial it has at most been stretched and the reason holds; all else on the volume stays |
| DirObject.DIR.Create | arm9/source/fatfs/ff.c:3753-3763 | a name that is not found is registered and then found at its entry; the directory then has all objects it had and the new one, no two of the same name, if no long-name entries wait for a short name without a long one; all else on the volume stays |
| DirObject.FileBeside | arm9/source/fatfs/ff.c:2465-2560 | whatever is done to a directory, an open file with other clusters stays consistent with its contents, unwritten bytes included |
| VolumeRuns.DirStays | arm9/source/fatfs/ff.c:2384-2560 | whatever is done to a file, a directory with other clusters keeps its chain and its table |
| VolumeRuns.FileGrows | arm9/source/fatfs/ff.c:3914-4588 | one read, write or seek leaves all directories and all other files as they are |
| VolumeRuns.FileCut | arm9/source/fatfs/ff.c:4912-4953 | so does one truncation |
| VolumeRuns.DirCalled | arm9/source/fatfs/ff.c:2306-2560 | one lookup, listing or creation does to its directory what it should and leaves all other directories and all files as they are |
| VolumeRuns.Run | arm9/source/fatfs/ff.c:2306-4953 | any run of calls on any number of files and directories, up to the first truncation that leaves a foreign sector in the buffer: the history of what the users see is that of each call alone; equal FAT copies, a right free count and the law of FSInfo are kept |
| VolumeRuns.RunThenSync | arm9/source/fatfs/ff.c:1108-4953 | after any such run and a sync_fs the next mount takes over exactly the allocation hint and the free count, and this is the number of free entries, if it was known and right and FSInfo in use before; the FAT copies are equal if they were |
| VolumeRuns.RunKeepsDistinct | arm9/source/fatfs/ff.c:2306-4953 | over every such run the names of every directory stay distinct, if no short name without a long one is put behind long-name entries that wait for it |
| Directories.RegisterKeeps | arm9/source/fatfs/ff.c:2465-2560 | registering gives again a well-formed directory: the new object takes the place of deleted entries or stands at the end, all others stay in order; for a short name without a long one, if no long-name entries wait for it |
| Directories.RegisteredIsFound | arm9/source/fatfs/ff.c:2465-2560 | a name that was not found is found after registering, at the entry written, also behind long-name entries that wait for it; dir_read gives a long name back |
| Directories.RegisterKeepsDistinct | arm9/source/fatfs/ff.c:2465-2560 | creating a name after not finding it keeps all short names and, up to case, all long names of the directory distinct; for a short name without a long one, if no long-name entries wait for it |
| PatternMatch.GetAchar | arm9/source/fatfs/ff.c:2762-2790 | the next character folded, or 0 at the terminator and at bytes that are no UTF-8 |
| PatternMatch.RawWild | arm9/source/fatfs/ff.c:2815-2824 | testing a byte for the wildcards is testing the character that starts there |
| PatternMatch.PatternMatch | arm9/source/fatfs/ff.c:2793-2837 | the nested loops over byte strings compute Found on their characters; in particular the early end of the search loses no match |
| PatternMatch.FoundMeans | arm9/source/fatfs/ff.c:2793-2837 | Found holds exactly when the pattern, with every wildcard term replaced by what its 9-bit count stands for, matches and has few enough terms |
| PatternMatch.MatcherIsRight | arm9/source/fatfs/ff.c:2793-2837 | with fewer than 256 question marks a term, the result is 1 exactly when the name matches and the terms are no more than the limit |
| PatternMatch.RightExactlyWhenSmall | arm9/source/fatfs/ff.c:2806-2834 | the matcher is right on all names, and on all names that are not empty, exactly for the patterns without a term of 256 question marks or more |
| PatternMatch.SearchOnBytes | arm9/source/fatfs/ff.c:4729-4746 | for encoded patterns and names, f_findnext's call finds exactly the matches of patterns with up to four terms |
| Utf.ReadChar | arm9/source/fatfs/ff.c:736-801 | the loop over the trailing bytes gives the decoding that the round-trip lemmas are about |
| Utf.RoundTrip | arm9/source/fatfs/ff.c:736-886 | what put_utf stores for any character, surrogate pairs included, tchar2uni reads back inside any string, and stops right behind it |
| Utf.KnownEncodings | arm9/source/fatfs/ff.c:826-858 | A, an e with an accent and the euro sign become 41, C3 A9 and E2 82 AC |
| Utf.KnownPair | arm9/source/fatfs/ff.c:826-858 | the pair D83D DE00 becomes F0 9F 98 80 |
| Utf.ReadBack | arm9/source/fatfs/ff.c:753-775 | what tchar2uni accepts is a proper character, and its encoding is what was read exactly when that was not over-long |
| Lzss.LzssDecompress | arm9/source/firm.c:267-331 | decompressing inside the buffer gives, below the top, the bytes that the recursive decoder gives into memory of its own, and changes nothing else; what a stream means to the decoder, Lzss.ParsesBack tells |
| Lzss.TokenBack | arm9/source/firm.c:301-317 | a literal or a reference is read back from its bytes: for a reference (len - 3) * 16 + (off - 2) / 256 and (off - 2) % 256, the first one on top |
| Lzss.ParsesBack | arm9/source/firm.c:287-329 | every list of literals and references, packed with a flag byte for each eight of them, is what the decoder reads |
| Lzss.Unpacks | arm9/source/firm.c:267-331 | every list of tokens whose references hit written bytes, made into a module with its trailer, is unpacked in place to just the output of the tokens, and memory below is left alone |
| Lzss.UnpacksLiterals | arm9/source/firm.c:267-331 | any bytes packed as literals come out, the first one packed on top |
| Lzss.FarReference | arm9/source/firm.c:301-317 | the bytes 0x34 and 0x12 are the reference by 0x237 places for four bytes, and 36, 35, 34, 33 come out for it below 600 counted bytes |
| Lzss.CopyBackAt | arm9/source/firm.c:301-317 | a back reference repeats the output off + 1 places further on, also where it overlaps what it is writing |
| Lzss.StaysInMemory | arm9/source/firm.c:287-329 | a write cursor that is never below the read cursor never leaves the buffer |
| Lzss.BelowUntouchedIff | arm9/source/firm.c:267-331 | nothing below the compressed start is written exactly when the lengths of all tokens add up to no more than the bytes from that start to the top |
| Lzss.BelowUntouched | arm9/source/firm.c:267-331 | then memory below the start and from the top on is byte for byte as before |
| Lzss.CompleteFits | arm9/source/firm.c:267-331 | that is so for every stream whose tokens lie inside the compressed bytes |
| Aes.AdvCtr | arm9/source/crypto.c:157-182 | adds modulo 2^128 to the value the four words stand for, in all four layouts |
| Aes.ValueOfBytes | arm9/source/crypto.c:157-182 | the value of a counter in data order is the number that its sixteen bytes in memory write, the first one highest |
| Aes.OtherLayouts | arm9/source/crypto.c:184-204 | in the other three layouts the bytes of each word, the words, or both are in the other order |
| Aes.ChangeCtrMode | arm9/source/crypto.c:184-204 | the new layout stands for the same value |
| Aes.TwoShots | arm9/source/crypto.c:246-279 | two passes, the second going on from the chaining value of the first, are one pass over all blocks, also with the result below an overlapping source |
| Aes.PassAndBack | arm9/source/crypto.c:239-280 | a pass in place and one with the inverse mode restore the data, for CTR, CBC and ECB |
| Aes.ChainIsCipherBlock | arm9/source/crypto.c:239-280 | in CBC each block is combined with the cipher block before it, as section 6.2 of NIST SP 800-38A asks |
| AesFifo.RunInv | arm9/source/crypto.c:206-237 | in every state of every interleaving of driver and engine no FIFO is overfilled or read empty and blocks come out in order |
| AesFifo.RunIsShort | arm9/source/crypto.c:206-237 | every run ends within 17 steps a block |
| AesFifo.NotStuck | arm9/source/crypto.c:206-237 | driver and engine never wait for each other |
| AesFifo.RunResult | arm9/source/crypto.c:206-237 | every run that cannot go on has put the one-shot result into memory, also when it lies in or below the source |
| AesDriver.Engine.AesBatch | arm9/source/crypto.c:206-237 | the polling loop gives the one-shot result whatever the engine does between two polls |
| AesDriver.Engine.AesRound | arm9/source/crypto.c:249-274 | after a batch the iv stands for the counter or chaining value of the next one, in every mode, also if the source was overwritten |
| AesDriver.Engine.AesPass | arm9/source/crypto.c:239-280 | batches of up to 0xFFFF blocks give the one-shot result for any length |
| CtrNand.Nand.Read | arm9/source/crypto.c:370-391 | the sectors, decrypted from the counter of the first one; nothing else of the buffer changes |
| CtrNand.Nand.Write | arm9/source/crypto.c:393-418 | the sectors on the device become the encrypted data as of one transfer, whatever the split into 0x4000 bytes; nothing else changes |
| CtrNand.CryptSplit | arm9/source/crypto.c:404-415 | encrypting in parts with advanced counters is encrypting at once |
| CtrNand.ReadsPlain | arm9/source/crypto.c:370-391 | below 4 GiB a read gives that part of one plain array, sectors counting from the start of the partition |
| CtrNand.EmuReadsPlain | arm9/source/crypto.c:370-391 | the emulated NAND is the image of a NAND from emuOffset sectors on: below 4 GiB a read gives that part of the plain array of that image |
| CtrNand.WritesPlain | arm9/source/crypto.c:393-418 | below 4 GiB a write puts the data into that array and changes nothing else of it |
| CtrNand.SameCounter | arm9/source/crypto.c:374 | two transfers cover a block with the same counter exactly when they start in the same 4 GiB of the device |
| CtrNand.ReadAfterWrite | arm9/source/crypto.c:370-418 | on the NAND what a call writes the same call reads back, wherever it lies |
| CtrNand.ReadsBackIffSysNand | arm9/source/crypto.c:370-418 | reading back what was written works for all data exactly when the partition is the one on the NAND |
| Mmu.PageTables.RwxForAll | k11_extension/source/mmu.c:32-100 | the loops over both levels, a shared second-level table being done more than once, give the tables the lemmas are about |
| Mmu.PageTables.GetPAFromVA | k11_extension/source/mmu.c:102-160 | the walk gives the physical address of the tables as a value, 0 where nothing is mapped; which one it is, Mmu.FrameAndOffset tells |
| Mmu.FrameAndOffset | k11_extension/source/mmu.c:102-160 | an address is mapped exactly if its descriptor maps some bytes, and then goes to d / size * size + va % size for the sizes of small pages, large pages, sections and supersections, without a carry; all others go to 0 |
| Mmu.IndexNumbers | k11_extension/source/mmu.c:106-138 | the descriptor is found at va / 0x100000 and va / 0x1000 % 256, the second table at d / 0x400 % 0x200000 |
| Mmu.SameDistance | k11_extension/source/mmu.c:102-160 | two addresses of one frame under the same descriptor differ physically by what they differ virtually |
| Mmu.SamePage | k11_extension/source/mmu.c:102-160 | so do any two addresses of the same 4 KB |
| Mmu.PageTables.GetAddressUserPerm | k11_extension/source/mmu.c:162-238 | the walk gives the user rights of the tables as a value; which ones these are, Mmu.RightsOfDescriptor tells |
| Mmu.RightsOfDescriptor | k11_extension/source/mmu.c:162-238 | the user may read if the access field is 2 or 3, write if it is 3 and the descriptor is not read-only, and execute if he may read and the bit against it is 0, by the places of the fields in all four kinds of descriptor |
| Mmu.PassKeepsTranslation | k11_extension/source/mmu.c:32-160 | the pass changes no descriptor type and no physical address, for every address |
| Mmu.PassWrites | k11_extension/source/mmu.c:32-100 | each descriptor that maps memory gets access 3 and zeros in the other two fields; all other bits, and all other descriptors, stay |
| Mmu.PassSparesRest | k11_extension/source/mmu.c:32-100 | descriptors for addresses from 0x40000000 on stay, those of the second level if no entry below leads to their table |
| Mmu.PassGivesRights | k11_extension/source/mmu.c:32-238 | after the pass the rights are 7 at every mapped user address and 0 at every other |
| Mmu.PassTwice | k11_extension/source/mmu.c:32-100 | a second pass changes nothing |
| Memsearch.NoneSkipped | arm9/source/memory.c:43-54 | moving on by the table entry of the byte under the end of the pattern skips no occurrence |
| Memsearch.MemSearch | arm9/source/memory.c:34-56 | the first occurrence, and nowhere exactly when there is none |
| Sessions.SessionTable.FindClosestSlot | k11_extension/source/ipc.c:39-61 | the binary search terminates with the number of sessions below the given one |
| Sessions.SessionTable.LookUp | k11_extension/source/ipc.c:63-79 | a stored session whose object is hooked gives its own entry |
| Sessions.SessionTable.Add | k11_extension/source/ipc.c:100-135 | shifting and inserting in place gives the table of the specification |
| Sessions.SessionTable.Remove | k11_extension/source/ipc.c:137-165 | shifting and clearing in place gives the table of the specification |
| Sessions.AddMeans | k11_extension/source/ipc.c:100-135 | the table stays strictly sorted, and as a map it gains the session unless it is stored or the table is full |
| Sessions.StoredTells | k11_extension/source/ipc.c:131 | names without zeros are stored alike exactly if their first twelve characters are alike |
| Sessions.RemoveMeans | k11_extension/source/ipc.c:137-165 | the table stays sorted and loses the session at the bound, unless it is full or the bound is its end |
| Sessions.RunsAreRight | k11_extension/source/ipc.c:39-165 | over every run of Add and of Remove of stored sessions in which no call finds the table full, it is sorted and stands for the map it should |
| Sessions.DestructorRuns | k11_extension/source/ipc.c:168-183 | as long as the table has not been full, removing from the destructor hook only makes every run one of these, and the stored sessions are the hooked ones |
| Sessions.LookupIsRight | k11_extension/source/ipc.c:63-79 | looking up gives what the map says exactly when the session is stored or above all stored ones |
| Sessions.RemoveIsRight | k11_extension/source/ipc.c:137-165 | removing takes out the session and nothing else exactly when, in a table with room, it is stored or above all stored ones, and in a full table, it is not stored |
| Crc.BitsXor | arm9/source/utils.c:161-211 | the bit-by-bit step is linear over exclusive or |
| Crc.TableStep | arm9/source/utils.c:179-183 | eight bits at once are the shift and the table entry of the low byte |
| Crc.MakeTable | arm9/source/utils.c:165-177 | the nested loops fill the table with the eight-bit step of each byte |
| Crc.Checksum.Run | arm9/source/utils.c:187-208 | the table-driven loop gives the bit-by-bit reflected checksum, for all data and initial values |
| Crc.Checksum.Crc16 | arm9/source/utils.c:161-185 | the same with a register and an initial value of 16 bits and polynomial 0xA001 |
| Crc.Checksum.Crc32 | arm9/source/utils.c:187-211 | the complement of the checksum with polynomial 0xEDB88320 |
| Crc.InParts | arm9/source/utils.c:161-211 | the checksum of a concatenation goes on from the register of the first part |
| Crc.OwnChecksum | arm9/source/utils.c:161-211 | data followed by its own checksum, lowest byte first, brings the register to 0, for both widths and every initial value |
| Crc.Polynomials | arm9/source/utils.c:161-211 | from 0 the byte 0x80 gives 0xA001 and 0xEDB88320 |
| Options.ProcessNumber | arm9/source/fmt.c:84-149 | the loops over padding, prefix, zeros and digits write the text the round trips are about, for every width, precision and flags |
| Options.WidthFilled | arm9/source/fmt.c:84-149 | the text is sign, prefix, zeros up to the precision and digits, and as many characters more as the width asks for: blanks behind, zeros behind sign and prefix, or blanks in front |
| Options.DigitTable | arm9/source/fmt.c:108-113 | the digits are those of 0123456789abcdef, or with capital letters |
| Options.ParseDecInt | arm9/source/config.c:105-137 | the loop with 64-bit wrap-around gives the value the decimal round trip is about |
| Options.ParseHexInt | arm9/source/config.c:220-245 | the loop gives the value the hexadecimal round trip is about, or the error |
| Options.DecRoundTrip | arm9/source/config.c:105-137 | decimal output is read back, for every number, width, precision and flags, exactly when no blank is put in and the text is not a plus alone |
| Options.HexRoundTrip | arm9/source/config.c:220-245 | hexadecimal output is read back, for every 64-bit number, exactly when no blank and no prefix is put in |
| KeyCombos.OnlyKey | arm9/source/config.c:77-86 | no two keys have the same name up to case |
| KeyCombos.ComboToString | arm9/source/config.c:294-310 | the loop writes the names of the keys, the highest bit first, with a plus between them |
| KeyCombos.ParseKeyCombo | arm9/source/config.c:247-292 | the loops over the text and the key names give the set the round trip is about, or the error |
| KeyCombos.ComboRoundTrip | arm9/source/config.c:247-310 | what menuComboToString writes parseKeyComboOption reads back exactly when there are keys and all of them have names |
| KeyCombos.DefaultCombo | arm9/source/config.c:247-310 | bits 9, 7 and 2 are written as L+Down+Select, and that is read as these bits |
| KeyCombos.ButtonNames | arm9/source/config.c:77-86 | the names of the buttons and the touch screen by their bits |
| KeyCombos.StickNames | arm9/source/config.c:77-86 | the names of the directions of the two sticks by their bits |
| FatChains.RemoveNeedsPredecessor | arm9/source/fatfs/ff.c:1445-1486 | witness: freeing the second of two linked clusters by itself leaves a link to a free cluster |
| FatMount.MountWraps | arm9/source/fatfs/ff.c:3514-3549 | witness: a drive whose boot sector has two FATs of 0x80000000 sectors is found and mounted with clusters inside the FATs |
| FatMount.FsInfoHitsFat | arm9/source/fatfs/ff.c:1117-1128 | witness: a drive with one reserved sector and the FSInfo mark is found and mounted, and the sector sync_fs writes frees the cluster of its root directory |
| FatMount.SyncWipesRoot | arm9/source/fatfs/ff.c:1108-1134 | on every mounted volume of this kind with a count to store, sync_fs leaves entry 2 of the table at 0 |
| FatFile.ReadSeekTruncate | arm9/source/fatfs/ff.c:4912-4953 | witness: any file that is read from its start, sought back and truncated is left with a sector in its buffer that is not its own |
| PatternMatch.ManyQuestions | arm9/source/fatfs/ff.c:2817-2824 | witness: 256 question marks are found in the name a |
| Utf.OverLongAccepted | arm9/source/fatfs/ff.c:768-773 | witness: three bytes are read as U+0080 |
| Lzss.BelowByTwo | arm9/source/firm.c:267-331 | if anything below the start is written, it is at most the two bytes right below it, and only those that the last token was read from |
| Lzss.BelowOverwritten | arm9/source/firm.c:267-331 | witness: cursors and references are in order, and the byte below the compressed start is overwritten |
| Lzss.TwoOverwritten | arm9/source/firm.c:267-331 | witness: both of these bytes are overwritten |
| Directories.LooseAdopted | arm9/source/fatfs/ff.c:2465-2560 | a short name registered right behind the pieces of a long name with its checksum is read with that long name |
| Directories.AdoptsA | arm9/source/fatfs/ff.c:2465-2560 | witness: behind a lone piece of the name a with its checksum, a new short name is read as a |
| CtrNand.EmuNandReadsOther | arm9/source/crypto.c:370-418 | witness, for every cipher: zeros are written, and ones are read from the SD card |
| CtrNand.CounterWraps | arm9/source/crypto.c:374 | witness: the first block behind 4 GiB has two counters |
| Sessions.FullKeepsDestroyed | k11_extension/source/ipc.c:137-165 | witness: after 345 sessions are added, a destroyed one stays in the table |
| Sessions.FullForever | k11_extension/source/ipc.c:100-165 | once the table is full, no run of calls changes it |
| Sessions.OtherSession | k11_extension/source/ipc.c:63-79 | witness: with session 5 stored alone, looking up 3 gives the entry of 5 |
| Options.NotReadBack | arm9/source/fmt.c:84-149 | witness: 5 with a width of 2, and 5 in hexadecimal with a prefix, are not read |
| KeyCombos.NotReadBack | arm9/source/config.c:247-310 | witness: the combination of bit 12 alone, which has no name, and the empty one are not read |

## Findings

Where the code does not do what it is for on all inputs: what it does, an input that shows it (a lemma at that input),
and the exact condition under which the intended property holds (a lemma with both directions). Each row is a property
of the code as it is written.

| source | as written | input that shows it | intended, and exactly when it is so |
|---|---|---|---|
| arm9/source/fatfs/ff.c:3514-3549 | the sizes in the boot sector are added up in 32 bits, and the sum may wrap around | `FatMount.MountWraps`: a drive with a recognised boot sector that has two FATs of 0x80000000 sectors is mounted, and the clusters lie inside them | FATs, entries and clusters lie where they belong: exactly if the true sum is below 2^32 (`FatMount.MountGeometry`) |
| arm9/source/fatfs/ff.c:1117-1128 | the FSInfo sector is written behind the boot sector, whatever the number of reserved sectors | `FatMount.FsInfoHitsFat`: on a drive with one reserved sector that is mounted it is the first sector of the FAT, and the entry of the root directory's cluster becomes 0; `FatMount.SyncWipesRoot`: so it is after every sync_fs with a count to store | sync_fs leaves the table alone: exactly if that sector lies in front of the FAT (`FatWindow.FsInfoSparesFat`) |
| arm9/source/fatfs/ff.c:1445-1486 | a chain is removed without a look at what links to it | `FatChains.RemoveNeedsPredecessor`: cluster 2 links to 3, and 3 is removed without naming 2 | the table stays a forest: without a named predecessor, exactly if nothing links to the first cluster (`FatChains.RemoveWholeChain`) |
| arm9/source/fatfs/ff.c:4912-4953 | f_truncate leaves the sector buffer as it is, also when the cluster of its sector is freed and may go to another file | `FatFile.ReadSeekTruncate`: any file read from its start, sought back to 0 and truncated | the buffer holds a sector of the file: exactly if the cluster of that sector is kept, that is, begins before the position (`FatFileState.TruncateSector`); opening, reading, writing and seeking always keep this |
| arm9/source/fatfs/ff.c:2465-2560 | a short entry is put where there is room, also right behind long-name entries that have lost theirs | `Directories.AdoptsA`: behind a lone piece of the name a with its checksum, the new name is read as a (`Directories.LooseAdopted` for every name) | the new entry is found and read under its own name only: exactly if no long-name entries that pick_lfn accepts wait for its checksum right before it (`Directories.KeepsExactly`); it is found under its own name in any case (`Directories.RegisteredIsFound`), and names with entries of their own take over nothing (`Directories.RegisterKeeps`) |
| arm9/source/fatfs/ff.c:2806-2834 | the number of question marks is kept in the low byte, and a carry into bit 8 passes for a star | `PatternMatch.ManyQuestions`: 256 question marks are found in the name a | the wildcards have their usual meaning on every name: exactly if no term has 256 question marks or more (`PatternMatch.RightExactlyWhenSmall`) |
| arm9/source/fatfs/ff.c:757-774 | over-long sequences of three and four bytes are accepted | `Utf.OverLongAccepted`: E0 82 80 is read as U+0080 | only what section 3 of RFC 3629 allows is accepted: exactly if the sequence is not over-long (`Utf.ReadBack`) |
| arm9/source/firm.c:292-328 | a token is read whole even if it begins right above the compressed start, and its length is not looked at | `Lzss.BelowOverwritten`: with cursors and references in order, the byte below the start becomes a 2 | memory below the compressed bytes is left alone: exactly if the lengths of the tokens add up to no more than the bytes from the start to the top (`Lzss.BelowUntouchedIff`); if not, at most two bytes below them are hit (`Lzss.BelowByTwo`, `Lzss.TwoOverwritten`) |
| arm9/source/crypto.c:370-418 | reading goes to the SD card where the NAND is emulated, writing to the NAND always | `CtrNand.EmuNandReadsOther`: zeros are written and ones read, with every cipher | what is written is read back: exactly if the partition is on the NAND itself (`CtrNand.ReadsBackIffSysNand`) |
| arm9/source/crypto.c:374 | the byte offset that the counter starts from is taken in 32 bits | `CtrNand.CounterWraps`: the first block behind 4 GiB has two counters | the key stream depends on the place on the device only: exactly if the transfers start in the same 4 GiB (`CtrNand.SameCounter`) |
| k11_extension/source/ipc.c:69-73 | the entry at the bound is taken without a look at its session | `Sessions.OtherSession`: with session 5 stored alone, looking up 3 gives its entry | Lookup gives the entry of the session or none: exactly if the session is stored or above all stored ones (`Sessions.LookupIsRight`) |
| k11_extension/source/ipc.c:137-165 | the same, and nothing is removed from a full table | `Sessions.FullKeepsDestroyed`: after 345 sessions have been added, a destroyed one stays | Remove takes out the session and nothing else: in a table with room exactly if it is stored or above all stored ones, in a full one exactly if it is not stored (`Sessions.RemoveIsRight`) |
| arm9/source/fmt.c:84-149 | blanks are put in front or behind, or for a sign | `Options.NotReadBack`: 5 in a width of 2 | decimal output is read back: exactly if no blank is put in and the text is not a plus alone (`Options.DecRoundTrip`) |
| arm9/source/fmt.c:84-149 | the prefix 0x is put in front | `Options.NotReadBack`: 5 with a prefix | hexadecimal output is read back: exactly if neither a blank nor a prefix is put in (`Options.HexRoundTrip`) |
| arm9/source/config.c:247-310 | keys without a name are written as a question mark, and no key as an empty text | `KeyCombos.NotReadBack`: bit 12 alone, and no bit | a combination is read back: exactly if it is not empty and every key in it has a name (`KeyCombos.ComboRoundTrip`) |

Which of these calls can happen: Lookup is called for every session a request is sent on
(k11_extension/source/svc/SendSyncRequest.c:56), so for sessions that are not stored. Remove is called only from
the destructor hook (ipc.c:168-172) of sessions that Add has hooked. As long as the table has not been full such
a session is stored (`Sessions.DestructorRuns`), so the case of an unstored session in a table with room does not
happen; the full table is what remains, and from then on the table never changes again (`Sessions.FullForever`).

## Left out

- FatFile.FIL.Truncate: does not promise that the sector buffer keeps a sector of the file, for the reason under Findings; `FatFileState.OtherObject`, `FatFileState.ConfinedObject` and `FatFile.WriteBeside` ask for that as a condition.
- FatFile.FIL.constructor: opening is modelled from the point where the directory entry has told cluster and size; paths, creation, modes and seeking to the end on opening are not.
- FatFile.FIL.Lseek: the 32-bit offset of this build only, without the fast-seek table, which is not compiled.
- DirObject.DIR.Register: names that are a dot entry or empty are refused before this by the code and are not passed here; the time stamps, the size and the cluster that f_open stores in the entry afterwards are not modelled.
- DirObject.DIR.Create: of f_open only the lookup and the registration of the last part of a path; the attributes of an entry that is found, modes and share control are not modelled.
- DirObject.DIR.Find: case folding is any function that folds only the terminator to 0.
- NumberedNames.GenNumname: code page 437 of this build has no double-byte characters, so the test for them is left out.
- FatMount.FindVolume: the four entries of the partition table; GUID partition tables, which this build does not compile, are not modelled.
- FatRuns.Run: goes on until a truncation leaves a foreign sector in the buffer, and says nothing of calls after that.
- VolumeRuns.Run: one object for each directory and each file; removing and renaming (f_unlink, f_rename), which free and rewrite entries, are not among the calls. What create_name makes of a path is a parameter of a call.
- PatternMatch.PatternMatch: case folding is any function that folds only the terminator to 0.
- Utf.ReadChar: the UTF-8 interface of this build; conversion to code pages is not modelled.
- AesDriver.Engine.AesBatch: the engine is any sequence of block steps between two polls; its registers, key slots and the CCM modes are not modelled, and the block cipher is any function.
- CtrNand.Nand.Read: sectors that are on the device; what an access behind its end does is not modelled, nor is the limit on the number of sectors a single device call takes.
- Mmu.PageTables.RwxForAll: the tables are separate arrays that do not overlap; physical-to-virtual address conversion of a table pointer is a lookup, and cache maintenance is not modelled.
- Sessions.SessionTable.LookUp: the method tables and reference counts of kernel objects are not modelled; which sessions are hooked is a parameter. The lock around the table is not modelled.
- Options.ProcessNumber: the least 64-bit number with a sign is not covered, since the code negates it, which is undefined.
- Options.ParseDecInt: signed overflow is taken to wrap around, which the language leaves undefined.
- KeyCombos.ComboToString: a combination is the set of its bits.
- Memsearch.MemSearch: patterns of at least one byte and no longer than the text; the code has no answer for others.
- Device failures: every read and write of a device succeeds, so FR_DISK_ERR does not occur. The code ignores some failures (ff.c:1066, ff.c:1126).
- File locks, re-entrancy, exFAT, 64-bit sector numbers, labels, f_mkfs, f_expand and the other parts of FatFs that this build does not compile.
- create_name and get_fileinfo: how a short name is made from a path and shown, and code pages, are not part of this model.
- Reading and writing the time stamps and the size in directory entries (f_sync, f_close).
- Fixed-point option text (parseDecFloatOption, encodedFloatToString), which is not a round trip in the code.
- Firmware patching, boot flow, menus, screens, PIN, exception dumps and the other user-interface and device code.
- Locking primitives and process control of the kernel extension.
