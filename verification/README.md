# MyOS2: models and proofs

MyOS2 is a kernel in the style of Linux with its own UEFI loader and initial programs. This project
models its most intricate parts in Dafny and proves what they keep over every input, every run or
every reachable state. Each part is a set of modules:

- **Calendar** (`calendar.dfy`): multiply-and-shift day-to-date conversion and the Gauss date-to-seconds
  formula, against a calendar that only knows month lengths and turns pages.
- **FAT32** (`fat_chains.dfy`, `fat_disk.dfy`, `fat_copy.dfy`, `fat_entry.dfy`, `fat_alloc.dfy`,
  `fat_write.dfy`, `fat_data.dfy`, `fat_volume.dfy`, `fat_leak.dfy`, `long_names.dfy`): cluster chains as
  values, the mirrored table, the data and the directory entries as bytes on disk, what allocation and
  writing do to them, what a write stores, the driver's operations on a mounted volume, a volume that
  leaks and forgets, and long file names.
- **VFS** (`vfs_tree.dfy`, `vfs_path.dfy`, `vfs_mount.dfy`, `vfs_ops.dfy`, `vfs_print.dfy`): dentry and
  mount trees, path walk across mounts, mounting, and printing a path backwards into a buffer.
- **ELF** (`elf_image.dfy`, `elf_load.dfy`, `elf_binary.dfy`): loading PT_LOAD segments with 64-bit
  address arithmetic.
- **printk** (`printk_text.dfy`, `printk_log.dfy`): line tags and the log ring.
- **Completions** (`completion.dfy`): a sleep/wake protocol as atomic steps in any interleaving.
- **Clocksource** (`clocksource.dfy`): fixed-point factors with 32- and 64-bit arithmetic.
- **kobj_map** (`kobj_ranges.dfy`, `kobj_map.dfy`): linked buckets with one shared base node.
- **Memory map** (`memory_map.dfy`): joining and sorting the UEFI memory map.
- **Linked list** (`linked_list.dfy`): counted circular lists on the heap.

Code that changes state in place is modelled by classes, arrays and loops whose contracts tie them to
functions on values; the theorems are about those functions. Machine integers are unbounded integers
with the wrap-around written out.

## Where the code does less than it says

Properties that one might expect and that the code does not have, each with its exact condition:

- Dates are right only while the shifted day number is below 2^30 (`DateExactness`, `TmRoundTrip`),
  weekdays a little longer (`WeekdayExactness`, `WeekdayTurnsNegative`); `mktime64` loses multiples of
  2^32 days beyond (`MktimeIsGauss`).
- A write that starts exactly at the end of a full chain follows the end mark as if it were a cluster.
  When it needs a second round and the word past the table reads as an end mark, it allocates a cluster
  that no file owns and writes past the table (`Write`, `JobTable`, `PastTheTable`, `WriteLeaks`).
- A write that starts before the last cluster never extends the file, and every write puts all its
  data into the cluster it starts in (`Write`, `FinishPour`). All data of a given length is stored exactly when it fits
  into a cluster the file has (`StoresExactly`, `WriteForgets`).
- The rewrite of a directory entry counts its position in entries, while a lookup records it in bytes:
  the entry that gets the new first cluster and size is the file's own exactly when it is the first of
  its directory (`OwnEntryUpdated`).
- The first write to a file puts its data at sector 0 of the disk, which spares the allocation table
  exactly when a cluster fits before it (`SectorZeroSafe`).
- Creating a directory on a full volume returns cluster 0, as if it had one (`AllocNewDir`).
- The cached lookup compares only as many characters as it was asked for, so a name can find a longer
  one, even where no name begins with another (`LookupOwnName`, `NamesChildExact`, `OnlyChildShadows`).
  Printing and walking again is still safe, because full names always lead back (`LookupFullName`).
- A long name of six or more slots is read back as its first 52 characters (`RoundTrip`).
- The comment on completions says that threads are woken in the order they queued; the code takes the
  tail of the list (`WakesTheLast`).
- When no shift passes the overflow test, the factor of shift 1 is returned with shift 0
  (`CalcMultShift`, `NoShiftPasses`).
- A registered interval of about 2^52 numbers or more may be entered in too few buckets
  (`ReachesExactly`, `HugeRangeMissed`). The retry of `kobj_lookup` never asks a second entry unless a
  probe function changed the map.
- A memory map that touches 2^64 can lose address 0 (`CoverageExact`, `LastThenFirst`).
- Adding a node that is already in the list moves it but counts it again (`AddToHead`); an emptied
  list whose count is too high then returns its own anchor (`RemoveHead`).
- The driver writes of a full log buffer leave the buffer unless it starts at slot 0
  (`DriversGetHistory`). The prefix parser takes "<>" for level 0 (`PrefixIsTag`).
- A valid `p_offset` needs no assumption in the ELF loader: `vm_mmap` refuses an offset that is not
  congruent to the address (`OffsetIs`).

## Model

| member | source | states |
|---|---|---|
| `Calendar.Time64ToTm` | mykernel/drivers/rtc/lib.c:55-144 | for every time from 0 to 2^63-1: date and clock are those the naive day-by-day calendar gives for the day the 32-bit arithmetic lands on; the day of year is one more than the pages turned since January 1st of that year; hour, minute and second add up to the second of the day; the weekday is the naive one exactly when `WeekdaySurvives` |
| `Calendar.YearDaysCount` | mykernel/drivers/rtc/lib.c:42-45 | `rtc_year_days` of every valid date is the number of pages turned since January 1st |
| `Calendar.YearDayIs` | mykernel/drivers/rtc/lib.c:130-136 | so turning one page less than the day of year says, from January 1st of the year named, leads to the date named |
| `Calendar.EpochTm` | mykernel/drivers/rtc/lib.c:55-144 | time 0 is Thursday, 1 January 1970, day 1 of the year, midnight |
| `Calendar.WeekdayExactness` | mykernel/drivers/rtc/lib.c:67-68 | the weekday agrees with one that steps from Thursday by one a day if and only if the 32-bit sum has wrapped a multiple of seven times and is not negative, or divisible by seven; so for every day below 2^31-4 |
| `Calendar.WeekdayTurnsNegative` | mykernel/drivers/rtc/lib.c:67-68 | on day 2^31 the weekday is -5 |
| `Calendar.SplitDay` | mykernel/drivers/rtc/lib.c:101-108 | the multiply-and-shift steps give century, year of century and day of a March-based year of that very day |
| `Calendar.ToGregorian` | mykernel/drivers/rtc/lib.c:110-130 | turning a March-based day back into a January-based date; the day of year is one more than `rtc_year_days` of the date counts |
| `Calendar.MulShiftIsDiv` | mykernel/drivers/rtc/lib.c:105-108 | multiplying by 2939745 and keeping the 32-bit halves is exact division by 1461 on every reachable input |
| `Calendar.MonthByMulShift` | mykernel/drivers/rtc/lib.c:110-113 | 2141 * d + 132377 split at bit 16 is the month and the day of the month, for all 366 days |
| `Calendar.DecomposeStep` | mykernel/drivers/rtc/lib.c:99-108 | century, year and day counters advance like a calendar from each day number to the next |
| `Calendar.GregorianStep` | mykernel/drivers/rtc/lib.c:99-130 | the date of day u+1 is the calendar successor of the date of day u |
| `Calendar.DecomposeIsNaive` | mykernel/drivers/rtc/lib.c:99-130 | the closed form is the date reached by turning u calendar pages from 0000-03-01, for every u |
| `Calendar.EpochShift` | mykernel/drivers/rtc/lib.c:80-99 | 719468 pages lead from 0000-03-01 to 1970-01-01, so counting from either end agrees |
| `Calendar.WrapIsDayIndex` | mykernel/drivers/rtc/lib.c:60-100 | four times the 32-bit day number, kept to 32 bits, sees the day number modulo 2^30 and nothing else |
| `Calendar.DateExactness` | mykernel/drivers/rtc/lib.c:55-144 | the conversion names the true day if and only if the shifted day number stays below 2^30, and as long its weekday is right |
| `Calendar.GaussStep` | mykernel/time/time.c:68-86 | the Gauss day count grows by exactly one from each date to the next |
| `Calendar.GaussCountsSteps` | mykernel/time/time.c:68-86 | it counts the pages turned from 0000-03-01, for every day |
| `Calendar.EveryDateIsReached` | mykernel/time/time.c:68-86 | every valid date from 1970 on is reached from the epoch after as many steps as the count says |
| `Calendar.NoDateTwice` | mykernel/drivers/rtc/lib.c:55-144 | no date is named by two day numbers |
| `Calendar.MktimeIsGauss` | mykernel/time/time.c:68-86 | `mktime64` is the Gauss count in seconds less exactly the multiples of 2^32 days its 32-bit `year*365` loses |
| `Calendar.MktimeInRange` | mykernel/time/time.c:68-86 | nothing is lost while the shifted day number is below 2^30 |
| `Calendar.TimeRoundTrip` | mykernel/drivers/rtc/lib.c:55-173 | seconds to broken-down time and back: the result passes `rtc_valid_tm` and returns the same second |
| `Calendar.TmRoundTrip` | mykernel/drivers/rtc/lib.c:150-173 | every valid broken-down time survives the trip to seconds and back if and only if its shifted day number is below 2^30 |
| `FatChains.ChainDistinct` | mykernel/fs/fat/myos_fat32_iobuf.c:21-55 | a chain that ends in an end mark never visits a cluster twice |
| `FatChains.ChainUnique` | mykernel/fs/fat/myos_fat32_iobuf.c:21-55 | the first cluster and the links determine the whole chain |
| `FatChains.FreeIsUnowned` | mykernel/fs/fat/myos_fat32.c:64-87 | a free entry belongs to no file |
| `FatChains.ExtendKeeps` | mykernel/fs/fat/myos_fat32.c:246-259 | appending a free cluster keeps all chains chains, pairwise disjoint and leak-free, and takes exactly that free entry |
| `FatChains.ReleaseKeeps` | mykernel/fs/fat/myos_fat32_iobuf.c:236-269 | freeing a file's chain frees exactly its clusters; every other file, disjointness and leak-freedom stay |
| `FatChains.CreateKeeps` | mykernel/fs/fat/myos_fat32.c:182-202 | a new file without clusters changes none of this |
| `FatChains.RunKeeps` | mykernel/fs/fat/myos_fat32.c:64-103 | over every run of creations, allocations and releases no cluster is shared or leaked |
| `FatChains.OneOwner` | mykernel/fs/fat/myos_fat32.c:64-103 | then a cluster is free, bad, or at exactly one place of exactly one file |
| `FatDisk.WordAfterSet` | mykernel/fs/fat/myos_fat32.c:88-103 | writing one 32-bit little-endian word of a sector changes that word and no other |
| `FatDisk.EntryAfterWrite` | mykernel/fs/fat/myos_fat32.c:88-103 | an entry write replaces 28 bits of one entry and keeps its four reserved bits |
| `FatDisk.WriteEntryTable` | mykernel/fs/fat/myos_fat32.c:88-103 | the table as read back is the old one with that entry changed; a number past the table changes no entry |
| `FatDisk.WriteEntryMirrored` | mykernel/fs/fat/myos_fat32.c:88-103 | all copies of the table stay equal |
| `FatDisk.WriteEntryFrame` | mykernel/fs/fat/myos_fat32.c:88-103 | no sector outside the copies changes |
| `FatDisk.CopyAddress` | mykernel/fs/fat/myos_fat32.c:88-103 | copies of the table do not overlap on disk |
| `FatDisk.ClustersFollow` | mykernel/fs/fat/myos_fat32.c:138-138 | cluster 2 begins at the first data sector, and each next cluster where the one before it ends |
| `FatDisk.CopiesFollow` | mykernel/fs/fat/myos_fat32.c:88-103 | the copies of the table follow one another from its first sector on |
| `FatDisk.WordBytes` | mykernel/fs/fat/myos_fat32.c:35-42 | an entry is read from four bytes, the lowest first |
| `FatDisk.RunByte` | mykernel/fs/fat/myos_fat32.c:135-158 | byte b of the i-th sector is byte 512 i + b of the run |
| `FatCopy.PouredIs` | mykernel/fs/fat/myos_fat32.c:206-261 | copying round and round into one cluster leaves, in each byte, the last of the bytes that fall on it and the old one where none does, and no other contents have that property |
| `FatCopy.OnlyLastStay` | mykernel/fs/fat/myos_fat32.c:206-261 | of more data than a cluster holds exactly the last cluster's worth stays, each byte in its place |
| `FatCopy.PourRound` | mykernel/fs/fat/myos_fat32.c:213-229 | one more round lays the next stretch of the data over the cluster |
| `FatDisk.ContentSlice` | mykernel/fs/fat/myos_fat32.c:111-164 | a byte range of the k-th cluster is that range of the file's contents |
| `FatVolume.Volume.constructor` | mykernel/fs/fat/myos_fat32.c:418-499 | a mounted volume whose inodes name the first cluster of each chain |
| `FatVolume.Volume.ReadFatEntry` | mykernel/fs/fat/myos_fat32.c:35-42 | reads the entry of the table, without the reserved bits |
| `FatVolume.Volume.WriteFatEntry` | mykernel/fs/fat/myos_fat32.c:88-103 | the loop over the copies writes the entry into each of them |
| `FatVolume.Volume.FindAvailableCluster` | mykernel/fs/fat/myos_fat32.c:64-87 | the nested scan returns the lowest free entry, and 0 if and only if there is none |
| `FatVolume.Volume.Grow` | mykernel/fs/fat/myos_fat32.c:246-259 | behind the end of a file the allocation extends that file by the first free cluster; behind anything else it takes a cluster no file owns, and the table leaks |
| `FatAlloc.GrowTail` | mykernel/fs/fat/myos_fat32.c:246-259 | the two entry writes of an append keep chains, mirrors and leak-freedom |
| `FatAlloc.GrowStray` | mykernel/fs/fat/myos_fat32.c:246-259 | the same writes behind a number that is no cluster of a file leave every chain as it was and lose the cluster taken: the table leaks |
| `FatAlloc.PastTheTable` | mykernel/fs/fat/myos_fat32.c:255-256 | which sectors outside the table those writes change: one past each copy, where the word the number stands for becomes the new cluster |
| `FatAlloc.ExtendedTwice` | mykernel/fs/fat/myos_fat32.c:246-259 | growing twice is growing: the file ends in the lowest free clusters in ascending order, every other file is as it was, and exactly those clusters are no longer free |
| `FatAlloc.LowestIsPrefix` | mykernel/fs/fat/myos_fat32.c:64-87 | first fit leaves no choice: of two runs of allocations on one volume one takes the clusters of the other first |
| `FatVolume.Volume.AllocateFirst` | mykernel/fs/fat/myos_fat32.c:182-202 | a file without clusters gets the first free one as its whole chain, after its directory entry was rewritten |
| `FatAlloc.FirstCluster` | mykernel/fs/fat/myos_fat32.c:182-202 | that write keeps chains, mirrors and leak-freedom and takes exactly one free entry |
| `FatVolume.Volume.StartCluster` | mykernel/fs/fat/myos_fat32.c:171-202 | the link loop ends on the cluster at the index, or on the end mark when the index is just past the chain; a file without clusters gets its first |
| `FatWrite.JobStarts` | mykernel/fs/fat/myos_fat32.c:171-204 | position and chain length decide what the loop starts on: the last cluster, an inner one, or a number past the table |
| `FatVolume.Volume.NextCluster` | mykernel/fs/fat/myos_fat32.c:241-259 | one round appends behind the end of the file, stays on an inner cluster, and behind an end mark stays, leaks a cluster, or finds the volume full, each exactly under its condition |
| `FatWrite.KeptNext` | mykernel/fs/fat/myos_fat32.c:241-261 | what every round keeps, by kind of cluster |
| `FatWrite.KeptStore` | mykernel/fs/fat/myos_fat32.c:208-234 | a round's data transfer changes neither the table nor the word past it |
| `FatVolume.Volume.Transfer` | mykernel/fs/fat/myos_fat32.c:208-234 | which sector a round writes and what: the cluster read and overlaid, or the old buffer and the old sector once a cluster was allocated |
| `FatVolume.Volume.WriteRounds` | mykernel/fs/fat/myos_fat32.c:206-261 | the loop ends behind the last byte, before exactly the round whose transfer fails, or on a full volume; a second round is begun exactly when the first transfer succeeds and does not suffice; the sectors of the data then hold, byte by byte, the last of the bytes copied that fall there, and the old byte where none does; a file that grows gets exactly as many clusters as the rounds need |
| `FatVolume.Volume.Write` | mykernel/fs/fat/myos_fat32.c:166-273 | the volume, the value returned, the new position and size, each exactly and for any length and any failing transfer: the table as in JobTable, the value and the number of clusters as in JobResult, the data as in FinishPour, and the directory entry rewritten exactly when the file has a new first cluster or size |
| `FatWrite.JobPour` | mykernel/fs/fat/myos_fat32.c:206-261 | after the rounds byte x of the cluster the position is in is `data[i]` for the last i copied with (position + i) mod the cluster size equal to x, and the old byte where there is no such i; the same at sector 0, over the fresh buffer, for a file without clusters |
| `FatWrite.FinishPour` | mykernel/fs/fat/myos_fat32.c:166-273 | the same after the directory entry was rewritten |
| `FatWrite.StepKeepsData` | mykernel/fs/fat/myos_fat32.c:241-261 | allocating a cluster between two rounds changes nothing of the cluster the data goes to |
| `FatWrite.StrayLoses` | mykernel/fs/fat/myos_fat32.c:246-259 | a write just past the last cluster loses exactly one cluster for each round behind the first, or none when the word past the table is no end mark |
| `FatVolume.Volume.UpdateSize` | mykernel/fs/fat/myos_fat32.c:263-267 | the size becomes the larger of the old one and the position, and the directory entry is rewritten only when that is new |
| `FatVolume.Volume.WriteInode` | mykernel/fs/fat/myos_fat32.c:380-408 | reads the entry's cluster, gives the entry the inode's first cluster and size, and writes the cluster; nothing for the root |
| `FatEntry.WithInodeReads` | mykernel/fs/fat/myos_fat32.c:400-403 | the entry then names exactly that first cluster and size; name, attributes, times and the top four bits stay |
| `FatEntry.OwnEntryUpdated` | mykernel/fs/fat/myos_fat32.c:398-403 | with the position that a lookup records, the fields rewritten are the entry's own, for every cluster, if and only if it is the first entry of the directory: the lookup counts bytes and the rewrite counts entries |
| `FatEntry.RewrittenKeeps` | mykernel/fs/fat/myos_fat32.c:394-407 | rewriting an entry keeps the table and its mirrors and changes no sector outside its cluster |
| `FatWrite.FinishEntry` | mykernel/fs/fat/myos_fat32.c:197-267 | after any write that starts in its file the cluster of the directory entry is as before if first cluster and size are, and else differs in the entry, which names both, also when the entry was rewritten twice |
| `FatWrite.JobTable` | mykernel/fs/fat/myos_fat32.c:206-261 | the table after a write: a write that starts in its file grows it by the lowest free clusters, and only from its last cluster, keeps a clean table clean and changes nothing else on the disk but the cluster of its data and that of its directory entry; for one that starts past the chain an if-and-only-if for staying clean, and it changes no entry but those of clusters taken and the word the end mark stands for |
| `FatWrite.JobResult` | mykernel/fs/fat/myos_fat32.c:191-272 | ENOSPC if and only if the write has to grow the file, or runs on behind an end mark, and comes to the end of the free clusters before a transfer fails; otherwise success if and only if no transfer it takes fails, and EIO; with the new position of each, and with no cluster too many: less than one is unused, or one when the round for it failed |
| `FatData.OthersKeepData` | mykernel/fs/fat/myos_fat32.c:166-273 | a write that starts in its file changes no other file's contents, unless the directory entry lies in it |
| `FatData.DirectoryKeepsRest` | mykernel/fs/fat/myos_fat32.c:166-273 | in the directory that holds the entry at most the first-cluster and size fields of that entry change, and exactly when one of them is new |
| `FatData.StaysInStep` | mykernel/fs/fat/myos_fat32.c:197-267 | a directory entry that names its inode's first cluster and size does so after every write |
| `FatData.RestOfFile` | mykernel/fs/fat/myos_fat32.c:206-261 | every cluster the file has after a write, except the one the position is in, holds what it held before |
| `FatData.OneRoundContent` | mykernel/fs/fat/myos_fat32.c:208-234 | a write within one cluster of its file changes exactly the bytes it names, so reading them gives the data back |
| `FatData.StoresOnlyOld` | mykernel/fs/fat/myos_fat32.c:206-261 | the part of the data behind the cluster the write starts in, and all data of a first write, is read back only if it was on the disk there before |
| `FatData.NotBothStored` | mykernel/fs/fat/myos_fat32.c:206-261 | so of two writes that differ there at most one is stored |
| `FatData.StoresExactly` | mykernel/fs/fat/myos_fat32.c:166-273 | for every volume, position and length: all data of that length is read back if and only if the file has a cluster at the position and the data fits into it |
| `FatDisk.SectorZeroSafe` | mykernel/fs/fat/myos_fat32.c:173-230 | the first write to a file goes to disk sector 0: it leaves the table alone for all data if and only if a cluster fits before the table |
| `FatDisk.StoreKeepsTable` | mykernel/fs/fat/myos_fat32.c:228-229 | a cluster written off the table keeps the table and its mirrors |
| `FatLeak.WriteLeaks` | mykernel/fs/fat/myos_fat32.c:242-258 | a concrete clean volume and write after which a cluster is lost |
| `FatLeak.WriteForgets` | mykernel/fs/fat/myos_fat32.c:206-261 | on that volume a write of two clusters returns success, and the second cluster reads as zeros |
| `FatVolume.Volume.AllocNewDir` | mykernel/fs/fat/myos_dir.c:119-156 | a new directory gets the first free cluster as its whole chain, with its first sector written; without memory, on a full volume or after a failed transfer the value says which; nothing else on the disk changes |
| `FatVolume.Volume.GetClusterChain` | mykernel/fs/fat/myos_fat32_iobuf.c:21-55 | returns the clusters of the file in link order |
| `FatVolume.Volume.IobufInit` | mykernel/fs/fat/myos_fat32_iobuf.c:165-233 | the array holds the file's clusters, last first, none flagged |
| `FatVolume.Volume.IobufRelease` | mykernel/fs/fat/myos_fat32_iobuf.c:236-269 | exactly the entries flagged for deletion become free, no other entry and no sector outside the table changes, and mirrors stay equal |
| `FatAlloc.ReleaseAll` | mykernel/fs/fat/myos_fat32_namei.c:128-135 | flagging every cluster, in any order, is releasing the file |
| `FatVolume.Volume.ReleaseClusters` | mykernel/fs/fat/myos_fat32_namei.c:128-135 | afterwards the file is gone, exactly its clusters are free that were not, nothing outside the table changed, and a clean volume stays clean |
| `FatVolume.Volume.Read` | mykernel/fs/fat/myos_fat32.c:111-164 | returns exactly the bytes from the position to the end of the request or of the file, whichever is first, and advances the position by as much, if and only if no transfer it needs fails; else EIO and exactly the bytes before that transfer |
| `FatVolume.CopyOut` | mykernel/fs/fat/myos_fat32.c:135-158 | the copy loop, from any offset of any cluster, delivers the contents in order up to the round that fails |
| `LongNames.AsciiTo16` | mykernel/fs/fat/namei_vfat.c:127-134 | writes each character as a 16-bit unit and nothing else |
| `LongNames.BuildSlots` | mykernel/fs/fat/namei_vfat.c:158-176 | for every non-empty name the slots are those of section "FAT Long Directory Entries": ids counting down to 1, the first marked, attribute, checksum, zero-filled characters |
| `LongNames.FillSlot` | mykernel/fs/fat/namei_vfat.c:164-174 | the fields of one slot, with the rest of the buffer untouched |
| `LongNames.SlotsCopied` | mykernel/fs/fat/namei_vfat.c:136-176 | slots keep their meaning wherever in a directory they are copied |
| `LongNames.CountBack` | mykernel/fs/fat/myos_dir.c:51-67 | how many slots the parser takes |
| `LongNames.ParseLong` | mykernel/fs/fat/myos_dir.c:51-92 | the parser's loops return the characters of those slots, fillers dropped |
| `LongNames.BackFrom` | mykernel/fs/fat/myos_dir.c:58-67 | over built slots the parser stops behind the marked slot, or before slot 5 when there are more than five |
| `LongNames.NameSpells` | mykernel/fs/fat/myos_dir.c:73-89 | x slots spell the first 13x characters |
| `LongNames.UnitsRead` | mykernel/fs/fat/myos_dir.c:73-89 | units filled up with 0x0000 or 0xffff read as the characters alone |
| `LongNames.RoundTrip` | mykernel/fs/fat/myos_dir.c:51-92 | building then parsing any name without zero bytes returns the name if it has at most 65 characters, else exactly its first 52 |
| `VfsTree.LookupOwnName` | mykernel/fs/vfs/dcache.c:133-151 | a child is found under its own name if and only if no earlier sibling's name begins with it |
| `VfsTree.LookupFullName` | mykernel/fs/vfs/dcache.c:133-151 | whatever shorter name led to a child, its full name leads there too |
| `VfsTree.ShorterNameShadowed` | mykernel/fs/vfs/dcache.c:133-151 | a concrete directory where asking for "a" finds "ab" |
| `VfsTree.PrefixFreeExact` | mykernel/fs/vfs/dcache.c:133-151 | where no name begins with another every name is found exactly |
| `VfsTree.OnlyChildShadows` | mykernel/fs/vfs/dcache.c:133-151 | a prefix-free directory where asking for "a" still finds "ab" |
| `VfsTree.NamesChildExact` | mykernel/fs/vfs/dcache.c:133-151 | the lookup finds a dentry of the very name asked for if and only if there is such a child before every child whose name begins with it |
| `VfsTree.MetIsAsked` | mykernel/fs/vfs/namei.c:429-475 | a walk succeeds and meets exactly the names asked for if and only if every directory on the way names the next component so |
| `VfsTree.WalkUncovered` | mykernel/fs/vfs/namei.c:429-475 | a walk from an uncovered place never ends below a mount |
| `VfsTree.LookupMntIs` | mykernel/fs/vfs/namespace.c:60-88 | the list scan finds a mount if and only if it hangs on that place, so at most one does |
| `VfsTree.ClimbTraverse` | mykernel/fs/vfs/d_path.c:103-150 | crossing stacked mounts downwards is undone by the ascent |
| `VfsTree.ClimbOut` | mykernel/fs/vfs/d_path.c:103-150 | how an ascent through a mount ends: it escapes from a dentry outside the mount, is cut off in a mount attached nowhere, and else goes on below the mount with the same end |
| `VfsTree.StepClimbs` | mykernel/fs/vfs/d_path.c:103-150 | one walked component adds exactly the dentry's name to the ascent |
| `VfsTree.WalkThenClimb` | mykernel/fs/vfs/d_path.c:103-150 | the ascent from wherever a walk ended meets exactly the dentries it stepped on, and walking their names ends at the same place |
| `VfsPath.ComponentsOfPath` | mykernel/fs/vfs/namei.c:478-539 | cutting a printed path gives back the names it was printed from |
| `VfsPath.ComponentsAre` | mykernel/fs/vfs/namei.c:478-539 | for every string, relative, absolute, with repeated or trailing slashes: its components are stretches of it that are not empty, hold no slash and end at a slash or an end on both sides, in order, and every character but the slashes lies in one of them |
| `VfsPath.CutsOnce` | mykernel/fs/vfs/namei.c:478-539 | only one list of components is such a cut |
| `VfsPath.PrintThenWalk` | mykernel/fs/vfs/d_path.c:154-176 | for every walk from the root over any mounts: the printed path walks back to the same place, and is the path walked if and only if every directory on the way has a child of the very name asked for before any child whose name begins with it |
| `VfsPath.PrefixFreeRoundTrip` | mykernel/fs/vfs/d_path.c:154-176 | in prefix-free directories that hold every component the walk succeeds, prints the path walked, and that path leads back |
| `VfsMount.CreateMountKeeps` | mykernel/fs/vfs/namespace.c:166-187 | a mount attached nowhere keeps the mounts a tree |
| `VfsMount.AttachKeeps` | mykernel/fs/vfs/namespace.c:148-155 | attaching a fresh mount to an uncovered place keeps a tree with at most one mount on each place |
| `VfsMount.LookupAfterAttach` | mykernel/fs/vfs/namespace.c:60-88 | afterwards that place holds the new mount and every other place what it held |
| `VfsMount.TraverseAfterAttach` | mykernel/fs/vfs/namei.c:223-242 | traversals that ended at the place end at the new root; all others are unchanged |
| `VfsMount.AddHeadKeeps` | mykernel/fs/vfs/dcache.c:203-216 | `d_alloc` keeps the dentries a tree |
| `VfsMount.LookupAfterAddTail` | mykernel/fs/vfs/namei.c:308-343 | a dentry added by the slow lookup hides nothing |
| `VfsMount.LookupAdded` | mykernel/fs/vfs/namei.c:308-343 | the name just looked up leads to the dentry added for it |
| `VfsMount.WalkAfterAddTail` | mykernel/fs/vfs/namei.c:308-343 | walks that succeeded before a slow lookup end at the same place after it |
| `VfsOps.GrownNext` | mykernel/fs/vfs/namei.c:308-343 | lookups grow the tree only by names that are on disk and were not cached, each found under its name; older dentries keep name, parent and children, in order |
| `VfsOps.MissingAt` | mykernel/fs/vfs/namei.c:429-475 | a component that is neither cached nor on disk in the directory reached makes the lookup fail |
| `VfsOps.Vfs.FindChild` | mykernel/fs/vfs/dcache.c:133-151 | the loop returns the first child whose name begins with the one asked for |
| `VfsOps.Vfs.DAlloc` | mykernel/fs/vfs/dcache.c:203-216 | the new child is found under its name at once |
| `VfsOps.Vfs.LookupSlow` | mykernel/fs/vfs/namei.c:308-343 | adds a dentry behind the others if and only if the name is on disk |
| `VfsOps.Vfs.FindMount` | mykernel/fs/vfs/namespace.c:60-100 | the mount on a place, if any |
| `VfsOps.Vfs.TraverseMounts` | mykernel/fs/vfs/namei.c:223-242 | terminates, at the root of the topmost mount stacked on the place |
| `VfsOps.Vfs.CreateMount` | mykernel/fs/vfs/namespace.c:166-187 | the new mount is attached nowhere |
| `VfsOps.Vfs.Graft` | mykernel/fs/vfs/namespace.c:148-155 | attaches it on top of whatever covers the place |
| `VfsOps.Vfs.NewMount` | mykernel/fs/vfs/namespace.c:501-536 | refused with EBUSY if and only if the same file system already covers the place; otherwise traversals that ended there end at the new root and no other changes |
| `VfsOps.Vfs.BindMount` | mykernel/fs/vfs/namespace.c:428-463 | the same for a bind mount, which is never refused |
| `VfsOps.Vfs.WalkComponent` | mykernel/fs/vfs/namei.c:429-475 | one step of the walk; it fails exactly when neither the cached children nor the disk have the name, and changes the tree only by the dentry a failed cached lookup adds |
| `VfsOps.Vfs.LinkPathWalk` | mykernel/fs/vfs/namei.c:478-539 | walks all components of the string but the last, which it hands back, where the components are those of ComponentsAre; ENOENT exactly names a component that is neither cached nor on disk in the directory reached; the tree grows as in GrownNext |
| `VfsOps.Vfs.PathLookup` | mykernel/fs/vfs/namei.c:547-592 | a whole lookup ends where walking the string's components from root or working directory ends, and fails exactly when that walk fails, at a component that is neither cached nor on disk; the tree grows as in GrownNext |
| `VfsPrint.PrependBuffer.Prepend` | mykernel/fs/vfs/d_path.c:45-76 | text grows at its front; once out of room the buffer stays out of room |
| `VfsPrint.PrependBuffer.PrependName` | mykernel/fs/vfs/d_path.c:79-101 | a slash and the name, or failure if and only if they do not fit |
| `VfsPrint.PrependBuffer.PrependUp` | mykernel/fs/vfs/d_path.c:103-150 | the loop ends, on mount and then dentry depth, with exactly the names of the ascent if they fit, and its return code tells how the ascent ended |
| `VfsPrint.PrependBuffer.PrependPath` | mykernel/fs/vfs/d_path.c:154-176 | a bare slash for the root; an escaped ascent prints nothing |
| `VfsPrint.GetCwd` | mykernel/fs/vfs/d_path.c:196-231 | returns the path with its terminator if and only if it fits the kernel's and the caller's buffer, else ENAMETOOLONG or ERANGE |
| `VfsPrint.ShownAbsolute` | mykernel/fs/vfs/d_path.c:196-231 | the path begins with a slash if and only if the ascent reached the root, and else with the mark `(unreachable)` and a slash |
| `VfsPrint.CwdLeadsBack` | mykernel/fs/vfs/d_path.c:196-231 | the string `getcwd` returns after a walk, cut and walked again, ends at the same place, and is the path walked under the same condition |
| `ElfImage.BiasPlaces` | mykernel/fs/vfs/binfmt_elf.c:959-983 | lowering the bias by the first address and correcting it by where the segment went puts the segment exactly there, modulo 2^64, for every address |
| `ElfImage.SameDistance` | mykernel/fs/vfs/binfmt_elf.c:969-970 | segments at one bias are as far apart in memory as in the file's address space |
| `ElfLoad.AddressSpace.Mmap` | mykernel/mm/vm_map/util.c:102-111 | a mapping shows the file from its offset on, on whole pages, and succeeds only at a page-aligned offset |
| `ElfLoad.AddressSpace.Brk` | mykernel/mm/vm_map/mmap.c:1249-1269 | zero pages at the given address, or an error and no change |
| `ElfLoad.AddressSpace.PadZero` | mykernel/fs/vfs/binfmt_elf.c:98-108 | zeroes from the given address to the end of its page |
| `ElfLoad.OffsetIs` | mykernel/fs/vfs/binfmt_elf.c:323-324 | an offset that mmap accepts is congruent to the address modulo the page size, and does not wrap |
| `ElfLoad.AddressSpace.MapWhole` | mykernel/fs/vfs/binfmt_elf.c:341-347 | mapping the whole image size and giving back the rest leaves the segment's file part, nothing behind it, and everything outside the whole image as it was |
| `ElfLoad.AddressSpace.ElfMap` | mykernel/fs/vfs/binfmt_elf.c:318-356 | after success the file part shows at the page, and nothing outside its pages changed |
| `ElfLoad.LoadedHolds` | mykernel/fs/vfs/binfmt_elf.c:370-409 | mapping, padding and zero pages together leave file bytes up to p_filesz and zeros up to p_memsz |
| `ElfLoad.GrantedLoads` | mykernel/fs/vfs/binfmt_elf.c:363-409 | a segment whose address and offset lie equally far into their pages and which stays in user space is loaded when all it asks for is granted |
| `ElfLoad.AddressSpace.LoadSegment` | mykernel/fs/vfs/binfmt_elf.c:363-409 | a segment that fits is loaded exactly when its file part, its page tail and its zero pages are granted; then every byte of it is in place, its end is in user space, and only its own pages change |
| `ElfBinary.TotalMappingSize` | mykernel/fs/vfs/binfmt_elf.c:411-425 | the highest end less the lowest page, both reached by some segment, which has room for every PT_LOAD segment whose end does not wrap; 0 without any |
| `ElfBinary.LoadFirst` | mykernel/fs/vfs/binfmt_elf.c:853-983 | the first segment fixes a page-aligned bias at which it is in place, wherever mmap put it |
| `ElfBinary.LoadNext` | mykernel/fs/vfs/binfmt_elf.c:969-975 | a later segment is in place at the same bias |
| `ElfBinary.LeavesAlone` | mykernel/fs/vfs/binfmt_elf.c:831-1023 | a segment on other pages is not disturbed |
| `ElfBinary.BreakIsAbove` | mykernel/fs/vfs/binfmt_elf.c:1020-1033 | the break, after adding the bias and rounding, is at or above the last page of every segment |
| `ElfBinary.BreakIsReached` | mykernel/fs/vfs/binfmt_elf.c:1020-1033 | and it is the rounded end of some segment |
| `ElfBinary.NoBreak` | mykernel/fs/vfs/binfmt_elf.c:1020-1033 | with no PT_LOAD header it is 0 |
| `ElfBinary.FrameNext` | mykernel/fs/vfs/binfmt_elf.c:831-1023 | memory changes only on the pages of the segments, or within the whole image for the first of a position-independent one |
| `ElfBinary.LoadHeader` | mykernel/fs/vfs/binfmt_elf.c:838-1012 | one header is loaded exactly when it passes the checks and is granted what it asks for |
| `ElfBinary.LoadBinary` | mykernel/fs/vfs/binfmt_elf.c:831-1033 | the loop succeeds exactly when every PT_LOAD header does; then, on page-disjoint segments, all of them hold file bytes then zeros at one common bias (0 for ET_EXEC), all lie in user space, the break is above them all and is the rounded end of one of them (0 without any), and memory outside them is as it was |
| `PrintkText.PrefixIsTag` | mykernel/printk/printk.c:170-219 | the parser accepts a level prefix if and only if the message starts with digits in angle brackets, apart from the one-digit and empty cases it names, and the level is the number modulo 8; `<c>` and `<d>` are the special prefixes |
| `PrintkText.StampHasNoNewline` | mykernel/printk/printk.c:476-490 | no time stamp contains a newline |
| `PrintkText.StampSays` | mykernel/printk/printk.c:476-490 | the digits of a stamp read back as the seconds, filled with blanks to five places, and the microseconds, with zeros to six, of its clock reading |
| `PrintkText.ParseSplits` | mykernel/printk/printk.c:433-451 | a message is its prefix and its text, nothing lost; a level prefix becomes its tag, any other message gets `<4>` |
| `PrintkText.StartsItsLine` | mykernel/printk/printk.c:433-501 | a message with a level or `<d>` stands at the start of a line, behind its tag and a stamp, whatever was logged before |
| `PrintkText.ContinuesLine` | mykernel/printk/printk.c:433-501 | one without a level, or with `<c>`, puts nothing between an open line and its first character |
| `PrintkText.LinesConcat` | mykernel/printk/printk.c:456-501 | cutting a text behind its newlines loses nothing |
| `PrintkText.RenderTagged` | mykernel/printk/printk.c:456-501 | rendered lines keep every line of the log tagged, and leave the log at a line start exactly when they end in a newline |
| `PrintkText.LoggedKeepsTags` | mykernel/printk/printk.c:434-501 | one message of any shape keeps every line of the log beginning with a level tag and a time stamp |
| `PrintkText.RunKeepsTags` | mykernel/printk/printk.c:434-501 | so does every run of messages, split over calls in any way |
| `PrintkText.RenderChar` | mykernel/printk/printk.c:456-501 | the character loop computes the same text as line by line |
| `PrintkLog.SlotOfWrapped` | mykernel/printk/printk.c:102-118 | masking a wrapped 32-bit index gives the slot of the absolute index |
| `PrintkLog.HoldsNext` | mykernel/printk/printk.c:265-275 | writing the next character keeps the ring holding the last LOG_BUF_LEN characters of the history |
| `PrintkLog.WindowReads` | mykernel/printk/printk.c:102-118 | every index of a window reads the matching character of the unbounded history |
| `PrintkLog.WindowNext` | mykernel/printk/printk.c:265-275 | pushing the start keeps the window no longer than the buffer, across 32-bit wrap-around |
| `PrintkLog.DriversGetHistory` | mykernel/printk/printk.c:140-154 | the one or two driver writes are exactly that slice of the history, and stay inside the buffer if and only if the range is shorter than it or starts at slot 0 |
| `PrintkLog.Log.constructor` | mykernel/printk/printk.c:102-118 | an empty log, both windows at its start |
| `PrintkLog.Log.Emit` | mykernel/printk/printk.c:265-275 | appends to the history; both windows move to the last LOG_BUF_LEN characters at most, and so many are counted |
| `PrintkLog.Log.CopyText` | mykernel/printk/printk.c:456-501 | the copy loop emits tag, stamp and text as rendered, and moves the windows by as much |
| `PrintkLog.Log.Vprintk` | mykernel/printk/printk.c:382-522 | the log grows by exactly the rendered message; `new_text_line` is true if and only if the log is empty or ends in a newline, and every line is tagged; the windows begin where they did, as far as the ring reaches back; the count returned is what was added besides the text |
| `PrintkLog.Log.CallDrivers` | mykernel/printk/printk.c:122-154 | drivers get exactly the asked slice of the history |
| `Completions.CompleteKeeps` | mykernel/kactive/completion.c:29-38 | `complete` keeps the invariant: queue of unwoken waiters, token conservation, no lost wake-up |
| `Completions.EnterKeeps` | mykernel/kactive/completion.c:40-64 | so does a thread entering the wait |
| `Completions.RecheckKeeps` | mykernel/kactive/completion.c:40-64 | and a thread that runs again, woken or not |
| `Completions.RunKeeps` | mykernel/kactive/completion.c:29-64 | in every state of every interleaving: before saturation tokens plus returned waits equal completes, and while a waiter sleeps there are no more tokens than woken waiters yet to look |
| `Completions.SomeoneTakesIt` | mykernel/kactive/completion.c:29-64 | a token and a sleeper together mean a woken waiter that takes a token as soon as it runs |
| `Completions.SaturationSticks` | mykernel/kactive/completion.c:29-64 | once UINT_MAX, the counter stays there in every later state of the run |
| `Completions.UnboundedWaits` | mykernel/kactive/completion.c:40-64 | a thread waiting with MAX_SCHEDULE_TIMEOUT, over any events in between, never leaves without a token |
| `Completions.WakesTheLast` | mykernel/kactive/swait.c:20-29 | the thread woken is the one queued last; the first queued is woken if and only if it is alone |
| `Completions.LastInFirstOut` | mykernel/kactive/swait.c:20-48 | queueing and completing leave the queue as it was and wake the thread that queued |
| `Completions.QueuesAgain` | mykernel/kactive/swait.c:20-48 | a woken thread that finds no token queues behind all others; one that was not woken keeps its place |
| `Completions.ReturnTells` | mykernel/kactive/completion.c:40-64 | the value returned is 0 exactly when the time ran out without a token; else a token was taken and the value is the time left, or 1; nobody else is affected |
| `Completions.EnterTells` | mykernel/kactive/completion.c:40-64 | a thread that finds a token takes it at once and never queues, and its value is not 0 |
| `Completions.Completion.CompleteOne` | mykernel/kactive/completion.c:29-38 | is the complete step |
| `Completions.Completion.Finish` | mykernel/kactive/swait.c:50-54 | takes exactly that thread off the queue |
| `Completions.Completion.WaitEnter` | mykernel/kactive/completion.c:40-64 | is the entering step; a value is returned only with a token, and is not 0 |
| `Completions.Completion.WaitRecheck` | mykernel/kactive/completion.c:40-64 | is the re-check step; the value returned is 0 exactly without a token, that is, exactly when the counter was 0 |
| `Clocksources.FindRoom` | mykernel/time/clocksource.c:50-54 | the first loop leaves 32 less the bits of maxsec*from above bit 32 |
| `Clocksources.RoomIs` | mykernel/time/clocksource.c:50-54 | that much room and the largest counter value make up 64 bits |
| `Clocksources.TryShift` | mykernel/time/clocksource.c:60-66 | one round computes the rounded factor without 64-bit overflow and applies the test |
| `Clocksources.CalcMultShift` | mykernel/time/clocksource.c:41-69 | returns the largest shift up to 32 that passes the overflow test with its rounded factor; shift 0 if and only if shift 1 fails |
| `Clocksources.Accuracy` | mykernel/time/clocksource.c:60-68 | mult*from and to*2^shift differ by at most from/2 |
| `Clocksources.NoOverflow` | mykernel/time/clocksource.c:41-69 | c*mult is below 2^64 for every c up to maxsec*from |
| `Clocksources.ShiftFound` | mykernel/time/clocksource.c:60-66 | a usable shift exists if and only if the test passes at shift 1 |
| `Clocksources.NoShiftPasses` | mykernel/time/clocksource.c:60-68 | a concrete input where none passes and the factor returned is 0 |
| `Clocksources.CalcMaxNsecs` | mykernel/time/clocksource.c:103-131 | without 32-bit wrap the adjusted factors are safe for the cycles returned; one cycle more would pass the mask or 64 bits, and the idle time is half of what those cycles convert to, rounded down |
| `Clocksources.DeferredIsBest` | mykernel/time/clocksource.c:103-131 | for any factors without wrap the cycles are the most that the mask and 64 bits allow, and twice the idle time and one is at least what they convert to |
| `Clocksources.ShiftedIs` | mykernel/time/clocksource.c:103-131 | shifting a product right is dividing it by the power of two, rounded down |
| `Clocksources.SafeConversions` | mykernel/time/clocksource.c:103-131 | then for every adjusted factor and every cycle count up to the maximum no conversion overflows and the idle time is at most half the range |
| `Clocksources.AlwaysFits` | mykernel/time/clocksource.c:174-182 | for every mask, frequency and scale up to a million some shift passes and the factor has room for two bits or more |
| `Clocksources.RangeIs` | mykernel/time/clocksource.c:174-179 | the seconds promised are those the counter lasts, at least 1, and at most 600 when it has more than 32 bits |
| `Clocksources.BestIsPositive` | mykernel/time/clocksource.c:60-68 | the chosen factor is not zero |
| `Clocksources.HalvedAccuracy` | mykernel/time/clocksource.c:208-214 | halving factor and shift keeps the ratio within from |
| `Clocksources.Clocksource.Adjust` | mykernel/time/clocksource.c:208-214 | the loop halves at most once, and exactly if the adjusted factor would wrap; afterwards it fits in 32 bits |
| `Clocksources.Clocksource.SetFactors` | mykernel/time/clocksource.c:174-214 | a frequency gets the best shift's factor, halved at most once |
| `Clocksources.Clocksource.UpdateFreqScale` | mykernel/time/clocksource.c:156-228 | the whole update: positive factor, room for 11 percent of adjustment to the unit, no wrap under adjustment; the cycles are the most that the mask and 64 bits allow, and the idle time is half of what they convert to, rounded down; a zero frequency keeps the factors |
| `Clocksources.ScaledConverts` | mykernel/time/clocksource.c:156-228 | the resulting factors stand for nanoseconds per cycle and convert the whole promised range without overflow |
| `KobjRanges.InsertSorted` | mykernel/drivers/base/map.c:66-73 | insertion keeps a bucket sorted by range and adds exactly the new entry |
| `KobjRanges.ContainsWhat` | mykernel/drivers/base/map.c:121-122 | an interval contains the `range` numbers from `dev` on; one that passes 2^64 contains none, and an empty one none but at 0, where it contains all |
| `KobjRanges.BaseContains` | mykernel/drivers/base/map.c:140-160 | the base entry answers for every device number but 0 |
| `KobjRanges.TightestIs` | mykernel/drivers/base/map.c:108-138 | brute force gives an interval that contains the number, none containing it is smaller and none newer is as small; nothing if and only if none contains it |
| `KobjRanges.InsertThenRemove` | mykernel/drivers/base/map.c:78-106 | withdrawing what was entered last gives the bucket back |
| `KobjRanges.InsertRemove` | mykernel/drivers/base/map.c:78-106 | entering one interval and withdrawing another commute |
| `KobjRanges.BucketShape` | mykernel/drivers/base/map.c:43-76 | every bucket is sorted and ends in the base entry |
| `KobjRanges.BaseIsOutOfReach` | mykernel/drivers/base/map.c:46-52 | the interval equal to the base entry's is entered in and withdrawn from no bucket |
| `KobjRanges.RemoveFromBucket` | mykernel/drivers/base/map.c:78-106 | withdrawing an interval from its buckets is withdrawing its newest registration |
| `KobjRanges.BucketFindsTightest` | mykernel/drivers/base/map.c:108-138 | the first entry of the bucket that contains the number is the smallest registered interval containing it, newest of equals |
| `KobjRanges.ReachesExactly` | mykernel/drivers/base/map.c:46-52 | an interval is entered in the buckets of all its numbers if and only if its truncated bucket count suffices |
| `KobjRanges.DeviceRangesReach` | mykernel/drivers/base/map.c:46-52 | every interval of 32-bit device numbers is |
| `KobjRanges.HugeRangeMissed` | mykernel/drivers/base/map.c:46-52 | a concrete 2^52-number interval that a lookup misses |
| `KobjMaps.KobjMap.constructor` | mykernel/drivers/base/map.c:140-160 | 255 buckets, each just the shared base node |
| `KobjMaps.KobjMap.Find` | mykernel/drivers/base/map.c:68-70 | the pointer search stops at the first range not smaller, at the latest at the base node |
| `KobjMaps.KobjMap.Splice` | mykernel/drivers/base/map.c:71-72 | linking a node changes its own bucket only; all buckets still share the base node |
| `KobjMaps.KobjMap.Map` | mykernel/drivers/base/map.c:43-76 | afterwards the buckets are those of the registrations with the new one in front; nothing changes when memory runs out |
| `KobjMaps.KobjMap.Unlink` | mykernel/drivers/base/map.c:92-102 | takes the first matching node out of one bucket |
| `KobjMaps.KobjMap.Unmap` | mykernel/drivers/base/map.c:78-106 | afterwards the buckets are those of the registrations without the newest match |
| `KobjMaps.KobjMap.Scan` | mykernel/drivers/base/map.c:116-123 | one pass finds the first entry that contains the number, if it beats the bound |
| `KobjMaps.KobjMap.Lookup` | mykernel/drivers/base/map.c:108-138 | terminates; asks exactly the first entry of the bucket that contains the number, which is the tightest one, newest of equals, when all registrations reach their numbers; the index is the number's place in it |
| `MemoryMap.AddEntry` | myloader/uefi/bootloader.c:196-260 | one round joins or appends |
| `MemoryMap.Fill` | myloader/uefi/bootloader.c:196-260 | the first loop yields the joined entries, none of which continues the one before it |
| `MemoryMap.CountIs` | myloader/uefi/bootloader.c:196-238 | which UEFI types become which Multiboot2 type: an entry type covers an address as often as the descriptors of its UEFI types do |
| `MemoryMap.ConvertedJoins` | myloader/uefi/bootloader.c:240-259 | no entry continues the one before it with the same type |
| `MemoryMap.AddCovers` | myloader/uefi/bootloader.c:240-259 | a round that does not wrap adds exactly its descriptor's coverage at every address |
| `MemoryMap.AddAtZero` | myloader/uefi/bootloader.c:240-259 | no round gains address 0 more often than its descriptor, and one that wraps less often |
| `MemoryMap.CoverageExact` | myloader/uefi/bootloader.c:196-260 | for every address and type the entries cover it as often as the descriptors if and only if no round wraps around the address space |
| `MemoryMap.BelowTheTop` | myloader/uefi/bootloader.c:240-259 | a map that ends below 2^64 never wraps |
| `MemoryMap.LastThenFirst` | myloader/uefi/bootloader.c:240-259 | a concrete map where the last and the first page are joined and the first page is lost |
| `MemoryMap.CoverPermuted` | myloader/uefi/bootloader.c:262-279 | coverage does not depend on order |
| `MemoryMap.Sort` | myloader/uefi/bootloader.c:262-279 | the exchange sort sorts by address and permutes |
| `MemoryMap.SortedApart` | myloader/uefi/bootloader.c:196-279 | disjoint descriptors give disjoint entries in ascending order |
| `MemoryMap.FillMap` | myloader/uefi/bootloader.c:196-279 | both loops: sorted; for each of the five types an address is covered as often as by the descriptors of the UEFI types that become it; disjoint input gives disjoint ordered output |
| `LinkedList.Node.constructor` | myinitramfs/mylib/util/list.c:10-14 | a fresh node is a ring of its own |
| `LinkedList.RingRotates` | myinitramfs/mylib/util/list.c:10-45 | a ring is a ring from any of its nodes on |
| `LinkedList.DelInit` | myinitramfs/mylib/util/list.c:40-45 | the node becomes a ring of its own and the others close up; no other node changes |
| `LinkedList.LinkNext` | myinitramfs/mylib/util/list.c:28-38 | the node follows the destination in the ring |
| `LinkedList.LinkPrev` | myinitramfs/mylib/util/list.c:16-26 | the node precedes the destination in the ring |
| `LinkedList.Header.constructor` | myinitramfs/mylib/util/list.c:73-77 | an empty ring with count 0 |
| `LinkedList.Header.Detach` | myinitramfs/mylib/util/list.c:40-45 | taking a node out of the header's ring, or out of another, leaves the ring of the others |
| `LinkedList.Header.AddToHead` | myinitramfs/mylib/util/list.c:79-83 | the node becomes the first item and leaves whatever ring it was in; the count stays the length if and only if the node was not already in the list |
| `LinkedList.Header.AddToTail` | myinitramfs/mylib/util/list.c:98-102 | the node becomes the last item, with the same condition |
| `LinkedList.Header.Contains` | myinitramfs/mylib/util/list.c:52-68 | terminates and decides membership when the count is right |
| `LinkedList.Header.RemoveHead` | myinitramfs/mylib/util/list.c:85-96 | removes and returns the first item; null when the count is 0, the anchor itself when only the count says there is one |
| `LinkedList.Header.RemoveTail` | myinitramfs/mylib/util/list.c:104-115 | the same for the last item |
| `LinkedList.Header.DeleteNode` | myinitramfs/mylib/util/list.c:117-127 | removes the node if and only if it is in the list and the count is not 0 |

## Left out

- Write: a directory entry at cluster 1, which the driver's header calls invalid; positions beyond the end of the chain's last cluster, where the driver follows entries past the table; a first write on a volume whose table begins within the first cluster of the disk, where the data destroys the table (`SectorZeroSafe`); counts of 2 GiB or more, which the driver keeps in an int and its caller cuts off.
- WriteFrom: the same.
- FinishPour: the data cluster of a file whose directory entry lies in that very cluster, and a data cluster past the end of the disk.
- IobufRelease: directory buffers that are dirty but not flagged for deletion, which it writes back.
- StartCluster: an index more than one past the chain, for the same reason.
- WriteInode: its own transfers are taken to succeed, as those of the table are, because the driver ignores what they report; a position outside the buffer, where the driver writes elsewhere in memory, changes nothing.
- Read: files whose size exceeds their chain, a start position past the end of the file, and effective counts of 2 GiB or more, where the driver's counters are signed 32-bit.
- IobufInit: a file with more clusters than the driver's fixed arrays hold, which it would overrun; `capacity` is that bound.
- ReleaseClusters: the same.
- FindAvailableCluster: may return an entry past the data region of the volume, because the code scans whole table sectors; the region's size is not part of this model.
- Directories of several clusters, FAT32_iobuf_expand, fat_add_entries and short-name generation; the 8.3 entry behind the long-name slots is not built.
- ParseLong: an entry with nothing before it, which its callers rule out by testing the pointer first; and slots that run back to the start of the directory without a mark, where the driver would follow an error pointer and the model stops.
- "..", chosen roots and symbolic links in path walks; reference counts and locks.
- LinkPathWalk: paths with ".." components.
- ELF headers other than PT_LOAD, protection bits, the interpreter, the entry point, the stack, code and data bounds, and how the loader picks the address of a position-independent image; that address is the input `hint`.
- Mmap: pages past the end of the file read as zero instead of faulting.
- Completeness of console delivery, console registration and the early console; formatting of messages, which enter vprintk formatted.
- swake_up_all_locked, and the scheduler itself: what schedule_timeout returns is any value that keeps an unbounded timeout unbounded.
- UpdateFreqScale: scales above a million and factors whose 32-bit sum is zero, where the code divides by zero or shifts by a wrapped amount; callers pass scale 1 or 1000.
- SetFactors: the same scales.
- Clocksource registration, rating and selection; the watchdog.
- Lookup: probe functions that change the map while a lookup runs.
- Unmap: the memory it frees.
- FillMap: promises no coverage for descriptors past the top of the address space, which section 7.2.3 of UEFI 2.10 excludes.
- devtmpfs, PCI, block and tty drivers, memory management, the scheduler, the shell and everything commented out in the source.
