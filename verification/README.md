# Verified models of an espresso machine controller and its storage engine

The firmware in this repository drives an espresso machine and logs to an SD card. This project
models, in Dafny, the parts of it that others build on, and proves what those parts are for:

- **The FAT file system** of `ff.c` (FatFs R0.15, 512-byte sectors, read-write, one private sector
  buffer per file, long names, fast seek): the write-back sector window, FAT12/16/32 entries, the
  cluster allocator, reading, writing and seeking, the link map, long file names, wildcards, and
  the sizes that formatting and mounting compute.
- **The ring buffer** for one producer and one consumer, with wrapping indices, at the granularity
  of single loads, copies and stores.
- **The safety loop** of the machine: heater slots, packets, bailing out and coming back.
- **SLIP framing** (RFC 1055, section "PROTOCOL").
- **CRC-32** (IEEE 802.3, section 3.2.9) in the three forms in which the repository has it.

`dafny verify dfyconfig.toml` checks everything.

## How the model is built

| file | what it holds |
|---|---|
| `Basics.dfy`, `FatTypes.dfy`, `Geometry.dfy` | bytes, sectors, division; where the parts of a volume lie |
| `FatEntry.dfy` | packed FAT entries: reading one after writing one |
| `Window.dfy` | drive and window as one value; what the sectors *logically* hold |
| `Chains.dfy` | cluster chains, allocating and freeing, counting free clusters |
| `FatFs.dfy` | class `FatFs`: window, FAT access, allocator, free count |
| `Allocation.dfy` | any run of allocations and releases |
| `FileModel.dfy` | an open file as a value: its content and what each step keeps of it |
| `Bystanders.dfy` | what an operation on one file leaves to all others |
| `LinkMap.dfy` | the table of the fast seek |
| `Fil.dfy` | class `Fil`: reading, writing, seeking, building the link map |
| `FileRuns.dfy` | any run of calls on any number of open files |
| `Format.dfy` | sizes chosen by formatting, and how mounting reads them back |
| `LongName.dfy`, `Pattern.dfy` | long names in directories; wildcard matching |
| `RingBuffer.dfy` | the concurrent ring buffer |
| `Heaters.dfy`, `LccPacket.dfy`, `Controller.dfy` | control signals, packets, the loop |
| `Slip.dfy`, `Crc.dfy` | framing; check values |

The drive is a sequence of sectors; every drive call may fail. A failed read yields anything, a
failed write leaves anything in the sectors it addressed, and a counter of failures says which
guarantees still hold. `Logical` is what a reader of the volume sees: the window where it stands,
the drive elsewhere. `Steady` says that nothing outside the first FAT has logically changed and, as
long as no call failed, that the second FAT still equals the first one on the drive; `Quiet` adds
that the FAT has not changed either. `Spares` says that every other open file that shares no cluster
with this one is still open with the same content, and that equal copies of the FAT stay equal as
long as no call fails. A file's `Text` is its content, wherever the
bytes are; `Splice` writes bytes over a content from a place in it, making it longer if need be.

## Where the code does not do what one might expect

- **Formatting with a large erase block** can lose the whole data area: a volume of 128 sectors
  with an erase block of 128 is formatted, and then refused by mounting
  (`Format.AlignmentCanTakeAll`). A formatted volume is accepted exactly if there is room for a
  cluster behind its aligned system area (`Format.FormatThenMount`); with erase blocks of at most 15
  clusters and a sector there always is (`Format.SmallBlocksMount`).
- **Mounting** adds up the sizes of the FATs in 32 bits. The result is a sound geometry exactly if
  that sum does not wrap (`Format.MountedIsWellFormed`); two FATs of 2^31 sectors wrap to none at all
  (`Format.MountWraps`).
- **A failed write to the second FAT** is not reported, and the copies then differ
  (`Window.FailedCopyUnnoticed`); only while no write fails is it a copy.
- **Counting free clusters** by scanning FAT16 or FAT32 takes in the two reserved entries; the count
  is right exactly if neither of them is zero (`FatVolume.FatFs.GetFree`, with a table that is counted
  wrong in `Chains.ReservedEntryCounted`).
- **Building a link map** stops with an internal error exactly for a chain that ends in the last
  cluster of the volume with an end mark equal to that number plus one
  (`OpenFile.Fil.CreateLinkMap`, an example in `Chains.AmbiguousEnd`). The end marks that the code
  writes are larger (`Chains.LinkedEndsClearly`).
- **A table too small for the link map** stays in use, and no closing zero is put behind the pairs
  that fit. The number of items needed is reported. Reading or seeking before a new table is set goes
  well exactly if what the table held before, from the place behind the last pair that fits, can be
  walked to a closing zero and goes on with clusters that come next in the chain, as a zero in that
  place does (`OpenFile.Fil.CreateLinkMap`); in `LinkMap.LeftOver` there is a table of each kind.
- **Wildcards**: the answer is right for all names exactly if the pattern has at most four terms of
  wildcards with fewer than 256 `?` each (`Pattern.ExactlyWhen`).
- **The full test of `insert`** compares without converting back to the index type. It is wrong
  exactly for an index type narrower than `int` in a buffer that is full across the wrap
  (`RingBuffer.FullTest`, `RingBuffer.NarrowIndexOverruns`); that is where a run of the model stops.
  This repository has only wide indices.
- **Power sharing**: the comment in `SystemController.cpp` promises proportional shares. The code
  gives the brew boiler three quarters of what it wants, or all of it during a brew, and the service
  boiler the rest: with 25 slots wanted by both that is 18 and not 13 (`Controller.SharesNotProportional`,
  which says for which wishes the two agree). As the service boiler asks for all slots or none,
  neither ever gets more than it asks for (`Controller.SharesFit`,
  `Controller.SystemController.Refill`).
- **A soft bail** waits for complete packets, valid or not. The guarantee that one ends without a
  command to unbail only after more than two seconds, and that a missing or invalid reply makes a
  running machine bail, can be broken by a command to begin: it ends a soft bail outright, and it
  leaves a timer set before running, also when the reply of the same round has set it
  (`Controller.BeginAfterInvalid`) or when it ends a hard bail (`Controller.LateBeginBreaks`). Runs
  keep the guarantee, at every moment and come what replies may, exactly if every command to begin
  that takes effect finds no timer and no soft bail from earlier rounds
  (`Controller.KeptExactlyIfHarmless`). The other core sends this command at each of its starts, and
  it is restarted at run time (`src/smart_lcc.cpp:196-219`).
- **`SLIP::decode`** repeats the last byte of a frame that ends in a complete escape
  (`Slip.RepeatsLastByte`). If that frame is of the largest length, 65535 bytes, the 16-bit index
  wraps around and the byte before the frame is read: exactly then (`Slip.Decode`,
  `Slip.LongestFrameOverruns`). A frame that ends with END is decoded right (`Slip.DecodedFrame`).

## Model

| member | source | states |
|---|---|---|
| FatVolume.FatFs.WriteBack | lib/no-OS-FatFS/src/ff15/source/ff.c:1063-1070 | Writing the window back changes no sector but its own and, for a sector of the first FAT of two, that of the copy; without a failure both then hold the window. |
| FatVolume.FatFs.SyncWindow | lib/no-OS-FatFS/src/ff15/source/ff.c:1055-1073 | Writing a dirty window back is invisible to every reader of the volume and, while no drive call fails, keeps the second FAT on the drive equal to the first; on success the window is clean. |
| FatVolume.FatFs.MoveWindow | lib/no-OS-FatFS/src/ff15/source/ff.c:1077-1098 | The window is transparent: whatever happens all sectors logically hold what they did; on success the window shows the sector asked for with its logical content; the copies of the FAT stay equal while nothing fails. |
| Window.WriteBackIsQuiet | lib/no-OS-FatFS/src/ff15/source/ff.c:1055-1073 | Any write-back, complete or failed half way, leaves drive and window coherent and every logical sector as it was, and without failures keeps the copies of the FAT equal. |
| Window.FailedCopyUnnoticed | lib/no-OS-FatFS/src/ff15/source/ff.c:1063-1067 | Whenever the write to the second FAT fails and leaves anything but the window there, the write-back counts as done and the copies differ. |
| Window.EditShows | lib/no-OS-FatFS/src/ff15/source/ff.c:1257-1263 | Changing a byte of the window and marking it dirty changes exactly that byte of the logical sector it shows. |
| Window.DataWriteIsOutsideFat | lib/no-OS-FatFS/src/ff15/source/ff.c:4080 | File data written past the window leaves everything before the data area logically unchanged. |
| FatEntry.ReadOverWrite | lib/no-OS-FatFS/src/ff15/source/ff.c:1178-1194 | For each FAT type: the entry written reads back as the value cut to 12, 16 or 28 bits, and every other entry, also one sharing a byte with it, reads as before. |
| FatEntry.TableIsNumber | lib/no-OS-FatFS/src/ff15/source/ff.c:1178-1194 | What the bytes mean: the bytes of a FAT, the lowest first, are one number whose digits to the base 2^12, 2^16 or 2^32, the lowest first, are the entries (on FAT32 their lower 28 bits are). |
| FatEntry.DigitsAreUnique | lib/no-OS-FatFS/src/ff15/source/ff.c:1178-1194 | A number has one row of so many digits only, so the bytes of a FAT can be read as no other entries. |
| FatEntry.ReservedBitsStay | lib/no-OS-FatFS/src/ff15/source/ff.c:1277-1283 | A put to a FAT32 entry leaves the four reserved bits above it as they are. |
| FatEntry.AreaInRow | lib/no-OS-FatFS/src/ff15/source/ff.c:1178-1194 | The bytes of the FAT are those of its sectors, one behind the other. |
| FatVolume.FatFs.GetFat | lib/no-OS-FatFS/src/ff15/source/ff.c:1161-1194 | It yields the entry of a cluster as it logically is, wherever its bytes are (two sectors for some FAT12 entries); 1 for no cluster; the error value only after a drive failure; and it changes nothing that can be seen. |
| FatVolume.FatFs.PutFat | lib/no-OS-FatFS/src/ff15/source/ff.c:1239-1288 | On success the table differs from the old one in that entry alone, which holds the value cut to its width; on a drive failure no other entry has changed; nothing outside the FAT changes. |
| Geometry.ClustersApart | lib/no-OS-FatFS/src/ff15/source/ff.c:1144-1152 | Sectors of clusters lie in the data area of the drive, and two of them are the same only if cluster and place in the cluster are. |
| Geometry.ClustersFollow | lib/no-OS-FatFS/src/ff15/source/ff.c:1144-1152 | The data area begins with cluster 2, and every cluster begins where the one before it ends. |
| Geometry.EndMarkEndsChains | lib/no-OS-FatFS/src/ff15/source/ff.c:3540-3546 | The cluster limits of mounting keep the number of entries at or below what an entry keeps of the end mark, so a stored end mark never looks like a cluster. |
| Chains.ChainsAreAcyclic | lib/no-OS-FatFS/src/ff15/source/ff.c:1454-1486 | A chain that comes to an end visits no cluster twice. |
| Chains.ChainUnique | lib/no-OS-FatFS/src/ff15/source/ff.c:4539-4560 | A first cluster has one chain only. |
| Chains.LinkedKeepsAll | lib/no-OS-FatFS/src/ff15/source/ff.c:1600-1603 | Taking a free cluster for one of any number of chains: that chain has it at its end, every other chain is as it was, and all of them are still apart, free of cycles and ended. |
| Chains.FreedIsSuffix | lib/no-OS-FatFS/src/ff15/source/ff.c:1453-1486 | On a chain the walk that frees clusters comes to its end without an error and frees the clusters from its start on, no others. |
| Chains.CutKeepsAll | lib/no-OS-FatFS/src/ff15/source/ff.c:1447-1486 | Releasing one of any number of chains from a place on: that chain ends before this place, every other chain is as it was, and all are still apart, free of cycles and ended. |
| Chains.LinkedTakesOne | lib/no-OS-FatFS/src/ff15/source/ff.c:1600-1608 | An allocation makes the number of free clusters smaller by one. |
| Chains.CutGivesBack | lib/no-OS-FatFS/src/ff15/source/ff.c:1453-1486 | A release makes the number of free clusters larger by as many as the chain loses. |
| Chains.FreeCountIsSize | lib/no-OS-FatFS/src/ff15/source/ff.c:4833-4900 | What is counted is the number of clusters whose entry is zero. |
| Chains.AmbiguousEnd | lib/no-OS-FatFS/src/ff15/source/ff.c:4467-4477 | A table with a chain whose end cannot be told from a link to a next cluster. |
| Chains.LinkedEndsClearly | lib/no-OS-FatFS/src/ff15/source/ff.c:1600-1603 | No chain that an allocation has made longer ends like that. |
| FatVolume.FatFs.FreeFrom | lib/no-OS-FatFS/src/ff15/source/ff.c:1453-1486 | The loop ends for every content of the FAT, with cycles and crossed chains; it zeroes exactly the entries on the walk, reports an internal error exactly if the walk meets an entry 1, keeps an exact free count exact, and touches nothing off the walk even when it fails. |
| FatVolume.FatFs.RemoveChain | lib/no-OS-FatFS/src/ff15/source/ff.c:1429-1515 | What is reached from the cluster is free and the one before it ends its chain; bad arguments are refused unchanged; an exact free count stays exact. |
| FatVolume.FatFs.FindFree | lib/no-OS-FatFS/src/ff15/source/ff.c:1586-1599 | The search around the table yields the first free cluster met, and 0 only when none is free at all. |
| FatVolume.FatFs.PickCluster | lib/no-OS-FatFS/src/ff15/source/ff.c:1573-1599 | The cluster behind the one to stretch if it is free, or else the first free one met from the last one allocated or, if that is no cluster, from the one to stretch. |
| FatVolume.FatFs.TakeCluster | lib/no-OS-FatFS/src/ff15/source/ff.c:1600-1614 | The free cluster becomes the end of the chain; after a failure no entry in use but that of the chain's end has changed. |
| FatVolume.FatFs.CreateChain | lib/no-OS-FatFS/src/ff15/source/ff.c:1524-1615 | It follows a link, or links the chosen free cluster behind the end of the chain; 0 only when no cluster is free (or none by the cached count), 1 only for an entry 1 or a bad argument; an exact free count stays exact. |
| FatVolume.FatFs.GetFree | lib/no-OS-FatFS/src/ff15/source/ff.c:4833-4900 | A known count is returned without a scan; a scan makes the cached count exact if and only if the volume is FAT12 or both reserved entries are nonzero. |
| FatVolume.FatFs.ScanByCluster | lib/no-OS-FatFS/src/ff15/source/ff.c:4840-4851 | The scan of a FAT12 counts the free clusters; it stops with an internal error only for an entry 1. |
| FatVolume.FatFs.ScanBySector | lib/no-OS-FatFS/src/ff15/source/ff.c:4874-4891 | The scan of the FAT sector by sector counts the zero entries, those of the reserved two included. |
| Chains.ReservedEntryCounted | lib/no-OS-FatFS/src/ff15/source/ff.c:4875-4891 | A table for which the scan counts one cluster more than there are free. |
| Allocation.Run | lib/no-OS-FatFS/src/ff15/source/ff.c:1429-1615 | In any run of allocations and releases on any number of chains in which no drive call fails, every step is carried out: a chain is longer by a cluster that was free (or as it was, when no cluster could be had), or cut where it was to be, and the others are as they were; at each moment all chains are apart, free of cycles and ended; free clusters and clusters in chains add up to what they did before; and an exact free count is exact. |
| Bystanders.ExtendSpares | lib/no-OS-FatFS/src/ff15/source/ff.c:1600-1603 | A cluster that a file gains is no cluster of any other open file, and all of those keep chain, buffer and content. |
| Bystanders.WriteSpares | lib/no-OS-FatFS/src/ff15/source/ff.c:4080 | Sectors written within a cluster of a file leave every other open file as it was, and leave equal copies of the FAT equal. |
| Bystanders.HalfLinkedSpares | lib/no-OS-FatFS/src/ff15/source/ff.c:1600-1611 | An allocation that fails half way, whatever it leaves of the entries of its own chain and of free ones, leaves every other open file as it was. |
| FileModel.DirectReadBytes | lib/no-OS-FatFS/src/ff15/source/ff.c:3960-3979 | Sectors read past the buffer, with the dirty buffer laid over them, are the bytes of the file. |
| FileModel.ContentOnDrive | lib/no-OS-FatFS/src/ff15/source/ff.c:3950-3960 | Byte i of a file is on the drive where its chain says: in the cluster at place i / cluster size of the chain, which lies its number less 2 clusters behind the start of the data area; only a dirty buffer stands in front of it. |
| FileModel.ContentIsRun | lib/no-OS-FatFS/src/ff15/source/ff.c:3950-3960 | The content of a file whose clusters follow on each other is an unbroken run of sectors. |
| FileModel.WrittenDirectly | lib/no-OS-FatFS/src/ff15/source/ff.c:4075-4096 | Sectors written past the buffer, with the buffer refreshed from them, write their bytes over the content at the pointer, and pointer, buffer and size are again in order. |
| FileModel.WrittenToBuffer | lib/no-OS-FatFS/src/ff15/source/ff.c:4109-4120 | Bytes put into the buffer write over the content at the pointer, also at the growing end, where the buffer was not filled before. |
| FileModel.FlushKeeps | lib/no-OS-FatFS/src/ff15/source/ff.c:4067-4070 | Writing a dirty buffer back does not change the content. |
| FileModel.PointerDeterminesPlace | lib/no-OS-FatFS/src/ff15/source/ff.c:4522-4567 | Incremental seeking ends where seeking from scratch does: two handles in order on the same file with the same pointer have the same current cluster and, within a sector, the same sector in the buffer. |
| OpenFile.Fil.constructor | lib/no-OS-FatFS/src/ff15/source/ff.c:3855-3870 | The handle opening leaves is in order. |
| OpenFile.Fil.TextIsRun | lib/no-OS-FatFS/src/ff15/source/ff.c:1144-1152 | The content of an open file on clusters 2, 3, 4 and so on is what the drive holds from the start of the data area on. |
| OpenFile.Fil.ReadChunk | lib/no-OS-FatFS/src/ff15/source/ff.c:3937-4001 | Each round of the loop delivers at least one and at most the wanted bytes, those of the file at the pointer, and keeps the content, the file and all other files in order. |
| OpenFile.Fil.Read | lib/no-OS-FatFS/src/ff15/source/ff.c:3914-4004 | It delivers exactly the bytes from the pointer to the end of the file or as many as wanted, whether they are in the dirty buffer, on the drive or moved directly, and leaves every file's content as it was; it fails only for a drive failure, or with an internal error where the link map ends before the pointer; even then all other files are as they were. |
| OpenFile.Fil.FollowOrStretch | lib/no-OS-FatFS/src/ff15/source/ff.c:4055 | The cluster at a place of the chain, or a new one at its end; the content is as it was, and so are, even on a failure, all other files. |
| OpenFile.Fil.WriteChunk | lib/no-OS-FatFS/src/ff15/source/ff.c:4039-4121 | Each round writes the next bytes over the content at the pointer, and none only when no cluster can be had. |
| OpenFile.Fil.Write | lib/no-OS-FatFS/src/ff15/source/ff.c:4014-4126 | The content becomes the old one with the bytes written over it from the pointer on; it writes all of them unless no cluster can be had or the file reaches 4 GiB - 1; all other files are as they were, even on a failure. |
| OpenFile.Fil.StartSeek | lib/no-OS-FatFS/src/ff15/source/ff.c:4518-4538 | The walk may start at the current cluster: that is the cluster of the chain at the offset the pointer is set to. |
| OpenFile.Fil.FollowClusters | lib/no-OS-FatFS/src/ff15/source/ff.c:4539-4560 | The walk ends at the cluster of the target; when the chain can grow no more the pointer is at the end of the file, which has become as long as the walk went. |
| OpenFile.Fil.NormalSeek | lib/no-OS-FatFS/src/ff15/source/ff.c:4511-4585 | The pointer goes to the target, cut to 4 GiB - 1 and, without write access, to the size; it stops short only at the end of a file that cannot grow; what was in the file stays, and it is as long as the pointer went. |
| OpenFile.Fil.FastSeek | lib/no-OS-FatFS/src/ff15/source/ff.c:4485-4506 | With a link map the pointer goes to the target or the end of the file, nothing else changes, and it fails for the map exactly if that ends before the target. |
| OpenFile.Fil.Seek | lib/no-OS-FatFS/src/ff15/source/ff.c:4433-4588 | Both kinds of seek: no byte of the file changes, the file grows exactly as far as the pointer goes, and all other files are as they were, even on a failure. |
| FileRuns.Run | lib/no-OS-FatFS/src/ff15/source/ff.c:3914-4588 | Any run of reads, writes and seeks on any number of files open at once: every call is answered; it is refused exactly for want of access; it acts at the pointer its predecessors on that file left; a read delivers all there is up to what was asked, a write or a seek stops short only for want of a cluster (or at 4 GiB - 1); and every byte read is the one last written to that place of that file, or the one there at the start (bytes of a gap opened by a seek are unspecified). A failure, which has one of three causes, ends the use of that file alone: of all others everything goes on to hold. Over a run without a failed drive call equal copies of the FAT stay equal. |
| FileRuns.EventAgrees | lib/no-OS-FatFS/src/ff15/source/ff.c:3914-4588 | One call more keeps the account of all calls so far true: sizes, pointers, errors and latest bytes. |
| OpenFile.Fil.ClmtClust | lib/no-OS-FatFS/src/ff15/source/ff.c:1627-1646 | The link map refines the chain walk: for every offset it yields the cluster of the list the map stands for at place offset / cluster size, and 0 beyond its end. |
| LinkMap.DecodesExpands | lib/no-OS-FatFS/src/ff15/source/ff.c:4462-4481 | Pairs stored for a chain, closed by a zero, stand for that chain. |
| LinkMap.RunIsFragment | lib/no-OS-FatFS/src/ff15/source/ff.c:4466-4473 | A run of consecutive clusters that neither follows on nor goes on is one fragment. |
| LinkMap.StoredExpands | lib/no-OS-FatFS/src/ff15/source/ff.c:4464-4484 | A table that holds the pairs for the first clusters of a chain without a closing zero behind them stands for these clusters and what its old items from there on stand for, and can be walked to an end if and only if these can. |
| LinkMap.LeftOver | lib/no-OS-FatFS/src/ff15/source/ff.c:1637-1644 | Three tables with room for no pair: one closed by what it held before, one that cannot be walked to an end, and one that leads to another cluster. |
| OpenFile.Fil.Fragment | lib/no-OS-FatFS/src/ff15/source/ff.c:4467-4473 | The inner loop takes a maximal run of consecutive clusters, and fails only for a chain whose end cannot be told from a next cluster. |
| OpenFile.Fil.CreateLinkMap | lib/no-OS-FatFS/src/ff15/source/ff.c:4459-4484 | On success the map stands for the whole chain; the item count reported is 2 + 2 * fragments whether or not they fit the table, and they do not fit exactly when it reports so; then the table stays in use with the pairs that fit for the first clusters of the chain and its old items behind them, and the file is in order exactly if these items come to an end and continue the chain; it is an internal error exactly for the chain whose end is ambiguous. |
| Format.ChooseLayout | lib/no-OS-FatFS/src/ff15/source/ff.c:6186-6258 | The loop ends (FAT type and "cluster size still open" decrease); a layout it settles on has a cluster number within its FAT type and keeps to the caller's options; without options and with small erase blocks it always finds one. |
| Format.AutoCluster | lib/no-OS-FatFS/src/ff15/source/ff.c:6189-6203 | The automatic choice is a power of two up to 64 that doubles at each boundary of the table. |
| Format.AutoSizeDoubles | lib/no-OS-FatFS/src/ff15/source/ff.c:5889-5890 | The boundaries in numbers. |
| Format.CardLayout | lib/no-OS-FatFS/src/ff15/source/ff.c:6186-6258 | A card of 32 GB with erase blocks of 128 sectors: FAT32 with clusters of 64 sectors, and all sizes in numbers. |
| Format.SmallCardLayout | lib/no-OS-FatFS/src/ff15/source/ff.c:6186-6258 | A volume of 2 GB with two FATs: FAT16, and all sizes in numbers. |
| Format.TypesByClusters | lib/no-OS-FatFS/src/ff15/source/ff.c:3539-3543 | The numbers of clusters at which a FAT type ends and the next one begins. |
| Format.MountedExample | lib/no-OS-FatFS/src/ff15/source/ff.c:3512-3561 | Where the parts of a FAT16 volume are found, in numbers. |
| Format.DataAreaAligned | lib/no-OS-FatFS/src/ff15/source/ff.c:6218-6227 | After the adjustment the data area starts on an erase block, with one FAT or two. |
| Format.FormatThenMount | lib/no-OS-FatFS/src/ff15/source/ff.c:6265-6298 | Round trip: mounting reads from the boot record of every layout settled on the same FAT type, cluster count and places, and refuses it exactly if the volume is too small for one cluster behind the aligned system area. |
| Format.SmallBlocksMount | lib/no-OS-FatFS/src/ff15/source/ff.c:6218-6231 | With erase blocks of at most 15 clusters and a sector (1 sector is what this repository's glue code reports) every volume formatted is accepted. |
| Format.AlignmentCanTakeAll | lib/no-OS-FatFS/src/ff15/source/ff.c:6218-6231 | A concrete volume that formatting makes and mounting refuses. |
| Format.FieldsFit | lib/no-OS-FatFS/src/ff15/source/ff.c:6268-6292 | Every size of a layout fits its field of the boot record, and the FAT has room for an entry for every cluster. |
| Format.MountedIsWellFormed | lib/no-OS-FatFS/src/ff15/source/ff.c:3512-3561 | Whatever mounting accepts has the geometry that all of the above relies on if and only if reserved sectors, FATs and root directory add up to less than 2^32. |
| Format.MountWraps | lib/no-OS-FatFS/src/ff15/source/ff.c:3512-3561 | A boot record whose sum wraps: it is mounted with FATs that reach beyond where the data area is taken to begin. |
| Format.MountedFits | lib/no-OS-FatFS/src/ff15/source/ff.c:3528-3549 | The clusters of a mounted volume lie within the sectors its boot record counts. |
| Format.FillVolume | lib/no-OS-FatFS/src/ff15/source/ff.c:6313-6339 | Through a buffer of any size: it succeeds exactly if no write to the drive fails, and then each FAT has its first sector and is blank behind it, and the root directory is blank; no other sector changes in any case. |
| Format.NewVolume | lib/no-OS-FatFS/src/ff15/source/ff.c:6300-6331 | On a new volume the FATs are equal, the two reserved entries are the media byte under ones and an end mark, and as many clusters are free as the volume is told; on FAT32 cluster 2 is a chain of its own, and every other cluster is free. |
| Format.NewRootIsBlank | lib/no-OS-FatFS/src/ff15/source/ff.c:6333-6339 | On a new FAT32 volume cluster 2, the root directory, is the area behind the FATs that was blanked. |
| LongName.Directory.DirAlloc | lib/no-OS-FatFS/src/ff15/source/ff.c:1806-1837 | The first block of so many free entries, in a directory stretched only by blank ones; refused only when there is no such block and no cluster to stretch it by. |
| LongName.PutLfn | lib/no-OS-FatFS/src/ff15/source/ff.c:1959-1984 | A part holds its 13 characters of the name, a 0 and filler behind its end, and the mark exactly in the last part, also when the length is a multiple of 13. |
| LongName.PlacesFill | lib/no-OS-FatFS/src/ff15/source/ff.c:516 | The characters of a part fill bytes 1 to 10, 14 to 25 and 28 to 31 of the entry and nothing else. |
| LongName.PlacesIncrease | lib/no-OS-FatFS/src/ff15/source/ff.c:516 | They lie there in their order. |
| LongName.PartIsUnique | lib/no-OS-FatFS/src/ff15/source/ff.c:1959-1984 | No byte of a part is left open. |
| LongName.PartOfAbcde | lib/no-OS-FatFS/src/ff15/source/ff.c:1959-1984 | The part of a name of five characters, byte by byte. |
| LongName.PickLfn | lib/no-OS-FatFS/src/ff15/source/ff.c:1921-1950 | For every entry whatever: it is accepted exactly if it is a proper part that fits the buffer, and then its characters, and nothing else, go to their place. |
| LongName.PartRoundTrip | lib/no-OS-FatFS/src/ff15/source/ff.c:1921-1984 | A part that is put and picked up again restores its piece of the name, the closing 0 with the last part. |
| LongName.SumSfn | lib/no-OS-FatFS/src/ff15/source/ff.c:2053-2064 | The checksum is the rotating sum of the 11 characters of the short name. |
| LongName.SumRotates | lib/no-OS-FatFS/src/ff15/source/ff.c:2053-2064 | One byte more is added to the sum rotated to the right by one bit. |
| LongName.Directory.DirRegister | lib/no-OS-FatFS/src/ff15/source/ff.c:2524-2557 | A name of 1 to 255 characters is stored in the first block of free entries that is large enough: its parts, the last first, with the checksum of the short entry that follows them; no other entry changes. |
| LongName.ScanMeetsName | lib/no-OS-FatFS/src/ff15/source/ff.c:2318-2370 | In whatever state a scan comes to a stored name, it takes it up from its first entry and ends at its short entry. |
| LongName.Directory.DirRead | lib/no-OS-FatFS/src/ff15/source/ff.c:2306-2374 | It stops at the next object; when that has a long name stored by the above, the buffer holds exactly that name, closed by a 0. |
| LongName.NextIsFirstObject | lib/no-OS-FatFS/src/ff15/source/ff.c:2318-2370 | The object a scan stops at is the first entry before any never used one that is not deleted, no dot entry, no volume label and no part of a long name. |
| LongName.Registered | lib/no-OS-FatFS/src/ff15/source/ff.c:2465-2560 | Reading the directory from the start after a name was stored lists the objects it did before, in the same order, with the new one among them. |
| LongName.OtherNamesKept | lib/no-OS-FatFS/src/ff15/source/ff.c:2524-2557 | Names stored before are still stored. |
| Pattern.AnalyzeTerm | lib/no-OS-FatFS/src/ff15/source/ff.c:2817-2824 | A term of wildcards is reduced to how many characters it stands for at least, in 8 bits, and whether it stands for more. |
| Pattern.MatchHere | lib/no-OS-FatFS/src/ff15/source/ff.c:2813-2832 | One attempt is right about its place, and where it reports the end of the name no later place can match: the early stop loses nothing. |
| Pattern.TestName | lib/no-OS-FatFS/src/ff15/source/ff.c:4740 | For patterns without overlong terms: true exactly if the pattern has at most four terms and the name matches it, `?` standing for one character and `*` for any run. |
| Pattern.MatchExample | lib/no-OS-FatFS/src/ff15/source/ff.c:2793-2837 | `a*b?` matches `axxbc` and not `axxb`. |
| Pattern.ExactlyWhen | lib/no-OS-FatFS/src/ff15/source/ff.c:2793-2837 | The answer is right for every name if and only if the pattern has at most four terms of wildcards, each with fewer than 256 `?`. |
| RingBuffer.Ringbuffer.LoadTail | lib/Ring-Buffer/ringbuffer.hpp:351-362 | From a possibly outdated tail the producer never takes more slots than are free, except exactly where an insert with a narrow index type finds the buffer full across the wrap. |
| RingBuffer.Ringbuffer.CopyIn | lib/Ring-Buffer/ringbuffer.hpp:363-365 | A copy goes to a slot that the consumer is not to read. |
| RingBuffer.Ringbuffer.StoreHead | lib/Ring-Buffer/ringbuffer.hpp:367-371 | Publishing appends what was copied to all that was accepted, and disturbs no read in progress. |
| RingBuffer.Ringbuffer.StoreTail | lib/Ring-Buffer/ringbuffer.hpp:426-430 | Giving slots back only adds to what is gone, and disturbs no write in progress. |
| RingBuffer.Ringbuffer.Run | lib/Ring-Buffer/ringbuffer.hpp:58-219 | Under any interleaving of the steps of any calls, each turn moves its side on by one step and leaves the other's call alone, and at every moment buffer and calls are in order, so that what the next two rows say holds of each call that is finished then; what is read is what was accepted in the same place, in order, nothing lost or twice; never more elements in the buffer than it has slots; and if nothing is dropped the elements read are the first ones accepted. Only an insert with a narrow index type into a buffer that is full across the wrap cuts a run short. |
| RingBuffer.WriteReturns | lib/Ring-Buffer/ringbuffer.hpp:351-408 | A finished write has put in, one behind the other, exactly the items it counts, of an insert the one item, and left some out only because the buffer was full when it looked. |
| RingBuffer.ReadReturns | lib/Ring-Buffer/ringbuffer.hpp:410-467 | A finished read delivered the elements it took out, no more than wanted (one, or as many as asked for, or all there were when the buffer was cleared), and fewer only because there were none when it looked. |
| RingBuffer.IndexDistance | lib/Ring-Buffer/ringbuffer.hpp:82-95 | The difference of the wrapped indices is the number of elements in the buffer, from 0 to its size. |
| RingBuffer.FullTest | lib/Ring-Buffer/ringbuffer.hpp:102-107 | The test for a full buffer is right if and only if the index type is as wide as `int`, or the buffer is not full, or its indices have not wrapped apart. |
| RingBuffer.NarrowIndexOverruns | lib/Ring-Buffer/ringbuffer.hpp:102-107 | With 8-bit indices a full buffer of 16 is taken for one with room. |
| Heaters.HysteresisController.GetControlSignal | src/Controller/Core0/Util/HysteresisController.cpp:11-27 | All slots or none: on at or below the lower bound, off at or above the upper one, in between as before. |
| Heaters.PidController.UpdatePidSignal | src/Controller/Core0/Util/PIDController.cpp:54-89 | Whatever the settings, the output is a whole number from 0 to 10: the rounded, clamped sum of the three terms; and the integral stays within its limits. |
| Heaters.TermsAlone | src/Controller/Core0/Util/PIDController.cpp:58-73 | What each of the three terms contributes. |
| Heaters.SlotsOfOutput | src/Controller/Core0/Util/PIDController.cpp:37-51 | The scale from 0 to 10, with the feed-forward cut to it, is spread evenly over the 25 slots. |
| Heaters.PidController.GetControlSignal | src/Controller/Core0/Util/PIDController.cpp:29-52 | From 0 to 25 slots for any temperature, settings and feed-forward: the scaled sum of the updated output and the clamped feed-forward, clamped. |
| Heaters.HybridController.GetControlSignal | src/Controller/Core0/Util/HybridController.cpp:24-35 | From 0 to 25 slots; inside the band the signal is that of the PID controller, outside or when it is forced that of the hysteresis; both take their step for the temperature all the time, the PID controller with its three terms. |
| LccPacket.ValidatesAllowed | src/Controller/Core0/Protocol/lcc_protocol.cpp:8-65 | A packet passes the machine's test if and only if not both heaters are on and the service boiler is filled only with the pump on; it is read as the switches it was made of. |
| LccPacket.SwitchBits | src/Controller/Core0/Protocol/lcc_protocol.cpp:8-19 | Which bit of which byte of a packet switches pump, solenoids, heaters and buttons. |
| LccPacket.PacketIsUnique | src/Controller/Core0/Protocol/lcc_protocol.cpp:8-19 | No other packet has these bits and no more, with header and checksum in place. |
| LccPacket.SafeIsOff | src/Controller/Core0/Protocol/lcc_protocol.cpp:35-37 | The safe packet passes the test and switches everything off. |
| LccPacket.BrewHeaterPacket | src/Controller/Core0/Protocol/lcc_protocol.cpp:8-19 | The packet that heats the brew boiler and does nothing else, byte by byte. |
| LccPacket.ValidatedIsAllowed | src/Controller/Core0/Protocol/lcc_protocol.cpp:21-65 | Every packet that passes the test reads as switches that may be sent, and making a packet of them gives it back. |
| Controller.SharesFit | src/Controller/Core0/SystemController.cpp:245-255 | The shares of the boilers are not negative and fit the 25 slots; a brew keeps all the heat it asks for; when shares are cut every slot is used; and, as the service boiler asks for all or nothing, no boiler gets more than it asks for. |
| Controller.SharesNotProportional | src/Controller/Core0/SystemController.cpp:217-255 | The share the comment promises is given, when both boilers want heat, for six wishes of the brew boiler only, and for three during a brew; at 25 slots each the code gives 18 for 13. |
| Controller.ScheduleCounts | src/Controller/Core0/SystemController.cpp:255-272 | The slots of a refill are 25, and of these each boiler has its share; those of the brew boiler come first and those without heat last. |
| Controller.SystemController.Refill | src/Controller/Core0/SystemController.cpp:226-273 | Every refill lets both controllers take their step for the average temperatures, makes exactly 25 slots, those of the brew boiler first, and gives each boiler its share of what its controller then asks for, nothing in eco mode for the service boiler; no boiler gets more than it asks for, and one beyond its bounds asks for all or nothing. |
| Controller.FeedForwardFalls | src/Controller/Core0/SystemController.h:44-50 | What a brewing boiler gets on top starts at 5, falls evenly, and is used up after 20 seconds. |
| Controller.SystemController.HandleWater | src/Controller/Core0/SystemController.cpp:191-215 | Brewing needs its switch and, to begin, water, and each flow mode does to pump and solenoid what it says; the service boiler is never filled while brewing or from an empty tank; no other water flows. |
| Controller.SystemController.HandleControlBoardPacket | src/Controller/Core0/SystemController.cpp:182-291 | Each round uses the next slot, of those left or else of a refill, and adds just the heater of that slot to the water; the controllers take a step exactly for a refill; the packet may be sent; the bail-out for an empty queue cannot be reached. |
| Controller.SystemController.SendLccPacket | src/Controller/Core0/SystemController.cpp:150-163 | What is sent passes the test; while the machine is running its bits are those of the switches prepared, and else it is the safe packet; the bail-out for an invalid packet cannot be reached. |
| Controller.SystemController.Judge | src/Controller/Core0/SystemController.cpp:55-88 | A missing or invalid reply bails out and is not made use of, a hard bail stays, and the timer of a soft bail is set, reset and run out as described. |
| Controller.SystemController.HandleCommands | src/Controller/Core0/SystemController.cpp:293-389 | The last of the waiting commands to begin, to unbail and to bail hard is obeyed, in every state, and without one the state stays; eco mode and flow mode are what the last command that sets them says, the timer is cleared by a command to unbail alone, and after them both controllers have the current settings with all their bounds. |
| Controller.LastCommandDecides | src/Controller/Core0/SystemController.cpp:338-349 | From every state the last command to begin, to unbail or to bail hard leads to running, running and a hard bail. |
| Controller.NoneDecides | src/Controller/Core0/SystemController.cpp:298-365 | No other command changes the state. |
| Controller.LastModeCounts | src/Controller/Core0/SystemController.cpp:329-365 | Eco mode and flow mode are those of the last commands that set them. |
| Controller.SystemController.Loop | src/Controller/Core0/SystemController.cpp:36-148 | One round sends the packet made in the round before if the machine is running and the safe one otherwise; only a good packet is made use of; the last command that decides is obeyed and the settings take effect; unless bailed it prepares water and the heater of the next slot, down to the bits of the packet, the controllers taking a step exactly when the slots are used up; while bailed it prepares nothing, uses no slot and leaves the controllers alone; and what is on record stays a run of the state machine. |
| Controller.SystemController.Run | src/Controller/Core0/SystemController.cpp:36-148 | In every run the record holds the given rounds, one after the other; every packet sent passes the test and is the safe one before the start and while bailed; only a command to unbail or to begin ends a hard bail, and every such command and every one to bail hard is obeyed unless a later one of the round overrides it; and if no command to begin comes in a round that its reply leaves bailed, or all of them are harmless, a soft bail ends without a command only after more than two seconds of soft bail in which every round brought a complete packet, and a missing or invalid reply makes the machine bail. |
| Controller.RunsAreSafe | src/Controller/Core0/SystemController.cpp:150-163 | Of every run of the state machine: rounds follow on each other, only safe packets go out unless it is running, and nothing but a command ends a hard bail. |
| Controller.RunsObey | src/Controller/Core0/SystemController.cpp:293-370 | Of every run: a round with one of these commands ends as the last of them wants it. |
| Controller.HardBailLasts | src/Controller/Core0/SystemController.cpp:74-83 | From a hard bail on the machine stays bailed and sends only the safe packet, however long, until such a command. |
| Controller.SoftBailsWait | src/Controller/Core0/SystemController.cpp:55-83 | In every run with harmless commands to begin only, every soft bail that ends without a command to unbail has lasted, as a soft bail, for more than two seconds of complete packets, and a running machine bails for every missing or invalid reply unless told to begin in the same round. |
| Controller.RepliesAnswered | src/Controller/Core0/SystemController.cpp:55-88 | In these runs a round without such a command ends as its reply wants it: a good one leaves a running machine running and any other makes it bail softly, a soft bail ends exactly when there have been complete packets for more than two seconds, and otherwise nothing changes. |
| Controller.TimerMeansBail | src/Controller/Core0/SystemController.cpp:66-83 | In these runs a timer is set only in a bail, and in a soft bail it was set by the first of the complete packets that have come since it began. |
| Controller.NoBeginIsHarmless | src/Controller/Core0/SystemController.cpp:344-346 | Runs in which no command to begin comes in a round that its reply leaves bailed are among them. |
| Controller.KeptExactlyIfHarmless | src/Controller/Core0/SystemController.cpp:55-96 | The guarantee holds of everything a run can be followed by without commands, from each of its moments on, if and only if all its commands to begin are harmless. |
| Controller.BeginBreaks | src/Controller/Core0/SystemController.cpp:344-349 | Every command to begin that is not harmless breaks the guarantee, at once or in at most two more rounds without a command. |
| Controller.OldTimerBreaks | src/Controller/Core0/SystemController.cpp:66-83 | From every run that stands running with a timer set, an invalid packet, at which the machine does not bail if the timer has run out, and else a complete one, make a run that breaks the guarantee. |
| Controller.BeginAfterInvalid | src/Controller/Core0/SystemController.cpp:55-96 | Two runs in which each command to begin comes in a round that begins before the start or running: in one a soft bail lasts for a microsecond, in the other an invalid packet does not make the machine bail. |
| Controller.LateBeginBreaks | src/Controller/Core0/SystemController.cpp:344-349 | A run in which a command to begin that ends a hard bail breaks the guarantee. |
| Slip.GetFrameLength | lib/slip/slip.cpp:133-141 | The length announced is that of the frame encoding makes. |
| Slip.FrameOfSpecials | lib/slip/slip.cpp:21-51 | A frame with both escapes, byte by byte (RFC 1055, section "PROTOCOL"). |
| Slip.Encode | lib/slip/slip.cpp:21-51 | It writes the frame of the packet, END, escaped bytes, END, and nothing behind it. |
| Slip.Decode | lib/slip/slip.cpp:53-87 | For every frame: the bytes decoded from left to right, with the last byte once more if the frame ends in a complete escape; it reads within the frame if and only if the frame does not both have the largest length and end so. |
| Slip.RepeatsLastByte | lib/slip/slip.cpp:66-84 | A frame whose last byte is decoded twice. |
| Slip.LongestFrameOverruns | lib/slip/slip.cpp:58-84 | There is a frame of the largest length that ends in a complete escape. |
| Slip.DecodedFrame | lib/slip/slip.cpp:21-87 | Decoding undoes encoding, with or without the leading END. |
| Slip.GetFrame | lib/slip/slip.cpp:89-131 | It delivers everything up to the first END that is not the first byte, and nothing if there is none. |
| Slip.StreamRoundTrip | lib/slip/slip.cpp:21-131 | Any list of packets sent one after the other comes back the same when frames are taken and decoded until none is left. |
| Slip.LostStart | lib/slip/slip.cpp:110-114 | When the first END is lost every packet still comes back, unless the first one is empty. |
| Slip.StrayEnd | lib/slip/slip.cpp:104-108 | A stray END in front yields one empty packet more and costs nothing. |
| Crc.CrcForByte | src/utils/crc32.cpp:7-11 | Its entry is eight steps of the register, off by a constant. |
| Crc.Crc32 | src/utils/crc32.cpp:13-21 | The form with the complemented register computes the check value of the bytes, whether or not the table was filled before. |
| Crc.TableIsRight | src/utils/compile_time_crc.hpp:36-90 | Each of the 256 numbers written out in the table is what eight steps of the register make of its index. |
| Crc.Compute | src/utils/compile_time_crc.hpp:92-102 | The standard table form computes the same check value, from any earlier one on. |
| Crc.ContinuedChains | src/utils/compile_time_crc.hpp:92-102 | The check value of two parts is that of the second one, begun with that of the first. |
| Crc.NextCrc | lib/no-OS-FatFS/src/ff15/source/ff.c:3221-3234 | The bit-serial form makes the same step of the register for every byte. |
| Crc.CheckValue | lib/no-OS-FatFS/src/ff15/source/ff.c:3250-3253 | Begun with all ones and complemented at the end, it computes the same check value too. |
| Crc.CheckOfDigits | src/utils/crc32.cpp:13-21 | The check value of the digits 1 to 9 is CBF43926. |

## Left out

- exFAT, directories as files of their own, paths, opening and closing (but for the handle that opening leaves), truncation, synchronising directory entries, volume labels, timestamps, sharing locks and mutexes, `f_expand`, `f_printf` and the like: they are not needed for the properties above.
- The window and the buffers are fields with values. Pointers into the window that outlive a move of it are not captured.
- The drive and the file system object are one object, with a count of failed drive calls that the code does not keep. After an error nothing is claimed of the content of the file that met it, as the code refuses to go on with it.
- `csize` is a power of two; `x & (csize - 1)` is written as a remainder, and so are the other masks.
- FatVolume.FatFs.MoveWindow: sectors of the second FAT are not asked for, as the code never does.
- A link map stays valid while the file's chain only grows; truncating a file with a link map is not modelled.
- OpenFile.Fil.constructor: opening for appending seeks to the end itself; that loop is not modelled.
- FileRuns.Run: buffers given by the caller are values.
- Partition tables, boot code and the volume serial number.
- Format.FormatThenMount: the sector size field and the file system version field are constants on both sides and are not part of the boot record modelled.
- LongName.Directory.DirRegister: short names and their collisions are chosen by the caller; the directory is the sequence of its entries, and reaching the largest directory size counts as having no cluster to add.
- Pattern.TestName: names are sequences of decoded, case-folded characters; code pages are not modelled.
- RingBuffer.Ringbuffer.Run: loads and stores are sequentially consistent, which acquire and release make of them here; `producerClear` (documented as unsafe), `peek`, `at` and indexing are left out, and so is `insertFromCallbackWhenAvailable`, which differs from `insert` only in where the element comes from. What a buffer does after an overrun is not modelled.
- Controller.SystemController.Run: what the latches and the averages of the temperatures say in a round (their own memory of packets is not modelled) and the settings in force (which commands, the other core, sleep and heat-up change) are inputs of a round, floating point is real arithmetic with a positive time between calls of the PID controller; status messages are left out.
- Slip.Encode: buffers of the caller must be large enough, and lengths fit 16 bits, as the interface demands; so must a frame to decode have a byte.
- The serial bootloader, the ESP link, SD card drivers, temperature conversions and the settings store are thin wrappers, hardware access or field copying.
