# A model of the kernel's FAT32 driver and memory managers

The modules here model `src/fs/fat.c`, the FAT32 driver of a small i386 kernel, and its neighbours `src/mm/kheap.c`
(the kernel heap), `src/mm/pmm.c` and `src/mm/vmm.c` (page frames and page tables) and `src/driver/keyboard.c` (the
keyboard ring), and prove what they are for. The format is that of the Microsoft FAT Specification (August 2005):
section 4 for the FAT, 5 for FSInfo, 6 for directories and 7 for long names.

## How the driver is modelled

The driver is imperative, and so is the model: its classes have the source's fields, and its methods follow the source
branch by branch. Each layer is proved against a specification that the next one uses.

- `BlockDevice.Device`: whole sectors behind reads and writes, each of which may fail. `faults` counts the failures, and
  a result that needs working hardware says "`faults` is as it was". `images` records everything the device has held.
- `Layout`: the geometry, and the tables of 28-bit entries as a view of the sectors.
- `Chains`: tables of entries and their chains, without sectors: releasing, allocating, extending.
- `WriteOrder`, `Volume.Fat`: the one-sector buffer. `view` is the logical disk, the device with the buffered sector
  laid over it. `trace` is the journal of the run: every logical disk and every device write in order.
- `Names`, `LongNames`, `Listing`: slots, the groups of slots that make up an entry, and the list of entries that a
  sequence of slots parses to. `Clusters`, `Directory.Dir`: the cursor over the slots of a directory's clusters.
- `FileData`, `Files.File`: the bytes of a file in the sectors of its chain, and the buffered cursor over them.
- `Owners`, `Tree`, `Edits`, `Dots`, `Paths`: the volume as a tree of directories whose chains, together with lost
  clusters, are exactly the clusters in use, each of them once. `Tree.Sound` is the invariant: the logical disk is well
  formed and holds the tree. A freshly formatted volume is where it starts (`Blank.FormattedSound`).
- `FileSystem.FileSystem`, `OpenFiles`: the operations on paths and on open files, each of which keeps `Sound` and says
  what has become of the tree.
- `Sessions`, `Histories`, `Chronicles`: whole runs. A run of reads, writes and seeks on a file is a run on a sequence of
  bytes and a position. A run of commands on a volume keeps it sound, leaves a journal that explains whatever the device
  holds, and a log of events with the scene before and after each command. What the log says is that a run is one on a
  map from paths to bytes.

The heap's linked list lives in a memory of words that its methods rewrite in place; a frame bitmap refines a set of
frames; page tables in memory refine a map from pages to frames; and the keyboard ring is a state machine whose
interrupt may come between any two steps of its reader.

## Main results

- **Crash consistency.** Nothing is reordered by the buffer: every image the device ever holds is the logical disk at a
  flush, with just the file data laid over it that was written since, and later images belong to later moments
  (`Volume.Fat.CrashConsistent`). No such image has a link to a free cluster: the table never has one while chains are
  stretched and released, because lost clusters have no links (`Volume.Fat.NeverDangled`, `Owners.ReleaseSafe`,
  `Histories.RunFromBlank`).
- **Allocation and release.** The exact choice of the circular scan and when it finds none (`Chains.ChooseSpec`);
  release terminates on every table, cyclic ones included, and succeeds if and only if a proper chain starts at its
  argument (`Chains.ReleaseSucceedsIff`). The free count stays in step modulo 2^32, failures included.
- **The format in numbers.** What the model's functions mean is stated in bytes of sectors, without their names: entries
  of the FAT and what their values mean (`Layout.EntryBytes`, `Chains.KindNumbers`), the slots of a directory and the
  bytes of a file (`Clusters.SlotOnDisk`, `FileData.ContentOnDisk`), the fields of a slot (`Names.SfnSlotBytes`,
  `LongNames.LfnSlotBytes`, `Files.EntryAfterBytes`), and the counters in FSInfo (`Layout.PutInfoReads`).
- **Directories.** Parsing a directory gives a list. Adding inserts one entry and nothing else, and it is then found;
  removing takes it out again (`Listing.AddedItems`, `Listing.EntryFound`). Adding succeeds exactly if there is room
  in the directory as far as it can be stretched, and leaves the list alone otherwise (`Directory.Dir.Add`). Long
  names survive the round trip (`LongNames.NameRoundTrip`), and groups that are not as written are refused, whatever
  the directory holds (`Directory.Dir.Search`, `Directory.Dir.ParseLfnName`).
- **Files.** Any run on an open file is a run on bytes and a position, up to the first operation that ends beyond the
  clusters that the file has or can get; and after closing the device holds the result (`Sessions.Run`,
  `Sessions.UseAndClose`).
- **The volume.** Any run of creating, making directories, writing and unlinking keeps the FAT a disjoint union of
  chains, one for each live entry and one for the root, with the mirror and the free count in step (`Histories.Run`).
  Creating fails in exactly two ways (`FileSystem.NotCreated`). Unlinking ends exactly as the state of the
  entry demands (`FileSystem.FileSystem.Unlink`).
- **Paths and bytes.** A command changes the file that it names and no other: every other file keeps its chain and its
  bytes (`Tree.SameFiles`, in the contract of every operation), and every path to another entry names it still
  (`Chronicles.OtherPaths`, `FileSystem.CreatedPaths`, `FileSystem.UnlinkedPaths`). The bytes that one use of a
  file leaves at a path are those that the next use finds there, however long the run in between, if no command of it is
  about the same entry (`Chronicles.ReadAtPath`).
- **Memory.** The heap stays a gap-free tiling, gives out less than 20 bytes too much, fails only when no free stretch is
  large enough, and returns to its initial state (`Heap.EveryRun`, `Heap.TakenFreeBytes`, `Heap.RoomMeansSuccess`).
  Mapping changes exactly one page (`Paging.Vmm.Map`), and without a frame for its table does so under an exact
  condition (`Paging.NullFrameIff`).
- **Keyboard.** Under every interleaving, what is delivered is a prefix of what was accepted, and a character is dropped
  if and only if 255 are pending (`Keyboard.EveryRun`).

## What the code does that one would not expect

These follow from the source and are part of the model. Where the code falls short of what its comments or the format
promise, the model keeps the code's behaviour and says when it is right.

- A write to an empty file stores nothing and is counted as written in full, because positioning in an empty file goes
  back to 0 (`src/fs/fat.c:1417-1422`; `Files.File.WriteNowhere`). So a file that this driver has created or truncated
  never gets its first byte, and on a volume that only this driver has written to, every file is empty
  (`Chronicles.NoBytesKept`, `Chronicles.EmptyFromBlank`).
- `fat_file_write` always returns success when writing is allowed: its inner `err` hides the outer one
  (`src/fs/fat.c:1368`). Without device faults the cursor shows whether the write ran to its end; after a fault it may
  not, because the offset is set before the sector is loaded (`src/fs/fat.c:1460-1476`).
- Cursors that would stand just behind the last cluster need a cluster of their own. So, on a full volume, reading to
  the end of a file that fills its last cluster reports `FAT_ERR_FULL` although every byte is delivered, and so does
  opening it for appending (`Files.File.AtBrink`, `Files.BrimExample`). A write that fills the last cluster stores
  every byte and counts it, but the cursor and the end of the file stay before its last chunk (`Files.File.CutShort`).
- A seek that is refused as full has already moved the cursor's cluster to the end of the chain, and may have
  stretched it, while the offset stays (`src/fs/fat.c:1437-1456`). With a chain of three clusters of at least two
  sectors each, offset 0 and a seek into a fourth, reading on past the first sector loads a sector of the third cluster.
  The file can go on from its offset if and only if that is in the last cluster (`Files.File.RefusedReadyIff`). A seek
  from there finds its way if and only if that holds or the target is in an earlier cluster than the offset
  (`Files.File.CanSeekIff`): with the offset in the second sector of the file, going back to its start loads a sector
  of the third cluster as well, and going on to the second cluster is refused (`Files.LostCursor`). Closing is safe at
  any rate (`OpenFiles.FileClose`).
- `dir_add` moves on to the slot behind the new entry before it stores anything, so a directory with just enough room at
  its very end is stretched all the same, or refused on a full volume (`Listing.HasRoom`).
- A seek past the end followed by a write exposes what the clusters held between the end and the cursor
  (`Files.File.Base`).
- Unlinking an entry without clusters releases entry 0 of the FAT and counts one cluster too many
  (`src/fs/fat.c:1223`; `Chains.ReleaseCounts`, `Edits.ReleaseFreed`). It works once; after that entry 0 is free and
  such an unlink fails with `FAT_ERR_BROKEN`.
- Mounting leaves the flags as they are. If they say that the buffer is dirty, as they do after an unmount that failed,
  the first load of a sector writes the stale buffer to sector 0 (`src/fs/fat.c:1107-1121`); so they have to be clear
  (`Volume.Fat.Mount`).
- Unlinking an empty directory without an end mark fails with `FAT_ERR_EOF` (`src/fs/fat.c:1202-1220`;
  `Edits.EmptyVerdict`). This driver keeps end marks, so that takes a directory which another one has filled to its last
  slot (`FileSystem.MarkedNeverEof`, `Histories.Run`). `dir_at_root` also holds on the root's first slot, so an entry
  whose 8.3 slot is there cannot be unlinked (`FileSystem.FileSystem.AtRootIff`).
- The scan for a free cluster does not end if `last_used` is no cluster number and no entry is free or unreadable, and
  mounting takes `last_used` from FSInfo unchecked (`Chains.ScanEndsIff`). Its error exit returns the flags of the entry
  before, so that creating a chain can report success after a device fault (`src/fs/fat.c:423`;
  `Volume.Fat.FindCluster`).
- Walking a directory needs the data region to be aligned to the cluster size (`Layout.BoundaryTestExact`).
- `clust_cnt` counts the slots of the FAT rather than the clusters of the data region, so the allocator can hand out
  clusters that do not exist (`src/fs/fat.c:1088`), and the count of clusters that the probe tests comes from the boot
  sector and not from the device (`src/fs/fat.c:1024-1026`): `Blank.ClusterBeyondDevice` is a volume on which it does,
  and `FileData.FreeOnDeviceIff` says exactly when it cannot.
- The bit of `ext_flags` that turns mirroring off is read the other way round than section 3 of the Microsoft FAT
  Specification has it (`src/fs/fat.c:1080-1093`). The results hold for both readings: with and without a mirror.
- Short names have their digits replaced by `_` (`src/fs/fat.c:591-606`). A name with a byte 0xff is stored but cannot
  be read back (`LongNames.ReadableIff`).
- When an entry cannot be stored although there was a cluster for it, because the name is longer than 255 bytes or the
  directory has no room and cannot be stretched, that cluster stays allocated without an owner
  (`FileSystem.NotCreated`).
- Making a directory at a path that exists reports success (`FileSystem.FileSystem.DirCreate`).
- The heap's rounding wraps for requests above 2^32 - 8 (`Heap.RoundedEnough`). Headers have 12 bytes, so pointers are
  multiples of four and need not be of eight, although requests are rounded to eight (`Heap.EveryRun`).
- Freeing a held frame that is not managed puts the free count out of step (`Frames.FreeKeepsCountIff`), and frames
  beyond the first GiB have no bit (`Frames.ClipIff`).
- If no frame is left for a page table, frame 0 is cleared and used, and the second slot to get it shares its entries with
  the first (`Paging.SharedTable`, `Paging.NullFrameIff`). `vmm_init` installs 256 tables and fills 64 of them.

## Model

| member | source | states |
|---|---|---|
| BlockDevice.Device.Read | src/fs/fat.c:253-254 | a sector is read whole, or the read fails and the buffer is as it was |
| BlockDevice.Device.Write | src/fs/fat.c:236-237 | a sector is written whole and the new device contents are recorded, or the device is as it was |
| Bytes.WordNumber | src/fs/fat.c:293-304 | a word of a sector is the number that its four bytes stand for, least significant byte first |
| Layout.MountGeometryWf | src/fs/fat.c:1080-1093 | the geometry that mounting computes keeps FSInfo, both FATs and the data region disjoint and on the device, whichever FAT is active |
| Layout.ActiveFat | src/fs/fat.c:1080-1093 | which FAT is active and which is the mirror, for each value of the two flag bits, where the other regions are, and that without a mirror a probed volume works on the FAT that its flags number |
| Layout.SectToClustInverts | src/fs/fat.c:220-229 | `sect_to_clust` inverts `clust_to_sect` on every sector of a cluster |
| Layout.ClustersAbut | src/fs/fat.c:226-229 | cluster 2 starts the data region, and the others follow without gaps |
| Layout.ClustersDisjoint | src/fs/fat.c:226-229 | sectors of different clusters, and different sectors of one cluster, are different sectors |
| Layout.BoundaryTestExact | src/fs/fat.c:505-509 | the mask test of `dir_next` on absolute sector numbers finds exactly the cluster boundaries if and only if the data region is aligned to the cluster size |
| Layout.WordsDistinct | src/fs/fat.c:293-295 | FAT words of distinct clusters, and words of the two FATs, never alias |
| Layout.EntryBytes | src/fs/fat.c:291-304 | an entry is the low 28 bits of four bytes of the active FAT, 128 entries a sector |
| Layout.PutWordReads | src/fs/fat.c:333-334 | `put_fat2` replaces the low 28 bits of one word, keeps its upper nibble, and touches no other word of any FAT |
| Layout.PutFatWords | src/fs/fat.c:341-351 | in both FATs exactly the one entry changes and every upper nibble is kept |
| Layout.PutFatTable | src/fs/fat.c:341-351 | seen as a table of 28-bit entries, `put_fat` is a single update |
| Layout.PutFatElsewhere | src/fs/fat.c:341-351 | sectors outside the FATs are untouched |
| Layout.PutFatMirrored | src/fs/fat.c:341-351 | if the two FATs agreed on the low 28 bits of every entry, they still do |
| Layout.PutInfoReads | src/fs/fat.c:275-278 | storing the counters in FSInfo is read back, from bytes 488 to 491 and 492 to 495, and changes neither the tables nor the data |
| Chains.CountFreeUpdate | src/fs/fat.c:370-374 | what one update of an entry does to the number of free entries |
| Chains.KindNumbers | src/fs/fat.c:305-314 | what the values of an entry mean |
| Chains.ChainUnique | src/fs/fat.c:498-526 | there is only one end-terminated chain from a given cluster |
| Chains.ChainDistinct | src/fs/fat.c:361-379 | a chain that ends never visits a cluster twice |
| Chains.ChainsMerge | src/fs/fat.c:361-379 | chains that share a cluster share everything after it |
| Chains.ReleaseChain | src/fs/fat.c:354-382 | releasing an end-terminated chain frees exactly its clusters, reports success, and counts each once |
| Chains.ReleaseToMark | src/fs/fat.c:354-382 | a chain of cluster numbers that any value from 0x0ffffff8 on ends is released as a whole |
| Chains.ReleaseStops | src/fs/fat.c:354-382 | an entry that is free, bad by 0x0ffffff7, or neither a cluster number nor a mark, stops the release with a failure; what has been cleared before stays cleared |
| Chains.ReleaseCycle | src/fs/fat.c:354-382 | releasing a chain that runs into a cycle frees every cluster reached and then reports failure |
| Chains.ReleaseWalk | src/fs/fat.c:354-382 | releasing from the start of any walk along links clears it and goes on from where its last link points |
| Chains.ReleaseSucceedsIff | src/fs/fat.c:354-382 | `remove_chain` succeeds if and only if an end-terminated chain starts at its argument |
| Chains.ReleaseCounts | src/fs/fat.c:374 | the number of free clusters grows by what `free_cnt` is incremented, and is one less if the release starts at a reserved entry |
| Chains.ReleaseKeepsReserved | src/fs/fat.c:354-382 | the reserved entries 0 and 1 survive a release if and only if it does not start at one of them in use |
| Chains.ReleaseKeepsDrift | src/fs/fat.c:374 | releasing from a cluster, even if it fails half-way, keeps `free_cnt` minus the number of free entries constant modulo 2^32 |
| Chains.ReleaseNoneBroken | src/fs/fat.c:354-382 | no release makes an entry unreadable |
| Chains.ScanSpec | src/fs/fat.c:413-427 | the circular scan stops at the first free cluster, or has seen that there is none |
| Chains.ScanEndsIff | src/fs/fat.c:411-427 | the scan ends if and only if `last_used` is a cluster number, or some cluster's entry is free or unreadable, or `last_used` is 0 and entry 1 is |
| Chains.ScanAnswers | src/fs/fat.c:411-427 | the scan answers at the first step that comes back to where it started or meets an entry that ends it: full, the free cluster there, or the error exit |
| Chains.ChooseSpec | src/fs/fat.c:395-428 | the allocator takes the free neighbour of the predecessor, which is the next cluster or, from the last one, cluster 2, or else the first free cluster after `last_used`; it reports a full volume if and only if no cluster but `last_used` is free and the neighbour is not free either |
| Chains.ChosenFirst | src/fs/fat.c:409-427 | in numbers: every cluster after `last_used` and before the chosen one, around the end of the table if need be, is in use |
| Chains.StagesNeverDangle | src/fs/fat.c:430-440 | none of the tables that `stretch_chain` goes through has a link to a free entry |
| Chains.LinkedNumbers | src/fs/fat.c:430-440 | the new entry is 0x0fffffff, the predecessor's is the cluster, and no other has changed |
| Chains.GrownByOne | src/fs/fat.c:430-440 | marking and linking a free cluster extends the chain by it and changes no other chain |
| Chains.GrownTrans | src/fs/fat.c:541-554 | extensions of a chain by free clusters compose |
| Chains.LinkedKeepsDrift | src/fs/fat.c:442-443 | taking a free cluster keeps `free_cnt` in step modulo 2^32 |
| WriteOrder.FlushedInOrder | src/fs/fat.c:232-260 | crash consistency: every image the device has held is the logical disk at a flush, with just the file data laid over it that was written between that flush and some moment before the next one; later images belong to later moments |
| WriteOrder.FlushedExact | src/fs/fat.c:232-260 | where no file data is written, the images are exactly logical disks of the run |
| WriteOrder.FlushedSince | src/fs/fat.c:232-260 | what reaches the device during a stretch of the run is the logical disk before it or one made in it |
| Volume.UpkeepLinked | src/fs/fat.c:385-447 | `stretch_chain` keeps the mirror, the readability of entries and the offset of the free count |
| Volume.UpkeepReleased | src/fs/fat.c:354-382 | `remove_chain` keeps them, even when it fails half-way |
| Volume.Fat.Mount | src/fs/fat.c:1107-1121 | a mounted volume with nothing buffered, whose logical disk is the device. It is fit for use if and only if FSInfo names a cluster number and the flags do not say that the buffer is dirty, which mounting leaves as they are |
| Volume.Fat.CrashConsistent | src/fs/fat.c:232-260 | at any moment, with faults or without, every image the device has held is such a disk, byte for byte |
| Volume.Fat.NeverDangled | src/fs/fat.c:354-447 | if no logical disk of the run has had a link to a free entry, then no image the device has held has one; every method says when it keeps it so |
| Volume.Fat.SyncBuf | src/fs/fat.c:232-242 | flushing leaves the logical disk alone; afterwards the buffer is clean, or the device has failed |
| Volume.Fat.UpdateBuf | src/fs/fat.c:245-260 | loading a sector flushes first, leaves the logical disk alone, and buffers the sector of the logical disk |
| Volume.Fat.WriteThrough | src/fs/fat.c:1469-1470 | file data goes to the device and to the logical disk at once |
| Volume.Fat.ReadThrough | src/fs/fat.c:1474-1475 | file data is read from the logical disk, of which it is no buffered sector |
| Volume.Fat.SyncFs | src/fs/fat.c:263-288 | on success the device equals the logical disk and, if the counters were out of date, FSInfo holds them; the tables and the data are as before |
| Volume.Fat.SyncInfo | src/fs/fat.c:269-285 | the second half of this |
| Volume.Fat.GetFat | src/fs/fat.c:291-320 | the entry of the active FAT of the logical disk, and how it reads, in numbers: 0 is free, 0x0ffffff7 is bad, every value from 0x0ffffff8 on ends a chain, a cluster number links, and anything else is broken; nothing changes but the buffer |
| Volume.Fat.PutFat2 | src/fs/fat.c:323-338 | one word of one FAT is replaced in the logical disk |
| Volume.Fat.PutFat | src/fs/fat.c:341-351 | the mirror is updated first, then the active FAT, and nothing else on the way |
| Volume.Fat.PutEntry | src/fs/fat.c:341-351 | as an update of the table: every logical disk on the way has the old or the new table |
| Volume.Fat.ReleaseOne | src/fs/fat.c:363-375 | one round of `remove_chain`: a used entry is cleared and counted, any other kind of entry is an error |
| Volume.Fat.ReleaseAll | src/fs/fat.c:361-379 | the loop of `remove_chain` terminates on every table and computes the release of its argument |
| Volume.Fat.RemoveChain | src/fs/fat.c:354-382 | without device faults: the outcome, the table and the free count of the release, the data untouched, everything written back on success; with or without them, no link to a free entry on the device if no stage of the release has one |
| Volume.Fat.FindCluster | src/fs/fat.c:391-428 | the choice of `ChooseSpec`, computed without changing the logical disk; the error exit of the scan returns the flags of the entry before |
| Volume.Fat.ScanFrom | src/fs/fat.c:411-427 | the scan, terminating by circular distance to `last_used` |
| Volume.Fat.LinkCluster | src/fs/fat.c:430-440 | the end of chain is marked before the link to it is stored, and every logical disk on the way is one of the three stages |
| Volume.Fat.StretchChain | src/fs/fat.c:385-447 | on success the chosen free cluster is the new end of chain, linked from the predecessor, counted, and on the device, and nothing else has changed; no table that reaches the device meanwhile links to a free entry if none did before |
| Volume.Fat.StretchStages | src/fs/fat.c:385-447 | the same with the stages that its tables go through |
| Volume.Fat.TakeCluster | src/fs/fat.c:430-446 | the second half of it |
| Volume.Fat.ClustClear | src/fs/fat.c:456-476 | every sector of the cluster is cleared, no other sector changes, and the buffer is clean |
| Volume.Fat.ZeroSectors | src/fs/fat.c:465-473 | the loop of this |
| Volume.NeverDangles | src/fs/fat.c:430-446 | stages without dangling links in the logical disk are stages without dangling links on the device |
| Volume.PutFatStages | src/fs/fat.c:341-351 | whatever `put_fat` makes of the logical disk on the way, its table is the old or the new one |
| Volume.ErrorCodes | src/include/fat.h:12-23 | the numbers of the errors, and of the flags that the allocator can return in their place |
| Names.WithSlotReads | src/fs/fat.c:557-560 | storing a slot is read back at that slot of the sector and at no other |
| Names.SlotNumbers | src/fs/fat.c:563-588 | which bytes of a slot mark it as free, as the last one or as part of a long name, and which hold its cluster and its size |
| Names.SfnCharRanges | src/fs/fat.c:591-606 | small letters become capitals, capitals and the special characters stay, and everything else becomes an underscore |
| Names.SfnNameParts | src/fs/fat.c:609-626 | the folded name is made of eight characters before the first dot and three behind it, cut off or padded |
| Names.SfnNameLive | src/fs/fat.c:591-626 | a folded 8.3 name never marks its slot free or last, and is no dot entry |
| Names.PutSfnName | src/fs/fat.c:609-626 | the five loops compute the folded name: up to eight characters before the first dot, up to three after it, padded |
| Names.GetCrc | src/fs/fat.c:178-184 | the loop computes the checksum |
| Names.CrcInverse | src/fs/fat.c:178-184 | a step of the checksum can be undone by taking the byte off and rotating left, so it is a rotation and a sum |
| Names.ChecksumDiffers | src/fs/fat.c:178-184 | names that differ in one byte have different checksums |
| Names.SfnSlotFields | src/fs/fat.c:958-976 | the name, attributes, cluster and size of a new entry are read back from its slot |
| Names.SfnSlotBytes | src/fs/fat.c:958-976 | all 32 bytes of a new entry's slot, stamps and halves of the cluster included |
| Names.UpdatedFields | src/fs/fat.c:1508-1517 | closing a file keeps the entry's name, cluster and kind, and stores the size if the file was modified |
| LongNames.LfnSlotFields | src/fs/fat.c:941-948 | a written long-name slot reads as one: kind, number, head mark, checksum; it looks neither free nor last |
| LongNames.CharPlaces | src/fs/fat.c:141 | the thirteen places of a slot for characters |
| LongNames.LfnSlotBytes | src/fs/fat.c:646-666 | the bytes at and next to these places, and the other fields |
| LongNames.HeadNumbers | src/fs/fat.c:678-681 | the head bit and the number of slots in the first byte |
| LongNames.GroupExample | src/fs/fat.c:929-953 | the 8.3 name and the long-name slot of `hello.txt`, byte by byte |
| LongNames.FragRoundTrip | src/fs/fat.c:646-700 | a fragment written by `put_lfn_name_frag` is read back by the parser's inner loop |
| LongNames.FragInName | src/fs/fat.c:684-702 | where each slot's fragment ends up in the parser's buffer |
| LongNames.NameRoundTrip | src/fs/fat.c:929-953 | for every name of 1 to 255 bytes without 0x00 and 0xff, the group that `dir_add` writes parses back to that name and stops at its 8.3 slot; none of its slots looks free or last |
| LongNames.ReadableIff | src/fs/fat.c:694-695 | the group written for a name can be parsed again if and only if the name has no byte 0xff |
| LongNames.PutLfnNameFrag | src/fs/fat.c:646-666 | the characters, one zero and then 0xff, stored at the thirteen places of the slot; nothing else changes |
| LongNames.ReadFragment | src/fs/fat.c:690-702 | the characters up to the first zero go to their place in the buffer and are counted; 0xff is refused |
| LongNames.FilledStep | src/fs/fat.c:684-713 | after each slot, the buffer holds the end of the name from that fragment on |
| LongNames.FillLfn | src/fs/fat.c:941-948 | the stores of one long-name slot |
| Listing.ItemsSplit | src/fs/fat.c:719-771 | a listing can be cut wherever parsing arrives |
| Listing.ItemFrame | src/fs/fat.c:669-716 | an item depends on its own slots only |
| Listing.ItemsExtend | src/fs/fat.c:541-554 | appending cleared slots lists nothing more |
| Listing.AddedItems | src/fs/fat.c:867-979 | storing a group over usable slots, with a new end mark if the old one was passed, inserts exactly its item and keeps every other item in place |
| Listing.RemovedItems | src/fs/fat.c:836-864 | marking an item's slots free takes exactly that item out of the list |
| Listing.AddThenRemove | src/fs/fat.c:836-979 | adding an entry and removing it again restores the list |
| Listing.ItemReplaced | src/fs/fat.c:1502-1518 | updating an 8.3 slot in place changes that item and no other |
| Listing.FindAdded | src/fs/fat.c:719-771 | after a failed search, the entry added under that name is the first match |
| Listing.FindOther | src/fs/fat.c:719-771 | a search for a name the new entry does not match is not affected |
| Listing.SearchedStep | src/fs/fat.c:726-770 | one round of the search, in terms of the list: ended, found, or further on |
| Listing.ScanStep | src/fs/fat.c:884-914 | one round of the search for room: the last `cnt` slots can be used |
| Listing.RoomAdded | src/fs/fat.c:884-926 | slots found by that search can take an entry |
| Listing.NoRoomSeen | src/fs/fat.c:884-914 | a scan that comes to the end of the directory has shown that there is no room in it |
| Listing.MarkWithEntry | src/fs/fat.c:908-917 | a directory with an end mark has one after an entry has been stored |
| Listing.MarkDropped | src/fs/fat.c:847-864 | and after an entry has been removed |
| Listing.EntryAdded | src/fs/fat.c:867-979 | what `dir_add` does to the list |
| Listing.EntryFound | src/fs/fat.c:867-979 | after a failed search and `dir_add`, a search finds the new entry, and every other search finds what it did |
| Clusters.BoundaryTest | src/fs/fat.c:505-509 | in an aligned data region, the test tells whether a cluster of the chain ends |
| Clusters.SectAtInjective | src/fs/fat.c:498-526 | different sectors of a chain are different sectors of the disk |
| Clusters.StoreSlot | src/fs/fat.c:557-560 | storing a slot changes that slot of the directory and no other |
| Clusters.SlotOnDisk | src/fs/fat.c:498-560 | which bytes of which sector a slot of a directory is |
| Clusters.SlotsFrame | src/fs/fat.c:557-560 | a directory depends on the sectors of its clusters only |
| Clusters.GrowDirectory | src/fs/fat.c:541-554 | a directory stretched by a cleared cluster has the same slots and then cleared ones |
| Clusters.StandsAtRewind | src/fs/fat.c:843-845 | rewinding with `sect_to_clust` resumes at the same slot |
| Clusters.StandsUnique | src/fs/fat.c:857-858 | sector and index name one slot of the directory |
| Directory.Dir.Next | src/fs/fat.c:498-526 | without faults the cursor goes to the next slot in chain order, or the directory ends exactly after its last slot |
| Directory.Dir.NextLink | src/fs/fat.c:511-525 | in any table: a link to a cluster is followed, an end mark ends the directory, and a free, bad or unreadable entry is an error |
| Directory.Dir.Enter | src/fs/fat.c:487-495 | the cursor is at the first slot of the directory, or of the root for cluster 0 |
| Directory.Dir.Load | src/fs/fat.c:669-671 | the buffer holds the sector under the cursor |
| Directory.Dir.ParseLfnName | src/fs/fat.c:669-716 | on a well-formed group, even across sectors and clusters, it delivers the name, its length and its checksum and stops at the 8.3 slot. On any slots, it succeeds if and only if they are a group: the head bit, at most 20 slots, all of them long-name slots with one checksum and no 0xff, at most 255 characters; and it reports EOF if and only if the directory ends within one |
| Directory.Dir.ReadFragments | src/fs/fat.c:684-713 | its loop |
| Directory.Dir.Examine | src/fs/fat.c:753-768 | the part of the search that looks at one live slot: whether it matches, or is a group that cannot be read, for any slots |
| Directory.Dir.Search | src/fs/fat.c:719-771 | on a well-formed directory it stops at the first item that matches, with `loc` at the item's first slot, and reports EOF if and only if there is none. On any directory, it succeeds only on an 8.3 entry with the folded name or on a long-name group that is complete and has the checksum of the live 8.3 slot behind it, and reports BROKEN only for a group that does not |
| Directory.Dir.SearchStep | src/fs/fat.c:726-770 | one round of its loop |
| Directory.Dir.NextStretch | src/fs/fat.c:541-554 | the next slot, in a new cleared cluster if the directory ends; what it lists stays the same. It is refused as full only at the end of a directory for which the allocator finds no cluster |
| Directory.Dir.FindRoom | src/fs/fat.c:882-914 | the first place with enough consecutive usable slots, stretching the directory if need be; it is refused as full only if the directory, stretched as far as possible, has no such place |
| Directory.Dir.MoveTo | src/fs/fat.c:921-924 | rewinding to a remembered place |
| Directory.Dir.WriteGroup | src/fs/fat.c:929-953 | the long-name slots are stored one after the other, the last fragment first |
| Directory.Dir.FillRoom | src/fs/fat.c:908-976 | the new end mark, the long-name slots and the 8.3 slot, and no other slot |
| Directory.Dir.Add | src/fs/fat.c:867-979 | without faults: refused for a bad length; or full, with the directory merely extended, only if it has no room and the allocator no cluster for it; or the entry is stored at the first place with room, and the cursor is on its 8.3 slot |
| Directory.Dir.RemoveEntries | src/fs/fat.c:836-864 | exactly the slots from `loc` to the cursor are marked free |
| Directory.ExtendsTrans | src/fs/fat.c:882-914 | extensions of a directory compose |
| FileData.ContentSpliced | src/fs/fat.c:1362-1363 | writing into a sector of a file splices the file's bytes and no others |
| FileData.ContentOnDisk | src/fs/fat.c:1424-1461 | which byte of which sector a byte of a file is |
| FileData.ContentInSector | src/fs/fat.c:1322-1324 | the bytes under the cursor are those in its sector |
| FileData.ClusterIndex | src/fs/fat.c:1424-1426 | dividing an offset by the cluster size gives the cluster of the chain |
| FileData.FreeOnDeviceIff | src/fs/fat.c:1088 | the allocator never hands out a cluster that the device does not have if and only if none of these is free |
| FileData.SpliceStep | src/fs/fat.c:1359-1376 | chunk by chunk, a write adds up to one splice |
| FileData.SpliceAt | src/fs/fat.c:1359-1376 | after a write, the bytes from its position on are its data, and all others are what they were |
| FileData.EvolvedByFlush | src/fs/fat.c:1467-1472 | flushing the file's buffer after its chain was stretched changes data in the file only, and not what the file's reader sees |
| Files.File.FromSlot | src/fs/fat.c:1275-1290 | a file as it is filled in from its entry |
| Files.File.RefusedReadyIff | src/fs/fat.c:1437-1456 | a refused seek has moved the cursor's cluster to the end of the chain; the file can go on from where its offset says if and only if that is in the last cluster |
| Files.File.CanSeekIff | src/fs/fat.c:1424-1461 | a seek arrives in the cluster of its target if and only if the cursor is in the cluster of its offset or the target is in an earlier one |
| Files.LostCursor | src/fs/fat.c:1428-1461 | on a concrete volume, a concrete file that a refused seek has left: going back to the start would load a sector of the wrong cluster, and going on to the second cluster, which the file has, would be refused |
| Files.BrimExample | src/fs/fat.c:1330 | a concrete volume without a free cluster and a concrete file that fills its chain, so that reading to its end is refused by the condition of `Files.File.Read` |
| Files.File.Goto | src/fs/fat.c:1424-1479 | the cursor is at the offset, its sector buffered, the chain stretched just as far as needed, and the bytes the same. It is refused if and only if the target is beyond the clusters that the file has or can get. The cursor has to be in the cluster of its offset, or the target in an earlier one |
| Files.File.Approach | src/fs/fat.c:1424-1461 | its first half, from wherever the cursor is: the cluster at which it arrives |
| Files.File.Advance | src/fs/fat.c:1437-1461 | the chain is followed, and extended by free clusters just as far as needed; or it has been stretched as far as possible and is too short |
| Files.File.NextLink | src/fs/fat.c:1440-1449 | in any table: a link or an end mark is delivered, and a free, bad or unreadable entry is an error |
| Files.File.Seek | src/fs/fat.c:1389-1480 | out of range is refused without effect; an empty file is reset to 0; otherwise the cursor is at the target and the contents are unchanged, unless the target is beyond the clusters that the file has or can get. The same condition as for `Files.File.Goto` |
| Files.File.Read | src/fs/fat.c:1307-1337 | a read delivers exactly the bytes from the cursor to its end or the end of the file. It reports a full volume if and only if it comes to the end of a file that fills its last cluster and the allocator finds no other; the cursor then stays behind |
| Files.File.ReadLoop | src/fs/fat.c:1320-1334 | its loop, with the same exact condition |
| Files.File.Fill | src/fs/fat.c:1362-1364 | the copy into the buffer splices the file's bytes |
| Files.File.Write | src/fs/fat.c:1343-1380 | the bytes counted as written are spliced into the contents at the cursor, as far as the file goes then. A write runs to its end unless the bytes fill a chain that cannot be stretched or reach the largest offset; then the cursor and the end of a grown file are before the last chunk. The code is always success; nothing is stored through an empty file |
| Files.File.WriteLoop | src/fs/fat.c:1359-1373 | its loop: the inner error only ends it, after the refused chunk has been stored |
| Files.File.WriteNowhere | src/fs/fat.c:1359-1373 | the loop on an empty file: all bytes are counted as written, none reaches the volume, and the last chunk stays in the buffer |
| Files.File.Sync | src/fs/fat.c:1483-1526 | afterwards the device equals the logical disk, the chain holds the contents and the entry has the file's size and stamps |
| Files.File.UpdateEntry | src/fs/fat.c:1500-1518 | exactly the file's 8.3 slot changes |
| Files.EntryAfterBytes | src/fs/fat.c:1502-1518 | byte by byte: an access sets one date; a modification sets date, time, size and the archive bit; nothing else changes |
| Owners.OwnsGrown | src/fs/fat.c:430-440 | extending one chain by free clusters keeps the table a disjoint union of chains |
| Owners.OwnsTaken | src/fs/fat.c:450-453 | a new chain of one cluster belongs to nobody yet |
| Owners.OwnsAdopted | src/fs/fat.c:1263-1270 | its entry makes it a chain of the volume |
| Owners.OwnsReleased | src/fs/fat.c:1223-1225 | releasing a chain leaves the others disjoint and complete |
| Owners.LinksOwned | src/fs/fat.c:361-379 | where the lost clusters have no links, no link leads to a free entry while a chain is being released |
| Owners.ReleaseSafe | src/fs/fat.c:361-379 | so every stage of releasing a chain of the volume is without such links |
| Tree.LeadsToRoot | src/fs/fat.c:782-833 | from every chain, entries lead up to the root |
| Tree.SoundExtended | src/fs/fat.c:541-554 | stretching a directory keeps the volume a tree |
| Tree.SoundTaken | src/fs/fat.c:450-453 | so does taking a cluster, which is lost until it has an entry |
| Tree.SoundAdopted | src/fs/fat.c:1263-1270 | so does the entry for such a cluster |
| Tree.TreeRemoved | src/fs/fat.c:1192-1230 | a removed directory lists dot entries only, so no entry loses its directory |
| Tree.SoundRemoved | src/fs/fat.c:1222-1230 | releasing a chain and removing its entry keeps the volume a tree, with one entry less |
| Tree.SoundEvolved | src/fs/fat.c:1389-1480 | positioning, reading and writing a file keeps the volume a tree |
| Tree.SoundExchanged | src/fs/fat.c:1500-1518 | so does updating an entry in place |
| Tree.SoundNoDangling | src/fs/fat.c:361-447 | a volume that is a tree has no link to a free entry, if its lost clusters have no links |
| Tree.FileKept | src/fs/fat.c:1307-1480 | what `Tree.SameFiles` says of a file means that its chain is the same and that it holds the same bytes, up to any length |
| Tree.ListGained | src/fs/fat.c:867-979 | `dir_add` adds one item to the list and keeps the dot entries first |
| Tree.ListDropped | src/fs/fat.c:836-864 | `remove_entries` takes one item out of it, and a search that did not find that item ends as before |
| Tree.DotSlots | src/fs/fat.c:1196-1200 | the dot entries are the two slots that the emptiness test skips |
| Tree.ItemNumbers | src/fs/fat.c:581-588 | in bytes, what a directory, a dot entry and the cluster of an entry are |
| Edits.SoundWithEntry | src/fs/fat.c:867-979 | `dir_add` of an entry for a new cluster keeps the volume a tree, whether or not the directory was stretched |
| Edits.EmptyVerdict | src/fs/fat.c:1202-1220 | what the emptiness test concludes is right: end mark, live slot, or no end mark at all |
| Edits.ReleaseFreed | src/fs/fat.c:1222-1225 | what `remove_chain` does for an entry: its chain, or the reserved entry 0 if it has no clusters |
| Edits.SoundUnlinked | src/fs/fat.c:1222-1230 | the stores of `fat_unlink` together keep the volume a tree |
| Edits.SoundUpdated | src/fs/fat.c:1500-1518 | the stores of closing a file keep the volume a tree |
| Dots.DotsShow | src/fs/fat.c:1547-1580 | a cleared cluster with the two dot entries is a directory that lists just these |
| Dots.PutDots | src/fs/fat.c:1557-1580 | the stores of the dot entries |
| Dots.DotBytes | src/fs/fat.c:1557-1575 | the bytes of a dot entry's name, its attribute and its cluster |
| Blank.FormattedSound | src/fs/fat.c:1070-1123 | a freshly formatted volume is sound, whatever its boot sector, FSInfo and unused clusters hold, so the invariant has a start |
| Blank.FormattedExists | src/fs/fat.c:1070-1123 | and on every device with cleared sectors behind the FSInfo there is one |
| Blank.ClusterBeyondDevice | src/fs/fat.c:1000-1026 | a boot sector that passes the probe, and any device of five sectors formatted by it: the first cluster that the allocator takes is beyond its end |
| Paths.SplitAtSlash | src/fs/fat.c:154-175 | components of two paths joined by a slash are those of the first and then of the second: repeated, leading and trailing slashes make no difference |
| Paths.SplitJoin | src/fs/fat.c:802-815 | splitting a path made of components gives them back |
| Paths.SplitComponents | src/fs/fat.c:154-160 | what any path is split into are non-empty names without a slash, made of bytes of the path |
| Paths.SubpathLen | src/fs/fat.c:154-159 | the length of the first component |
| Paths.LastSubpathLen | src/fs/fat.c:162-175 | that length if nothing but slashes follows, or else 0 |
| Paths.WalkOne | src/fs/fat.c:818-831 | a path of one component names what a search for it in the directory finds |
| Paths.WalkOn | src/fs/fat.c:802-832 | following a path is a fold: from a directory it goes on as from there, from a file it is refused, and behind a missing component everything is missing |
| Paths.WalkEnds | src/fs/fat.c:802-832 | a path that is found names an item that matches its last component; one that is not stops in the directory in which a component is missing |
| FileSystem.BelowIff | src/fs/fat.c:787-815 | a path is on a volume if and only if it is a slash, the volume's name, and nothing or a slash; the rest gives its components |
| FileSystem.BelowOwn | src/fs/fat.c:787-815 | a path that is put together of the volume's name and components has these components |
| FileSystem.BelowOther | src/fs/fat.c:795-798 | under the name of another volume there is nothing of this one |
| FileSystem.FileSystem.FollowPath | src/fs/fat.c:782-833 | without faults the path resolves to what its components name in the tree: the root, an entry with its sector buffered, a component under something that is no directory, or a missing component, on which the path then stands with the cursor's directory the one it is missing in. A slash, the volume's name and components are followed along just these components, and with any other name the path is refused |
| FileSystem.FileSystem.FollowRest | src/fs/fat.c:805-832 | its loop |
| FileSystem.FileSystem.Descend | src/fs/fat.c:818-831 | one component |
| FileSystem.FileSystem.AtRootIff | src/fs/fat.c:774-779 | `dir_at_root` holds if and only if the cursor is on the root's first slot, entry or not |
| FileSystem.FileSystem.CreateChain | src/fs/fat.c:450-453 | it fails if and only if no cluster but the one used last is free; otherwise a free cluster becomes a chain of its own. No file changes |
| FileSystem.FileSystem.AddEntry | src/fs/fat.c:867-979 | the entry is listed, found by its name, and no other search changes; for too long a name nothing happens, and if the directory has no room and cannot get any, it lists what it did. Every file keeps its chain and its bytes |
| FileSystem.FileSystem.CreateFile | src/fs/fat.c:1262-1270 | a new file: one free cluster, one entry, the rest of the tree as it was, every file with its chain and its bytes. It fails without effect if and only if there was no cluster; it fails with the cluster lost if and only if there was one and the name is too long or the directory cannot take it |
| FileSystem.FileSystem.DirCreate | src/fs/fat.c:1531-1588 | a new directory with its dot entries under the one missing component, entered and on the device, or the same two failures; success without effect if the path exists. Every file keeps its chain and its bytes |
| FileSystem.CreatedPaths | src/fs/fat.c:782-833 | after a creation, the new path names the new entry, paths below it are looked up in what it lists, and every other path of any length names what it named, or fails as it did |
| FileSystem.FileSystem.MakeDir | src/fs/fat.c:1541-1587 | the part after the path has been followed, with the same two failures and the same promise for the files |
| FileSystem.FileSystem.AddDir | src/fs/fat.c:1541-1584 | the cluster, its dot entries and its entry, or one of these failures, with the same promise |
| FileSystem.FileSystem.CheckEmpty | src/fs/fat.c:1192-1220 | denied if the directory lists more than its dot entries, EOF if it has no end mark, and success otherwise |
| FileSystem.FileSystem.EmptyScan | src/fs/fat.c:1202-1219 | its loop |
| FileSystem.FileSystem.Unlink | src/fs/fat.c:1175-1232 | it ends exactly as the entry's state demands: in bytes, it is denied for an entry with bit 0, 2 or 3 of byte 11, and of the others only for the root's first slot and for a directory that lists more than its dot entries; on success exactly that entry is gone, its clusters are free, nothing is orphaned, the free count is in step and everything is on the device. Every file that stays keeps its chain and its bytes, whether it succeeds or not |
| FileSystem.UnlinkedPaths | src/fs/fat.c:782-833 | after unlinking, no path names that entry, and every path that named another one still does |
| FileSystem.MarkedNeverEof | src/fs/fat.c:1202-1220 | where every directory has an end mark, unlinking never fails for the lack of one |
| FileSystem.FileSystem.UnlinkAt | src/fs/fat.c:1183-1231 | the part after the path has been followed, with the same conditions in bytes, the table, the free count and the files that stay |
| FileSystem.RefusalBytes | src/fs/fat.c:1183-1225 | the outcome of unlinking in terms of the entry's bytes, its directory's slots and entry 0 of the FAT |
| FileSystem.VerdictElsewhere | src/fs/fat.c:1179-1184 | how unlinking ends for the root, for a path through a file and for a missing component |
| FileSystem.FileSystem.RemoveEntry | src/fs/fat.c:1222-1231 | release, removal and write-back, with the same promise for the files |
| OpenFiles.FileOpen | src/fs/fat.c:1244-1293 | the entry that the path names is opened, with its contents and the cursor at the start or the end, or a new empty one is made and opened; it fails only as creating fails, or as full if the cursor is to go to the end of a file that fills its last cluster and the allocator finds no other. The volume stays a tree, and every other file keeps its chain and its bytes |
| OpenFiles.Locate | src/fs/fat.c:1249-1273 | the part that finds or creates the entry, with the exact failures; every file keeps its chain and its bytes |
| OpenFiles.OpenAt | src/fs/fat.c:1273-1292 | the part that fills in the file and positions it, with the exact condition for being refused; every other file keeps its chain and its bytes |
| OpenFiles.FileSeek | src/fs/fat.c:1389-1480 | on a volume: the contents are unchanged, only the file's chain may have grown, every other file keeps its chain and its bytes, the volume stays a tree, and the free count stays in step |
| OpenFiles.FileRead | src/fs/fat.c:1307-1337 | on a volume: the bytes from the cursor on, the exact condition for being refused, and the volume stays a tree with the free count in step and every other file as it was, even if reading stretches the chain |
| OpenFiles.FileWrite | src/fs/fat.c:1343-1380 | on a volume: what has been written is spliced in, and the volume stays a tree with the free count in step and every other file as it was, even if it fills up on the way |
| OpenFiles.FileClose | src/fs/fat.c:1299-1304 | on a volume: the entry has the file's size, the chain on the device holds its contents, and nothing else has changed in the tree or in other files, whether or not the entry has clusters |
| Sessions.Perform | src/fs/fat.c:1307-1480 | one read, write or seek on an open file is that operation on a sequence of bytes and a position; without a device fault it is stopped if and only if it would end beyond the clusters that the file has or can get, or beyond the largest offset; and what a stopped one has delivered and left in the file. No other file changes |
| Sessions.Run | src/fs/fat.c:1307-1480 | so is every run of them, output by output, up to the first operation that is stopped; and whatever the operations are, the volume stays a tree, and no other file changes |
| Sessions.UseAndClose | src/fs/fat.c:1299-1526 | after any run and closing, whether or not an operation was stopped, the chain on the device holds what the run has made of the bytes and the entry has their length; no other file and no other entry has changed |
| Sessions.ReadingKeeps | src/fs/fat.c:1307-1337 | runs of reads and seeks leave the bytes alone |
| Sessions.ReadBack | src/fs/fat.c:1307-1380 | what has been written is read back from its position, whatever is read in between |
| Sessions.SeekLands | src/fs/fat.c:1397-1413 | where a seek goes, counted from the start, from the position and from the end |
| Sessions.DomainIs | src/fs/fat.c:1322-1323 | in numbers, where an operation is met as on bytes and a position, and when a write is too long |
| Histories.ChainOnDevice | src/fs/fat.c:1088 | if the clusters that the device does not have are never free, every chain lies on the device |
| Histories.RoomyMeansSized | src/fs/fat.c:1244-1293 | and every file can be opened |
| Histories.RoomyCreated | src/fs/fat.c:1262-1270 | creating keeps it so |
| Histories.RoomyUnlinked | src/fs/fat.c:1222-1230 | unlinking keeps it so |
| Histories.RoomyWorked | src/fs/fat.c:1500-1518 | using a file and closing it keeps it so: the size fits the chain |
| Histories.FinishUsed | src/fs/fat.c:1299-1526 | any operations on a file with bytes, and closing it: the entry and the device have what they have made of the bytes |
| Histories.FinishEmpty | src/fs/fat.c:1359-1526 | on an empty file all operations come to nothing, and its entry has the length 0 afterwards |
| Histories.Begin | src/fs/fat.c:1244-1293 | opening or creating: the exact failures, or the bytes that the entry gives |
| Histories.Handle | src/fs/fat.c:1244-1526 | opening or creating a file, any operations on it and closing it do what `Histories.Handled` says, with the file's path, bytes and entry before and after, and change no other file |
| Histories.Make | src/fs/fat.c:1531-1588 | making a directory does what `Histories.Made` says, whether it succeeds or not, and changes no file |
| Histories.Drop | src/fs/fat.c:1175-1232 | unlinking does what `Histories.TakenOut` says, whether it succeeds or not, and changes no file that stays |
| Histories.PlainNameable | src/fs/fat.c:786-815 | a path without a byte 0x00 or 0xff meets what the runs ask of paths: its names can be stored or are too long |
| Histories.Run | src/fs/fat.c:1171-1588 | in every run of these commands, each has the outcome and the effect that its scenes before and after show, and the files that it does not name keep their chains and bytes; the volume stays a tree with room and with its end marks, and, if every entry has clusters, the mirror and the offset of the free count; and, device faults or not, every image the device has held is explained by a moment of the run and has no link to a free entry if none did before |
| Histories.RunFromBlank | src/fs/fat.c:1070-1588 | the same from mounting a freshly formatted volume on, whatever its boot sector and FSInfo hold |
| Chronicles.ReenteredPaths | src/fs/fat.c:782-833 | closing a file changes no path: those that named its entry name the updated one |
| Chronicles.OtherPaths | src/fs/fat.c:1171-1588 | whatever a command does, a path that names an entry other than the command's names it still |
| Chronicles.OwnPath | src/fs/fat.c:1171-1588 | after a successful command, its own path names the new or updated entry, or no longer the removed one |
| Chronicles.LeftAlone | src/fs/fat.c:1171-1588 | over any stretch of a run whose commands do not touch a file, it keeps its chain and its bytes |
| Chronicles.ReadLater | src/fs/fat.c:1244-1526 | what one use of a file has left in it is what a later one finds, if no command in between touches it and its entry has kept its length |
| Chronicles.OnlyEntry | src/fs/fat.c:719-771 | different entries name different clusters |
| Chronicles.PathStays | src/fs/fat.c:782-833 | over any stretch of a run whose commands are about other entries, a path goes on naming the same entry |
| Chronicles.ReadAtPath | src/fs/fat.c:1244-1526 | the bytes that one use of a file leaves at a path are those that the next use finds at that path, if no command in between is about its entry |
| Chronicles.NoBytesKept | src/fs/fat.c:1389-1480 | where every file is empty, every command leaves every file empty |
| Chronicles.EmptyFromBlank | src/fs/fat.c:1389-1480 | so in a run from a formatted volume on, no file ever gets its first byte |
| Heap.BlocksDisjoint | src/mm/kheap.c:8-12 | blocks lie in the heap, and the regions and headers of different blocks are disjoint |
| Heap.RoundedEnough | src/mm/kheap.c:29 | the rounded request is large enough if and only if the rounding does not wrap |
| Heap.TakenBound | src/mm/kheap.c:34-46 | what is given out is less than 20 bytes larger than the rounded request; a larger rest is cut off as a free block |
| Heap.TakenFreeBytes | src/mm/kheap.c:34-46 | so a request takes from the free bytes less than 20 more than it was rounded to |
| Heap.NothingLost | src/mm/kheap.c:17-46 | the blocks and their headers always add up to the whole heap |
| Heap.TakenValid | src/mm/kheap.c:34-46 | giving out a block keeps the list a gap-free tiling without free neighbours |
| Heap.TakenLive | src/mm/kheap.c:34-46 | the block given out is at least the rounded size, and the only new live one |
| Heap.MergedCoalesced | src/mm/kheap.c:62-70 | the loop of `kfree` leaves no free neighbours |
| Heap.MergedLive | src/mm/kheap.c:62-70 | and touches no live block |
| Heap.FreedValid | src/mm/kheap.c:54-71 | freeing keeps the list a gap-free tiling without free neighbours |
| Heap.FreedLive | src/mm/kheap.c:54-71 | exactly the freed block is no longer live |
| Heap.NothingLive | src/mm/kheap.c:17-22 | nothing is live if and only if the heap is in its initial single-block state |
| Heap.FreeSpace | src/mm/kheap.c:33-49 | a stretch of the heap that meets no live block lies within one free block |
| Heap.NullIff | src/mm/kheap.c:33-51 | a request fails if and only if no free block is large enough |
| Heap.RoomMeansSuccess | src/mm/kheap.c:33-51 | if any stretch of free space fits a header and the rounded request, the request succeeds |
| Heap.EveryRun | src/mm/kheap.c:17-71 | every run keeps the tiling, with all blocks at multiples of four, and one that leaves nothing live ends in the initial state |
| Heap.Heap.Init | src/mm/kheap.c:17-22 | one free block over the whole heap |
| Heap.Heap.Malloc | src/mm/kheap.c:24-52 | first fit on the linked list, in place: the first block that can hold the rounded request, or null; a step of the runs of `EveryRun`. What is given out is less than 20 bytes larger than that, and so is what the free blocks have lost; what was cut off is a free block that ends where the whole one did |
| Heap.Heap.Free | src/mm/kheap.c:54-71 | the block is marked free and free neighbours are merged, in place |
| Heap.Heap.MergeAll | src/mm/kheap.c:62-70 | the loop computes the merged list, with the length of the list as its measure |
| Frames.Bits | src/mm/pmm.c:12-31 | setting and clearing a bit changes that bit only, and each undoes the other |
| Frames.BitUpdates | src/mm/pmm.c:12-24 | setting and clearing the bit of a frame changes that frame only |
| Frames.AllocThenFree | src/mm/pmm.c:60-85 | allocating a frame and freeing it restores the bitmap |
| Frames.FreeInUpdate | src/mm/pmm.c:70-84 | what a change of one frame does to the number of free ones |
| Frames.ClipIff | src/mm/pmm.c:46-51 | after the clip every managed frame has a bit if and only if there is memory between the bounds, or none below, and it ends within the first GiB |
| Frames.FreeKeepsCountIff | src/mm/pmm.c:76-85 | freeing a held frame keeps the counter in step if and only if the frame is a managed one |
| Frames.Pmm.Init | src/mm/pmm.c:43-58 | below `mem_low` everything is held, above it nothing; the allocator is fit for use if and only if memory starts above address 0, is not empty and ends within the first GiB |
| Frames.Pmm.FindFreeFrame | src/mm/pmm.c:33-41 | the lowest managed frame that is not held, or 0 if and only if all are held |
| Frames.Pmm.Alloc | src/mm/pmm.c:60-74 | the lowest free frame becomes held, never a held one; it fails if and only if all are held; the counter is the number of clear bits |
| Frames.Pmm.Free | src/mm/pmm.c:76-85 | the frame becomes free, and is counted if it was held; the counter stays right if and only if the frame was a managed one or not held |
| Paging.NewTable | src/mm/vmm.c:37-41 | a new table in an unused page keeps the directory sound and maps nothing |
| Paging.TableNamed | src/mm/vmm.c:40 | the entry of a new table has bits 0 and 1 and otherwise the bits of the flags |
| Paging.EntryStored | src/mm/vmm.c:43 | storing an entry changes what is mapped at its page and at no other |
| Paging.PageWalk | src/mm/vmm.c:5-7 | which bits of an address choose the entry of the directory and the entry of its table |
| Paging.SharedTable | src/mm/vmm.c:37-41 | if the frame is another slot's table already, as the null frame is from the second time on, both slots share their entries |
| Paging.NullFrameIff | src/mm/vmm.c:37-43 | with the null frame for its table, mapping changes exactly the one page if and only if that frame is no other slot's table, or is one that says just what the new one says |
| Paging.NewTableHeld | src/mm/vmm.c:37-41 | a frame that the allocator had free is no page of the directory or its tables |
| Paging.KernelMap | src/mm/vmm.c:14-29 | the tables of the kernel map the first 256 MiB to themselves and nothing else |
| Paging.Vmm.Init | src/mm/vmm.c:14-29 | the loops of `vmm_init` build these tables: page q has the entry 4096 q + 3 below 256 MiB, and none above, in no other pages than the directory and 256 tables |
| Paging.Vmm.Map | src/mm/vmm.c:31-44 | exactly one page is mapped anew, even if a table had to be made: then its entry in the directory names a frame that was free, with the flags and bits 0 and 1. If a table was needed and every frame is held, page 0 is cleared and taken for it, and then one page is mapped if and only if the condition of `Paging.NullFrameIff` holds |
| Paging.Vmm.Unmap | src/mm/vmm.c:46-58 | exactly one page is no longer mapped |
| Keyboard.AcceptedIff | src/driver/keyboard.c:40-44 | a character is accepted if and only if fewer than 255 are pending |
| Keyboard.LetterKeys | src/driver/keyboard.c:7-21 | on the letter keys, shift makes a small letter a capital one |
| Keyboard.NumberKeys | src/driver/keyboard.c:7-21 | on the number row it chooses the signs, and codes from 58 on type nothing |
| Keyboard.ShiftCodes | src/driver/keyboard.c:32-36 | which codes press and release shift, and that no other code does |
| Keyboard.InterruptSound | src/driver/keyboard.c:28-48 | an interrupt at any moment keeps the ring's contents what was accepted and not delivered |
| Keyboard.ReaderSound | src/driver/keyboard.c:56-64 | so does every step of the reader |
| Keyboard.EveryRun | src/driver/keyboard.c:28-64 | for every interleaving: what is delivered is a prefix of what was accepted, at most 255 are pending, and a character is dropped if and only if 255 are |
| Keyboard.NothingLost | src/driver/keyboard.c:28-64 | if the ring is never full, every character typed is accepted, in order |
| Keyboard.Driver.Handle | src/driver/keyboard.c:28-48 | the handler's effect on the variables |
| Keyboard.Driver.Continue | src/driver/keyboard.c:56-64 | one step of the reader: the test, the read or the update of the index |

## Left out

- Volume.Fat.StretchChain: like all of `Volume.Fat` requires that `last_used` is a cluster number, as it is from the first allocation on; that is sufficient for the scan to end, and `Chains.ScanEndsIff` has the exact condition.
- OpenFiles.FileOpen: excludes the root's path, for which the code fills in the file from whatever the buffer holds; and requires sizes that fit their chains and free clusters that the device has, as `Histories.Roomy` provides for whole runs.
- OpenFiles.FileRead: requires a size below 2^31, because the code compares sizes as signed numbers (`src/fs/fat.c:1323`).
- FileSystem.FileSystem.AddEntry: promises a well-formed list only for names without bytes 0 and 0xff, or too long; `LongNames.ReadableIff` shows that the others cannot be read back.
- Histories.Run: covers names that can be stored or are too long, and paths below the root; its operations on a file end with one that is stopped, or before a read of a file of 2 GiB. A file whose opening is refused as full is not closed, since the code leaves that to nobody.
- Histories.FinishUsed: says what the operations have made of the bytes where `Sessions.AllInDomain` holds; a write behind the end of the file exposes what its clusters held, and then only the length and the device's agreement with the entry are stated.
- Paging.NullFrameIff: requires a directory that is not page 0 itself.
- Frames.Pmm.Init: requires memory to start within the first GiB, because the code writes beyond its bitmap otherwise.
- Paging.Vmm.Map: requires flags below 4096, which the code puts into the entry unmasked.
- Heap.Heap.Free: requires a pointer that is live; the code writes through any other.
- Keyboard.Driver.Continue: the waiting loop of `keyboard_getchar` is a sequence of tests, so that it need not end when nobody types.
- The list of mounted volumes: one volume and its name are a parameter. Mounting's checks of the boot sector and FSInfo signatures (`src/fs/fat.c:982-1046`) are a list of constants, except for those on the geometry (`Layout.Probed`).
- `fat_stat`, `fat_dir_open`, `fat_dir_read`, error texts, attributes and the clock: timestamps are parameters; the rest would add easy members only.
- Sector numbers are unbounded: the wrap of 32-bit sector arithmetic on devices above 2 TiB is not modelled. Sizes, offsets and counters have their 32 bits.
- What `stretch_chain` leaves in its out-parameter on failure is an arbitrary cluster number.
- Several open handles on one file or directory, and the state of a file after a device fault in the middle of an operation: only crash consistency speaks about such runs.
- ATA, serial port, timer, interrupt controller, boot code, enabling paging and invalidating the TLB; the terminal, the shell and its commands; the C library's string functions.
