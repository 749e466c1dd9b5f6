# NorthstarOS, verified

A Dafny model of the parts of NorthstarOS whose correctness is an argument rather than a reading: the
NorthstarFS host tools (`mkfs`, `fsck` with its redo journal, `nsfs_inspect`), the kernel heap, the physical
page allocator, the path, mount and open-file core of the VFS, the initramfs builder and parser, the receive
queue of the RTL8139 driver, and the Internet checksum. `dafny verify dfyconfig.toml` checks everything.

| area | files |
|---|---|
| disk format, journal and crash safety | Bytes, OnDisk, HostImage, Superblocks, Checksums, Journal, JournalTrust, JournalRun, JournalSafety |
| `fsck` | FsckReport, Bitmap, Inodes, Volumes, NameOrder, Directories, FsckContext, FsckGraph, Topology, FsckSuper, FsckBlocks, FsckDirs, FsckTopology, FsckMeaning, FsckRun |
| `mkfs` | SourceTree, DirBlocks, TreeImage, InodeTable, MkfsNodes, Mkfs, MkfsWrite, MkfsFormat |
| `mkfs` against `fsck` and `nsfs_inspect` | VolumeTree, TreeEntries, MkfsGraph, MkfsBlocks, MkfsNames, MkfsAccepted, Inspect, RoundTrip, LookupExact, EndToEnd |
| kernel heap | HeapBlocks, HeapLinks, HeapLayout, HeapThrift, HeapCheck, Heap |
| page allocator | Pmm, PmmStraddle |
| VFS | Paths, KernelAbi, VfsPath, VfsPathLaws, VfsMounts, VfsFiles |
| initramfs | Newc, InitTree, Initramfs, InitClean, MkInitramfs, InitPlace, InitMembers, InitRoundTrip, InitRefused |
| network | IngressQueue, Rtl8139, NetChecksum |

How the source's state is represented. A disk is a sequence of 4096-byte blocks plus the writes that were not
synced; a crash keeps, block by block, the durable content or any pending write. A heap is a map from addresses
to headers, a map from addresses to tags and a map from addresses to bytes, with the list of blocks as ghost
state; what callers' bytes look like when they are read as a tag or a header is a parameter. Pointers of the
VFS and of the initramfs tree are numbers in order of allocation. Locked sections are atomic steps. Integer
widths appear where the code depends on them.

## Findings

Properties one would expect that the code does not have, each with an input and the exact condition.

- A journal that passes every check can be one a crash ruins (`tools/fsck_northstar.c:1323-1374`).
  `JournalSafety.UnsafeTransaction` wipes both superblock copies; `JournalSafety.StaleTransaction` replaces the
  newest copy by a valid DIRTY one of the same geometry but an older generation than the other, CLEAN copy.
  `Journal.CrashSafeExactly` gives the condition: of every pair of copies a crash can leave, the newer valid one
  must be DIRTY, have a valid layout, room for the entries, and take their targets.
- `fsck` can exit with status 0 without having looked at the filesystem (`tools/fsck_northstar.c:364-370`, `1545`).
  `FsckRun.UnseenImage` is such an image; `FsckRun.Fsck` says when: exactly on the images `PassedUnseen` describes,
  whose journal start or length is out of range while every other test passes.
- `ns_pmm_alloc_pages` can report no space although a run is free (`kernel/mm/pmm.c:378-382`).
  `PmmStraddle.StraddlingRunMissed` reaches such a state from start-up in five calls; `Pmm.SplitSearch` says when:
  exactly when every run below the limit straddles the hint, which for one frame is never (`Pmm.OneFrame`).
- `validate_pointer` accepts some pointers that were never handed out (`kernel/mm/heap.c:351-366`).
  `Heap.ImitationPasses` builds one inside any live payload of more than 88 bytes; `Heap.Kheap.ValidatePointer` says
  when: exactly when the bytes in front of the pointer and those the tag names imitate a tag and a header.
- The 32-bit running checksum loses carries from 65,538 words on (`kernel/net/net_checksum.c:21-27`).
  `NetChecksum.OneWordTooMany` is the input; `NetChecksum.ExactExactly` the condition for all inputs. A packet that
  stores what the code computed verifies all the same (`NetChecksum.StoredIsValid`).
- `rx_dropped` counts one drop too many when a drain stops at its limit (`kernel/drivers/rtl8139.c:521`).
  `Rtl8139.MiscountedDrop` is the input: of 128 records eight are stored, 120 are dropped and 121 counted.
  `Rtl8139.Device.ReceiveDrain` says by how much the counter moves in every case: one too many exactly when every one
  of the 128 turns finds a record of good length.
- The archive builder writes archives the kernel refuses (`user/mkinitramfs.py:63-105`).
  `InitRoundTrip.BuiltParses` is the equivalence, for every set of names the builder takes. The kernel mounts the
  archive if and only if each name is shorter than 4096 bytes, has single slashes between components of at most 255
  bytes, and does not end in a dot component; no file lies where another does, or above it, once dot components are
  left out; and neither a file nor a directory is named `TRAILER!!!`. The inputs, one for each way to fail, are in
  InitRefused: `LongName`, `EmptyComponent` (`a//b`), `LongComponent`, `DotFile` (`a/.`), `SamePlace` (`a` and `./a`),
  `NestedFiles` (`a` and `a/b`) and `TrailerFile`.

## Model

| member | source | states |
|---|---|---|
| `Bytes.DecodeEncodeLE` | include/northstar/nsfs_ondisk.h:7-11 | an integer that fits survives writing and reading in little-endian order |
| `Bytes.EncodeDecodeLE` | include/northstar/nsfs_ondisk.h:7-11 | reading and writing gives the same bytes back |
| `OnDisk.SuperRoundTrip` | include/northstar/nsfs_ondisk.h:98-130 | a superblock whose fields fit survives packing and unpacking |
| `OnDisk.SealedJournal` | include/northstar/nsfs_ondisk.h:168-180 | a sealed journal header block decodes to its header and carries its own checksum |
| `Checksums.InodeChecked` | tools/fsck_northstar.c:666-669 | an inode's checksum is right exactly when bytes 120 to 123 of its 128 are the CRC-32C of them all with those four zeroed |
| `Checksums.SuperChecked` | tools/fsck_northstar.c:235-269 | the same of bytes 184 to 187 of a superblock's 256 |
| `Checksums.JournalChecked` | tools/fsck_northstar.c:1195-1262 | the same of bytes 44 to 47 of the whole journal header block |
| `Journal.CrashSafeExactly` | tools/fsck_northstar.c:1178-1381 | over any number of runs cut short anywhere, keeping any subset of unsynced writes, the image recovers, or one more replay recovers it, if and only if the superblock copies any crash can leave suit the transaction |
| `Journal.CrashOrder` | tools/fsck_northstar.c:1323-1381 | no superblock after-image is durable before every ordinary one, and no EMPTY header before every after-image |
| `Journal.ReplayRecovers` | tools/fsck_northstar.c:1319-1381 | an uninterrupted replay leaves every after-image in place and an EMPTY journal |
| `Journal.PlanAgrees` | tools/fsck_northstar.c:1178-1322 | what a run replays depends on the superblock copies and the journal blocks alone |
| `Journal.WorstCrash` | tools/fsck_northstar.c:1340-1356 | a crash between the superblock writes and their sync can leave any mixture of old and new copies |
| `JournalSafety.OrderlySuperblocksAreSafe` | tools/fsck_northstar.c:1340-1356 | transactions whose superblock after-images are valid, DIRTY, of the same geometry and not older than the selected copy survive every sequence of crashes |
| `JournalSafety.UnsafeTransaction` | tools/fsck_northstar.c:1340-1356 | a transaction that passes every check and that a crash ruins: it wipes both copies |
| `JournalSafety.StaleTransaction` | tools/fsck_northstar.c:271-303 | another one: its only superblock after-image is valid and DIRTY but older than the CLEAN copy |
| `JournalTrust.ReplayableExactly` | tools/fsck_northstar.c:1178-1318 | a run replays exactly when the layout is valid, the filesystem was not closed, the header block carries its checksum and announces a committed transaction, and every redo block has the checksum its descriptor gives and goes to a block of its own inside the filesystem and outside the journal |
| `JournalTrust.ReplayInstalls` | tools/fsck_northstar.c:1319-1381 | afterwards every after-image is in the block its descriptor names, the journal is empty, and all else is as it was |
| `JournalRun.ValidateHeader` | tools/fsck_northstar.c:1195-1262 | the header checks record an error exactly when the header is not valid |
| `JournalRun.ValidateEntry` | tools/fsck_northstar.c:1263-1302 | the entry checks record an error exactly when the entry is not valid |
| `JournalTrust.EntriesMean` | tools/fsck_northstar.c:1263-1302 | entries are valid exactly when flags are zero, targets distinct, in range and outside the journal, and redo blocks have their checksums |
| `JournalRun.ValidateJournal` | tools/fsck_northstar.c:1178-1318 | no error is recorded exactly when header, entries and clean flag agree and no replay is being refused |
| `JournalRun.Install` | tools/fsck_northstar.c:1323-1351 | one pass issues the writes of the ordinary blocks, or of the superblocks, in order |
| `JournalRun.Replay` | tools/fsck_northstar.c:1323-1381 | the replay issues exactly the three stages of writes and syncs the crash theorem speaks of |
| `JournalRun.ValidateAndMaybeReplay` | tools/fsck_northstar.c:1178-1381 | a replay happens exactly when asked for and every checksum vouches for the transaction, and nothing else changes the image |
| `FsckSuper.ValidateSuperCopy` | tools/fsck_northstar.c:235-269 | an error is recorded exactly when a copy is not valid |
| `FsckSuper.SelectSuperblock` | tools/fsck_northstar.c:271-303 | the newer valid copy is selected, and it is fatal that there is none |
| `FsckSuper.ValidateLayout` | tools/fsck_northstar.c:318-441 | the answer is exactly layout validity; a rejection is silent exactly when only the journal's place or length is wrong |
| `Bitmap.Set` | tools/nsfs_host.c:371-373 | one bit becomes set and no other changes |
| `Bitmap.CountBits` | tools/nsfs_host.c:379-389 | the number of set bits |
| `FsckBlocks.ValidateBitmapTails` | tools/fsck_northstar.c:567-624 | no error exactly when the bits past the ends and those of the metadata blocks are set; metadata blocks are then owned and no others |
| `FsckBlocks.ClaimBlock` | tools/fsck_northstar.c:626-649 | the owner array tracks the blocks claimed so far; a claim is good exactly when the block is an in-use data block nobody claimed |
| `FsckBlocks.ValidateOneInode` | tools/fsck_northstar.c:656-762 | no error exactly when the inode is well formed and all its pointer slots claim fresh blocks |
| `FsckBlocks.ValidateInodesAndBlocks` | tools/fsck_northstar.c:764-797 | no error exactly when inodes, claims, bitmap and free counts all agree |
| `Volumes.BlocksOkExact` | tools/fsck_northstar.c:626-797 | then a data block's bit is set if and only if exactly one slot of one allocated inode names it |
| `NameOrder.SortShowsDuplicates` | tools/fsck_northstar.c:851-885 | names are distinct if and only if no two neighbours of the sorted list are equal |
| `FsckDirs.ProcessDirent` | tools/fsck_northstar.c:908-986 | no error exactly when the record is acceptable and the counters did not run over; reference counts, parents and edges then follow the records seen |
| `FsckDirs.ScanBlock` | tools/fsck_northstar.c:1031-1068 | no error exactly when the records tile the block and are all acceptable |
| `FsckDirs.CheckDuplicates` | tools/fsck_northstar.c:1075-1084 | no error exactly when no name occurs twice |
| `FsckDirs.ValidateDirectory` | tools/fsck_northstar.c:988-1087 | no error exactly when the directory's blocks tile, its records are acceptable, its names distinct, and it has one `.` and one `..` |
| `FsckDirs.ValidateDirectories` | tools/fsck_northstar.c:1089-1106 | the same for all directories together |
| `FsckGraph.AppendEdge` | tools/fsck_northstar.c:824-849 | the edge list of a directory gains one child and stays finite |
| `FsckTopology.Walk` | tools/fsck_northstar.c:1108-1145 | the queue never overflows, and an inode is marked exactly when a path of records leads to it from the root |
| `FsckTopology.ValidateTopology` | tools/fsck_northstar.c:1108-1176 | no error exactly when every inode is placed as it should be |
| `Topology.TopologySound` | tools/fsck_northstar.c:1108-1176 | then following `..` reaches the root from every directory, every allocated inode is reached, each directory has one parent, and link counts count the records |
| `Topology.PathAscends` | tools/fsck_northstar.c:1146-1176 | a path down to a directory can be climbed by `..` |
| `FsckRun.ExecuteCheck` | tools/fsck_northstar.c:1516-1564 | one pass: when it replays, what it leaves, and that no error and no fatal means acceptance or a silent rejection |
| `FsckRun.Fsck` | tools/fsck_northstar.c:1566-1600 | the exit status is 0 exactly on accepted and on silently rejected images, and a completed run with status 0 exactly on accepted ones; the image changes only by a replay that was asked for and vouched for, and then holds the transaction |
| `FsckRun.AcceptsSound` | tools/fsck_northstar.c:1516-1600 | in an accepted image superblocks, journal header and every allocated inode carry their checksums, the layout is sound, every inode, directory and bitmap is, block pointers stay in the data area, ownership is exact and the directories are a tree |
| `FsckMeaning.LayoutMeans` | tools/fsck_northstar.c:318-441 | a layout is valid exactly when the areas follow one another and are just large enough |
| `FsckMeaning.InodeMeans` | tools/fsck_northstar.c:656-762 | an inode passes exactly when its table bytes carry their checksum, its fields are permitted, and it has the blocks its size calls for and no others |
| `FsckMeaning.TailsMean` | tools/fsck_northstar.c:567-624 | the bitmaps pass exactly when reserved, metadata and tail bits are set and the free counts are the numbers of clear bits |
| `FsckMeaning.DirectoryMeans` | tools/fsck_northstar.c:988-1087 | a directory passes exactly when each record in use has a legal name of its own and the kind of an allocated inode, and both dots are there |
| `FsckMeaning.DirBlockMeans` | tools/fsck_northstar.c:1031-1068 | a directory block passes exactly when records, each a multiple of four bytes with room for its name, lead from its start to its end |
| `FsckMeaning.VolumeMeans` | tools/fsck_northstar.c:567-1106 | the checks of inodes, directories and bitmaps together |
| `FsckRun.UnseenImage` | tools/fsck_northstar.c:364-370 | an image that passes with status 0 and is not accepted |
| `Mkfs.Context.AssignInodes` | tools/mkfs_northstar.c:522-546 | it succeeds exactly when the table has room, and numbers the tree in order |
| `MkfsNodes.DirectoryBlocks` | tools/mkfs_northstar.c:552-571 | the count is the number of blocks the records are later written into |
| `Mkfs.Context.AllocateBlock` | tools/mkfs_northstar.c:573-589 | the lowest clear data block, which is always the next one |
| `Mkfs.Context.AllocateNodeBlocks` | tools/mkfs_northstar.c:591-640 | it succeeds exactly when every node is representable and the blocks suffice, and places data, indirect block and children one behind the other |
| `MkfsWrite.WriteIndirect` | tools/mkfs_northstar.c:660-673 | the indirect block holds the block numbers past the direct ones |
| `MkfsWrite.WriteRegularData` | tools/mkfs_northstar.c:675-747 | each data block holds its part of the contents, zero-padded, and no other block changes |
| `DirBlocks.PutDirent` | tools/mkfs_northstar.c:749-766 | splicing header and name in extends the packed records by one |
| `DirBlocks.FinishBlock` | tools/mkfs_northstar.c:779-799 | rewriting the last header stretches its record to the end of the block |
| `DirBlocks.FinishedTiles` | tools/mkfs_northstar.c:779-799 | a finished block tiles 4096 bytes and reads back as its records |
| `MkfsWrite.WriteDirectoryData` | tools/mkfs_northstar.c:801-863 | it cannot fail, and emits exactly the counted blocks with the records in order |
| `MkfsWrite.WriteNode` | tools/mkfs_northstar.c:865-925 | the whole tree is encoded in its inodes and blocks, and nothing else is touched |
| `MkfsFormat.CalculateLayout` | tools/mkfs_northstar.c:935-1042 | it succeeds exactly when the layout fits the region, and sets up the initial bitmaps |
| `MkfsFormat.WriteMetadata` | tools/mkfs_northstar.c:1065-1149 | both superblock copies, an empty journal and both bitmaps are on the image, and the rest is as it was |
| `MkfsFormat.Format` | tools/mkfs_northstar.c:1044-1229 | it succeeds exactly on an acceptable target and tree, and then the image holds that tree |
| `MkfsBlocks.TreeBlocksOk` | tools/mkfs_northstar.c:573-640 | a tree laid out this way passes the block checks |
| `MkfsNames.DirectoryReadsWhole` | tools/mkfs_northstar.c:801-863 | a written directory tiles and reads back as `.`, `..` and the children |
| `MkfsGraph.TreePlaced` | tools/mkfs_northstar.c:865-925 | every node has its link count, its one parent and a path from the root |
| `MkfsAccepted.FormattedAccepted` | tools/mkfs_northstar.c:1161-1229 | for every tree `mkfs` accepts, `fsck` accepts the image, without errors |
| `Inspect.WalkDirectory` | tools/nsfs_inspect.c:273-353 | the walk visits the records of the directory's blocks in order, stops at the wanted name, and reports malformed blocks |
| `Inspect.LookupPath` | tools/nsfs_inspect.c:373-431 | it resolves the components of a path one after the other from the root |
| `LookupExact.LookupLeads` | tools/nsfs_inspect.c:373-431 | on any image, each step of a successful lookup is a record of that directory with that name for that inode, and the last inode can be read |
| `LookupExact.LookupExactly` | tools/nsfs_inspect.c:373-431 | on a formatted image every path, dots included, leads to the node its components lead to in the source tree, and is not found if they lead to none |
| `LookupExact.LookupSpells` | tools/nsfs_inspect.c:413-420 | without dots a path is found if and only if it spells the place of a node |
| `LookupExact.WalkExactly` | tools/nsfs_inspect.c:273-353 | on any image, a walk reaches its end exactly when named records fill every block, and then visited the records in use in order |
| `Inspect.Cat` | tools/nsfs_inspect.c:532-576 | it succeeds exactly on files and links whose blocks can be read, and yields the file's bytes |
| `RoundTrip.PathRoundTrip` | tools/nsfs_inspect.c:373-431 | on a formatted image, every path that spells the place of a node leads to its inode |
| `RoundTrip.ContentRoundTrip` | tools/nsfs_inspect.c:532-576 | there a file or link yields exactly its bytes and a directory exactly its children |
| `RoundTrip.SpelledRoundTrip` | tools/nsfs_inspect.c:373-431 | in particular the path with one slash before each name |
| `RoundTrip.ListingRoundTrip` | tools/nsfs_inspect.c:273-353 | walking a written directory yields `.`, `..` and the children in order |
| `EndToEnd.FormatCheckRead` | tools/mkfs_northstar.c:1161-1229 | format, check, look up, print: whenever formatting succeeds the check accepts and printing yields the source bytes |
| `HeapLayout.LayoutPlaces` | kernel/mm/heap.c:108-131 | a layout puts header, tag and aligned payload inside the block |
| `HeapLayout.GrowthExactly` | kernel/mm/heap.c:167-186 | growth is refused for size exactly when the rest of the arena is too small |
| `HeapThrift.RoomExactly` | kernel/mm/heap.c:108-131 | a block has room exactly when some aligned place behind header and tag holds the payload |
| `HeapBlocks.PayloadsDisjoint` | kernel/mm/heap.c:108-160 | live payloads are aligned, overlap no other payload, no header and no tag |
| `HeapBlocks.MetadataDisjoint` | kernel/mm/heap.c:296-300 | a live tag shares no byte with any block header |
| `Heap.Kheap.MergeNextBlock` | kernel/mm/heap.c:372-387 | merging keeps tiling and links, and changes header bytes only |
| `Heap.Kheap.SplitTrailingBlock` | kernel/mm/heap.c:133-160 | splitting keeps tiling and links, and changes only headers and the part cut off |
| `Heap.Kheap.Grow` | kernel/mm/heap.c:167-207 | it succeeds exactly when the arena has room and the provider grants this request; allocations and their bytes stay |
| `Heap.Kheap.Init` | kernel/mm/heap.c:209-241 | which arguments and provider answers lead to which result, and the one free block at the start |
| `Heap.Kheap.AllocAligned` | kernel/mm/heap.c:269-321 | a fresh aligned allocation disjoint from all others whose bytes and blocks stay; its block begins and ends as close to the payload as headers and alignment allow; no free block below had a place; NULL exactly when nothing fits and the arena or the provider cannot help; at most one growth |
| `Heap.NonePlaced` | kernel/mm/heap.c:282-291 | nothing fits exactly when no free block has a place for the payload |
| `Heap.Kheap.ValidatePointer` | kernel/mm/heap.c:342-370 | a pointer passes exactly when it is live or imitated; it is invalid exactly outside the arena, and a double free exactly when its tag names a free block |
| `Heap.Kheap.Free` | kernel/mm/heap.c:389-417 | exactly that allocation goes, all others keep their bytes and blocks, and a refused pointer changes nothing and gets the error of its case |
| `Heap.Kheap.Realloc` | kernel/mm/heap.c:433-483 | the first min(old, new) bytes come along, others keep their bytes and blocks; in place exactly when the block and a free neighbour have room; what is left over is split off; a failure leaves the old payload intact |
| `Heap.PayloadApart` | kernel/mm/heap.c:342-370 | a caller who keeps to its payload touches no tag and no header of the heap |
| `Heap.ImitationPasses` | kernel/mm/heap.c:351-366 | any payload of more than 88 bytes can hold an imitation |
| `Heap.LiveDisjoint` | kernel/mm/heap.c:269-321 | distinct live allocations share no byte and no pointer |
| `Heap.Kheap.CheckInvariants` | kernel/mm/heap.c:513-545 | it answers OK if and only if the headers spell out blocks that tile the arena, linked both ways and coalesced |
| `Heap.ReadyPassesCheck` | kernel/mm/heap.c:513-556 | between calls the heap passes that check |
| `Pmm.FindRun` | kernel/mm/pmm.c:335-354 | the search that skips ahead finds the lowest aligned free run, and fails exactly when there is none |
| `Pmm.FrameAllocator.AllocPages` | kernel/mm/pmm.c:356-398 | the first fit from the hint on, then from the bottom; no space exactly when neither part has a run; the frames are aligned, below the limit and were neither reserved nor handed out |
| `Pmm.FrameAllocator.FreePages` | kernel/mm/pmm.c:404-433 | all or nothing: it succeeds exactly when every frame is handed out and none reserved; otherwise the first frame that is not decides between EPERM and EDOUBLEFREE |
| `Pmm.FrameAllocator.ReserveRangeUnlocked` | kernel/mm/pmm.c:203-220 | exactly the frames the range touches become reserved, also when it overflows |
| `Pmm.FrameAllocator.ReserveRange` | kernel/mm/pmm.c:439-450 | the same with its error cases; nothing is ever unreserved |
| `Pmm.FrameAllocator.CheckInvariants` | kernel/mm/pmm.c:500-524 | OK exactly when reserved frames are taken and the free count is right |
| `Pmm.DiscoverLimit` | kernel/mm/pmm.c:143-163 | a frame is tracked exactly when an enabled entry reaches it, the direct map holds it and it is addressable as a whole |
| `Pmm.FrameAllocator.Init` | kernel/mm/pmm.c:222-312 | afterwards a frame is free if and only if a usable entry holds all of it and nothing withheld or in use any of it; overlaps are counted once |
| `Pmm.SplitSearch` | kernel/mm/pmm.c:377-386 | splitting the search at the hint misses exactly the runs that straddle it |
| `Pmm.OneFrame` | kernel/mm/pmm.c:400-402 | a one-frame request fails only when every suitably aligned frame below the limit is taken |
| `PmmStraddle.StraddlingRunMissed` | kernel/mm/pmm.c:356-433 | five calls after start-up two clear frames lie side by side and a request for two fails |
| `VfsPath.AppendComponent` | kernel/fs/vfs.c:202-218 | the buffer spells one component more, or nothing changes because it does not fit |
| `VfsPath.PopComponent` | kernel/fs/vfs.c:220-233 | the buffer spells one component less, and stays at the root there |
| `VfsPath.ConsumePath` | kernel/fs/vfs.c:235-264 | the buffer spells the normal form of what it spelled followed by the path's components |
| `VfsPath.Canonicalize` | kernel/fs/vfs.c:266-296 | which error comes when, and on success the buffer holds the normal form of the working directory and the path |
| `VfsPathLaws.DotDotUndoes` | kernel/fs/vfs.c:220-264 | appending a name and two dots to a path changes nothing |
| `VfsPathLaws.NameAdds` | kernel/fs/vfs.c:202-264 | appending a name adds that name |
| `VfsPathLaws.DotDotPops` | kernel/fs/vfs.c:220-255 | two dots at the end take the last component off, if there is one |
| `VfsPathLaws.DotStays` | kernel/fs/vfs.c:250-252 | appending a dot changes nothing |
| `VfsPathLaws.RootStops` | kernel/fs/vfs.c:220-233 | two dots at the root lead nowhere, whatever follows |
| `VfsPathLaws.SlashesMerge` | kernel/fs/vfs.c:239-241 | slashes may be doubled |
| `VfsPathLaws.SlashEnds` | kernel/fs/vfs.c:239-244 | one at the end means nothing |
| `VfsPathLaws.RelativeStarts` | kernel/fs/vfs.c:266-296 | a relative path is the one appended to the working directory |
| `VfsPathLaws.CanonicalText` | kernel/fs/vfs.c:266-296 | the canonical text begins with a slash, has single slashes and none at the end, and splits into the canonical components |
| `VfsPath.CanonicalFixed` | kernel/fs/vfs.c:266-296 | the result has no empty or dot component and is a fixed point |
| `VfsPath.FitsAgain` | kernel/fs/vfs.c:266-296 | a path that was canonicalised can be again in the same space |
| `VfsPath.AbsoluteFits` | kernel/fs/vfs.c:202-264 | with a full-size buffer an absolute path under the limit fails exactly on a component over 255 bytes |
| `VfsMounts.MatchesExactly` | kernel/fs/vfs.c:686-694 | the byte comparison decides whether the target's components begin the path's |
| `VfsMounts.Vfs.Insert` | kernel/fs/vfs.c:953-968 | a second mount on the same target is refused; targets stay distinct |
| `VfsMounts.Vfs.SelectMount` | kernel/fs/vfs.c:696-709 | the one mount whose target is the longest component prefix of the path; there always is one |
| `VfsFiles.CountsExactly` | kernel/fs/vfs.c:1155-1555 | at every point of every run a file's count is its slots in all tables plus the handles held, and it was closed exactly once exactly when that number is nought |
| `VfsFiles.StepKeeps` | kernel/fs/vfs.c:1155-1334 | every step keeps that |
| `VfsFiles.Files.Release` | kernel/fs/vfs.c:1161-1184 | the backend is told to close exactly when this was the last reference |
| `VfsFiles.Files.CreateTable` | kernel/fs/vfs.c:1207-1232 | an empty table of a permitted size |
| `VfsFiles.Files.Clone` | kernel/fs/vfs.c:1234-1259 | the copy holds the slots kept, each with a reference of its own |
| `VfsFiles.Files.CloseOnExec` | kernel/fs/vfs.c:1261-1282 | exactly the marked slots go, and their number is returned |
| `VfsFiles.Files.Destroy` | kernel/fs/vfs.c:1284-1299 | all slots of the table go and no other |
| `VfsFiles.Files.Install` | kernel/fs/vfs.c:1301-1321 | the lowest free slot from the minimum on gets a reference of its own |
| `VfsFiles.Files.Open` | kernel/fs/vfs.c:1451-1499 | a new file lands in the lowest free slot; with a full table it is closed again, once |
| `VfsFiles.Files.Close` | kernel/fs/vfs.c:1501-1516 | the slot is freed, and the file closed exactly if nothing else holds it |
| `VfsFiles.Files.Dup` | kernel/fs/vfs.c:1518-1527 | a second slot for the same file; nothing is ever closed |
| `VfsFiles.Files.Dup2` | kernel/fs/vfs.c:1529-1555 | the slot changes hands, and the file that was there is closed exactly if that was its last reference, also when it is the same file |
| `Newc.NumberOfHex` | user/mkinitramfs.py:42 | a field written in hexadecimal reads back |
| `Newc.ParseHex8` | kernel/fs/initramfs.c:81-92 | eight digits of either case, and nothing else, give their number |
| `Newc.FetchRecord` | kernel/fs/initramfs.c:307-366 | which record, or which error, stands at an offset |
| `Newc.RecordExactly` | kernel/fs/initramfs.c:307-366 | a record is read exactly when magic number, thirteen numbers, a name ending in its only NUL, the data and the sum its kind calls for stand there |
| `Newc.ReadsWhen` | kernel/fs/initramfs.c:325-366 | and then its fields, name and data are those bytes |
| `Newc.MemberReadsBack` | user/mkinitramfs.py:25-49 | a member written at an aligned offset of any archive reads back with its name, mode, time and bytes |
| `InitTree.Initfs.FindChild` | kernel/fs/initramfs.c:154-163 | the child of that name if the tree has one |
| `InitTree.Initfs.GetDirectory` | kernel/fs/initramfs.c:165-185 | the directory at a path, made if missing, refused if something else is there |
| `InitTree.Initfs.InsertMember` | kernel/fs/initramfs.c:204-283 | for any name: the tree gains what the name says or the right error comes; parents, children and distinct sibling names stay in order in every case |
| `InitTree.PathUnique` | kernel/fs/initramfs.c:154-185 | a path leads to at most one node |
| `Initramfs.ParseArchive` | kernel/fs/initramfs.c:304-392 | for any bytes: it ends, the tree stays well formed, and tree or error are what the records say |
| `InitClean.ParsedGrown` | kernel/fs/initramfs.c:204-392 | whatever the bytes, every path of the tree is made of names of one to 255 bytes without NUL, slash and dots, and lies in a directory |
| `InitClean.NeverUp` | kernel/fs/initramfs.c:236-237 | no name with a component of two dots gets in |
| `MkInitramfs.Output.AppendMember` | user/mkinitramfs.py:21-49 | header, name and data, each padded to four bytes |
| `MkInitramfs.ParentDirectories` | user/mkinitramfs.py:52-60 | exactly the directories above the names |
| `MkInitramfs.Build` | user/mkinitramfs.py:92-105 | the root, the sorted parents and the sorted files, a trailer, and zeros up to a multiple of 512 |
| `MkInitramfs.ParseGuest` | user/mkinitramfs.py:63-70 | a guest path is taken exactly when it has a component, is not a lone dot and never goes up; its components stay |
| `InitPlace.WalkIsPlaced` | kernel/fs/initramfs.c:216-274 | walking a name inserts at the path of its components, dots left out |
| `InitPlace.WalkedText` | kernel/fs/initramfs.c:219-235 | a name that gets in as a file has single slashes, components of permitted length and no dot at the end |
| `InitPlace.PlacedExactly` | kernel/fs/initramfs.c:165-274 | an insertion succeeds exactly when only directories are on the way and the place is free or implied, and adds the path and the missing directories and nothing else |
| `InitMembers.ParsedArchive` | kernel/fs/initramfs.c:304-392 | parsing the archive of some members inserts them one after the other, or fails because a name is too long or taken for the trailer |
| `Newc.LongNameRefused` | kernel/fs/initramfs.c:329-347 | a member whose name has 4096 bytes or more is refused, also where the length overflows its field |
| `InitRoundTrip.BuiltParses` | user/mkinitramfs.py:63-105 | for all sets of names the builder takes and all contents below 4 GiB, the archive parses if and only if every name can be walked and is short enough, no two files share a place or lie above one another, and nothing is named like the trailer; the tree is then those files, their directories and the root |
| `InitRoundTrip.BuiltExactly` | user/mkinitramfs.py:25-105 | for all contents: the archive parses to the tree of the files if and only if the same holds and every file is below 4 GiB |
| `InitRoundTrip.BuildAndMount` | kernel/fs/initramfs.c:540-567 | building and mounting, end to end, with both equivalences |
| `InitRefused.NestedFiles` | user/mkinitramfs.py:84-100 | the builder takes `a` and `a/b` together, the kernel does not |
| `InitRefused.SamePlace` | user/mkinitramfs.py:84-90 | nor `a` and `./a` |
| `InitRefused.TrailerFile` | user/mkinitramfs.py:63-70 | nor a file named like the trailer |
| `InitRefused.DotFile` | user/mkinitramfs.py:63-70 | nor `a/.` |
| `InitRefused.EmptyComponent` | user/mkinitramfs.py:63-70 | nor `a//b` |
| `InitRefused.LongComponent` | user/mkinitramfs.py:63-70 | nor any name of one component over 255 bytes |
| `InitRefused.LongName` | user/mkinitramfs.py:63-70 | nor any name of 4096 bytes or more |
| `IngressQueue.StepKeeps` | kernel/drivers/rtl8139.c:469-588 | every atomic step keeps the queue's invariant |
| `IngressQueue.Exactly` | kernel/drivers/rtl8139.c:469-588 | in every interleaving frames are delivered once, in order of acceptance; the tail is head plus count modulo 8; the frame counter is released plus queued |
| `IngressQueue.HeldSlotStays` | kernel/drivers/rtl8139.c:575-586 | from look-up to release no interrupt changes the slot being delivered |
| `Rtl8139.Device.ReceiveDrain` | kernel/drivers/rtl8139.c:469-522 | of the good frames in the ring those that fit are stored in order; every record is stored or counted as dropped, and one drop more is counted exactly when the limit is reached; the read position is behind the last record, or the card's own after a bad length |
| `Rtl8139.FloodHitsLimit` | kernel/drivers/rtl8139.c:471-520 | a ring full of ones keeps a drain busy up to its limit |
| `Rtl8139.MiscountedDrop` | kernel/drivers/rtl8139.c:521 | such a drain from an empty queue stores 8 of 128 records and counts 121 drops |
| `Rtl8139.Device.InterruptPass` | kernel/drivers/rtl8139.c:530-554 | a receive status drains the ring, an overflow status drains it again from where that stopped, any other leaves it alone; queue, read position and drop counter are exactly what the arrivals make them |
| `Rtl8139.Device.PollTake` | kernel/drivers/rtl8139.c:570-578 | the first locked section is the look-up step |
| `Rtl8139.Device.PollDeliver` | kernel/drivers/rtl8139.c:580 | the callback is given the oldest frame not yet delivered |
| `Rtl8139.Device.PollRelease` | kernel/drivers/rtl8139.c:582-586 | the second locked section is the release step |
| `Rtl8139.Device.Poll` | kernel/drivers/rtl8139.c:557-588 | left alone, a poll delivers everything waiting and everything new that fits, and empties the queue |
| `NetChecksum.State.Update` | kernel/net/net_checksum.c:12-35 | the state stands for the bytes seen, however they were cut up |
| `NetChecksum.State.Finalize` | kernel/net/net_checksum.c:37-52 | the folded complement of the 32-bit sum of those bytes |
| `NetChecksum.Compute` | kernel/net/net_checksum.c:54-59 | the checksum of section 1 of RFC 1071 up to 65,537 words, and beyond exactly when no carry is missed |
| `NetChecksum.OnesSumIsFolded` | kernel/net/net_checksum.c:48-51 | adding with end-around carry is arithmetic modulo 65535 |
| `NetChecksum.ExactExactly` | kernel/net/net_checksum.c:12-52 | the inputs on which the 32-bit sum gives the right checksum |
| `NetChecksum.OneWordTooMany` | kernel/net/net_checksum.c:21-27 | 65,538 words of ones give the wrong one |
| `NetChecksum.StoredIsValid` | kernel/net/net_checksum.c:61-63 | a packet of any length with its checksum stored in a zeroed even field verifies |
| `NetChecksum.StoredVerifies` | kernel/net/net_checksum.c:54-63 | the same of the checksum of section 1 of RFC 1071 |
| `NetChecksum.IsValid` | kernel/net/net_checksum.c:61-63 | it holds exactly when the words add up to all ones |

## Left out

- Heap.Kheap.Free: of a pointer that is imitated by callers' bytes only the answer OK is promised, not the state that following the imitated links leaves.
- Heap.Kheap.Realloc: the same; nothing is promised of an imitated pointer.
- VfsFiles.Files.Install: the minimum must not exceed the table's size, because the code compares the index with the size for equality only.
- VfsFiles.Files.Dup: the same, since it passes its minimum on.
- Rtl8139.Device.Poll: without interrupts in between; the protocol with them is in `IngressQueue`.
- InitRoundTrip.BuiltParses: which error or which other tree comes of a file of 4 GiB or more, since that depends on its bytes; that it is never the tree of the files is `InitRoundTrip.BuiltExactly`.
- MkInitramfs.Build: the command line, reading the input files and replacing the output file; at least one file is demanded there.
- Update in place: `fsck`'s context arrays, `mkfs`'s node fields and 4 KiB buffers, the bytes of an archive and of a slot are sequence values in fields, so aliasing between them is not captured.
- The bitmaps of the page allocator are one boolean a frame; packing eight into a byte is modelled for the host tools only.
- Whether boot information is valid is a parameter, and its E820 table a list of records.
- Failing memory allocation in the tools and the VFS, failing host reads, writes and syncs, and writes that tear inside a block.
- Text and number limit of reported issues, JSON and human output, option parsing, scanning the source directory, and the UUID digest of the tools.
- ns_kheap_destroy, calloc, statistics and last-error queries of the heap; statistics of the page allocator.
- The VFS beyond paths, mounts and open files: lookup, read, write and the bootstrap file system.
- Inode numbers of the initramfs tree, and serving it after the mount.
- Transmit slots, PCI, registers and ring hardware of the network card; hardware readings are parameters of the drain.
- Locks, atomics and barriers; reference counts that overflow 32 bits; null-pointer arguments.
- The kernel's own file system driver, TCP, scheduler, virtual memory, processes and sockets.
