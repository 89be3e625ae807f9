# Models of libext2fs, with proofs

Dafny models of the parts of this port of libext2fs 1.42 (GameCube and Wii) that carry data
structures and algorithms, and proofs of what they keep and compute.  On-disk integers are host
values: the byte swaps of a big-endian host happen only where a block is read or written.  Code that
works by changing things step by step is a method or a class with fields; its contract ties the new
state to a function of the old one, and lemmas say what that function is worth.

| part | modules | main results |
|---|---|---|
| CRC32c | `Crc32c` | the slice-by-8 body equals the bit-at-a-time CRC, on both hosts, in both bit orders, at every alignment; tables defined by recurrence; concatenation, injectivity, short bursts |
| backup superblocks | `SparseSuper` | the enumeration of groups is exact if and only if the group count is at most 5^14 mod 2^32 |
| bitmaps | `Bitmap` | the masked-byte range test is exact for all offsets and lengths |
| inode counts | `ICount` | two bitmaps and a sorted list with a cursor refine a map from inodes to counts, over every run |
| sector cache and device | `DiscCache`, `GekkoIo` | the write-back cache refines a flat disc; byte-granular reads and writes are exact |
| groups and allocation | `Groups`, `BlockAlloc`, `InodeAlloc` | the cyclic search with lazy initialisation is complete; counters and watermark over every run |
| block mapping | `Bytes`, `BlockTree`, `BlockMap`, `BlockIterate`, `BlockOrder` | set and allocate change one logical block; the iterating walk agrees with bmap, and calls once for every block in order |
| files | `FileIo` | any run of reads, writes, seeks and flushes behaves as a byte array with cursor and size; whole reads and writes fail exactly when the empty places on their ways outnumber the free blocks |
| directories | `DirBlock`, `Directory` | adding a name keeps the tiling and gains exactly one entry; lookup finds it |
| extent tree | `ExtentTree`, `ExtentWalk`, `ExtentGrowth`, `ExtentMap`, `ExtentEdit`, `ExtentMoves`, `ExtentCross`, `Extents`, `ExtentRun` | in trees of any shape: walks, key search, recursive node splits with root growth, insertion, deletion with the nodes it empties, fixing parents, and the six-way set_bmap, with the exact conditions of success and exact block accounting; runs of it from the empty tree |

## What the proofs found

- `ext2fs_list_backups` (source/sparse.c:49-51) is right only up to 1808548329 groups: there the
  multiplied counter for 5 wraps around (`SparseExact`).
- `check_block_uninit` computes a group's first block in 32 bits (source/alloc.c:43-44); beyond 2^32
  blocks it rebuilds the wrong group and frees a block in use (`InitWrapsAround`), below that never
  (`InitExact`).
- `ext2fs_new_inode` initialises a lazy group only at the group's first inode, so a search that enters
  it in the middle takes bits left over there for inodes in use (`LazyGroupSkipped`), and taking an
  inode of it wakes them (`LeftoverWakes`).  That takes a lazy group that holds the first usable inode
  in its middle, with no reserved inode in use (`ReservedInUse`), and a bitmap that was not cleared
  when it was read (source/rw_bitmaps.c:279-292 clears it).
- The 64-bit bitmap comparison looks only at the last bits (`TailDecides`).
- Below the triple indirect root the block number is cut to 32 bits (`BeyondWraps`).
- When a block allocation fails half-way, the pointer blocks taken before stay allocated and are not
  added to i_blocks: that happens exactly when some, but fewer than the missing blocks of the path,
  are free (`Bmap2`, `HalfWay`).  The result of `ext2fs_iblk_add_blocks` is ignored, and
  the count stays as it was when it would not fit (`AddBlocksExact`).
- The reference offset that the iterator passes for an indirect block is too low after a hole
  (`OffsetExact`).
- A name of more than 255 bytes is linked under its first (length mod 256) bytes (`LinkExact`).
- `ext2fs_link` joins records only in pairs on its way, so a name may find no room the first time and
  room the second (`LinkAgain`).
- In blocks larger than 64 KiB a record length of 262140 reads back as the whole block
  (`RecLenRoundTrip`).
- A write that fails half-way leaves the new bytes in the file but not in its size (`File.Write`), and
  an empty write past the end moves the size to the cursor.
- After a descent by key, NEXT_LEAF from the last entry of a leaf may report the first entry of the
  same leaf again, because the parent still counts as unvisited (source/extent.c:300-302,
  `LeavesToCome`, `LeavesAfterGoto`, `AgainInput`).  set_bmap is not misled by it.
- When `ext2fs_extent_set_bmap` remaps the last block of an entry into the first entry of the next
  leaf, or the first block into the last entry of the leaf before, it does not fix the parents' keys:
  the block is in the tree, but no lookup finds it, while all others stay (source/extent.c:1337-1361
  and 1374-1392, `SetBmap`, `BlockSet`, `MergeInput`).
- Unmapping the first block of a longer entry that starts its leaf leaves the parents' keys too low
  (source/extent.c:1399-1405, `UnmapInput`).  These two are the only ways in which a successful set_bmap
  makes exact keys inexact; the search for covered blocks does not need exact keys.
- A split of a node comes back by key, and an index entry whose computed length is 0 is reported as
  not found (source/extent.c:1024-1027).  Then an insertion is given up although there is space, and
  the last new node is not added to i_blocks (`NodeSplit`, `Insert`, `StuckInput`, `WayLost`).
- `ext2fs_extent_set_bmap` on a block inside an entry shortens the entry first; if a later insertion
  finds no room, the blocks behind it are lost, when unmapping too (`SetInner`, `NoRoomInside`).  That
  happens exactly when the leaf has fewer free slots than the one or two new entries need and it cannot
  be split.
- After an insertion into an empty tree the handle counts one entry too many (`SetBmapEmpty`); later
  calls of set_bmap are not disturbed (`Run` in `ExtentRun`).

## Model

| member | source | states |
|---|---|---|
| Crc32c.CrcBitwise | source/crc32c.c:378-387 | the bit-at-a-time loop computes the register `Crc`, in both bit orders |
| Crc32c.BitsLinear | source/crc32c_defs.h:2-7 | shifting is linear over GF(2): shifting a sum is the sum of the shifts |
| Crc32c.StepByTable | source/crc32c.c:218-219 | one table lookup is eight single-bit shifts, for every register and byte |
| Crc32c.TableBits | source/crc32c_table.h:1-100 | table k holds its index shifted 8(k+1) times: the tables are determined by the first one |
| Crc32c.Byte4ByTable | source/crc32c.c:261-275 | four lookups advance the register over four bytes |
| Crc32c.Byte8ByTable | source/crc32c.c:256-275 | eight lookups in eight tables advance the register over eight bytes |
| Crc32c.ConvConv | source/crc32c.c:215-217 | the byte swap between host and CRC order is an involution |
| Crc32c.HostStepIsByte | source/crc32c.c:218-219 | the host-order byte step is the byte step on the swapped register |
| Crc32c.HostRoundIsByte8 | source/crc32c.c:261-275 | one 64-bit round in host order is eight byte steps, on either host and in either bit order |
| Crc32c.CrcBody | source/crc32c.c:213-369 | for every host, order, start address, seed and buffer the init-bytes/words/end-bytes body returns the bitwise CRC |
| Crc32c.CrcAppend | source/crc32c.c:378-430 | crc(crc(s, a), b) is crc(s, a ++ b) |
| Crc32c.CrcInjective | source/crc32c.c:378-430 | for a fixed buffer different seeds give different results |
| Crc32c.BurstDetected | source/crc32c.c:378-430 | two messages that differ only within 4 consecutive bytes never have the same CRC |
| Crc32c.MirrorCrc | source/crc32c_defs.h:6-7 | the two polynomials and bit orders mirror each other: the msbit-first checksum of the mirrored bytes is the mirrored lsbit-first checksum |
| Crc32c.TablesKnown | source/crc32c_table.h:9-140 | entry 1 of the first table is the one in the generated header, in each bit order |
| SparseSuper.TestRoot | source/closefs.c:23-34 | terminates, and is true exactly of the powers of the root |
| SparseSuper.BgHasSuper | source/closefs.c:36-47 | true exactly of groups 0, 1 and the powers of 3, 5 and 7, or of all without the sparse feature |
| SparseSuper.BackupCursor.ListBackups | source/sparse.c:26-53 | returns the smallest pending power and advances that counter alone, with 32-bit wrap-around |
| SparseSuper.PowersDistinct | source/sparse.c:26-53 | positive powers of 3, 5 and 7 never coincide |
| SparseSuper.NoWrap | source/sparse.c:49-51 | below 5^14 no product leaves 32 bits |
| SparseSuper.SparseExact | source/sparse.c:26-53 | the enumeration is increasing, complete and without anything else if and only if the group count is at most 5^14 mod 2^32 |
| SparseSuper.PlainExact | source/sparse.c:34-38 | without the sparse feature every group from 1 on is delivered in order |
| SparseSuper.BackupGroups | source/res_gdt.c:173-180 | the callers' loop collects exactly the groups with a superblock copy, in increasing order |
| Bitmap.BitArray.Mark | source/blkmap64_ba.c:165-171 | marks exactly one bit and returns whether it was set |
| Bitmap.BitArray.Unmark | source/blkmap64_ba.c:173-179 | clears exactly one bit and returns whether it was set |
| Bitmap.BitArray.Test | source/blkmap64_ba.c:181-187 | returns whether the bit is set |
| Bitmap.BitArray.MarkExtent | source/blkmap64_ba.c:189-198 | marks exactly the range |
| Bitmap.BitArray.UnmarkExtent | source/blkmap64_ba.c:200-209 | clears exactly the range |
| Bitmap.MaskedByteClear | source/blkmap64_ba.c:221-262 | a byte meets a run mask in no bit exactly when all bits of the run are clear |
| Bitmap.BitOf | source/bitops_functions.c:42-80 | bit i is bit i mod 8, from the lowest, of byte i / 8 |
| Bitmap.BuildMask | source/blkmap64_ba.c:229-233 | the mask loop builds the mask of exactly the wanted bits |
| Bitmap.MemIsZero | source/gen_bitmap.c:413-433 | the scan in 256-byte chunks is true exactly when all bytes are zero |
| Bitmap.ZeroBytesClear | source/gen_bitmap.c:413-433 | bytes are zero exactly when all their bits are clear |
| Bitmap.BitArray.TestClearBits | source/gen_bitmap.c:435-505 | the masked range test is true exactly when every bit of the range is clear, for every offset and length |
| Bitmap.BitArray.TestClearExtent | source/blkmap64_ba.c:211-283 | the same, over the set of marked numbers |
| Bitmap.BitArray.TestEach | source/blkmap64_ba.c:181-187 | testing bit by bit gives the same answer as the masked test |
| Bitmap.Compare | source/gen_bitmap.c:346-369 | 32-bit bitmaps compare equal exactly when range and all bits agree |
| Bitmap.CompareTail | source/gen_bitmap64.c:456-459 | the 64-bit comparison looks only at the bits from the last multiple of 8 on |
| Bitmap.TailDecides | source/gen_bitmap64.c:434-462 | that is enough if and only if the bitmap spans fewer than 9 bits |
| ICount.Icount.InsertEl | source/icount.c:300-345 | the new element goes where it keeps the list sorted, and the counts of all inodes stay |
| ICount.Icount.Search | source/icount.c:351-395 | binary search with the cursor hint finds the element exactly when it is listed |
| ICount.Icount.SearchOrCreate | source/icount.c:351-395 | with create the element is there afterwards, and no count changes |
| ICount.Icount.SetInodeCount | source/icount.c:397-426 | sets the listed count of one inode |
| ICount.Icount.GetInodeCount | source/icount.c:428-456 | reads the listed count |
| ICount.Icount.Fetch | source/icount.c:481-501 | returns the count, capped at 65500 |
| ICount.Icount.Increment | source/icount.c:503-558 | adds one to the count of that inode alone, over all three representations |
| ICount.Icount.Decrement | source/icount.c:560-601 | subtracts one; refuses at zero without a change |
| ICount.Icount.Store | source/icount.c:603-636 | sets the count of that inode alone; stale list entries stay invisible |
| ICount.FindInserted | source/icount.c:300-345 | insertion changes the lookup of one inode only |
| ICount.Run | source/icount.c:481-636 | any interleaving of the four operations gives the answers, status and count, that a map from inodes to counts gives |
| DiscCache.ViewUnique | source/disc_cache.c:158-180 | the overlay of the cached pages on the disc is determined by pages and disc |
| DiscCache.OnePage | source/disc_cache.c:117-155 | pages are base-aligned, so a sector lies in at most one |
| DiscCache.WriteBack | source/disc_cache.c:141-144 | writing a dirty page back keeps the overlay |
| DiscCache.LoadPage | source/disc_cache.c:145-155 | loading a page keeps the overlay, and pages stay disjoint and counted |
| DiscCache.WritePage | source/disc_cache.c:326-331 | a write into a page changes exactly its sectors of the overlay |
| DiscCache.WriteThrough | source/disc_cache.c:309-325 | a write that bypasses the cache changes exactly its sectors of the overlay |
| DiscCache.DropPage | source/disc_cache.c:362-374 | dropping a clean page keeps the overlay |
| DiscCache.Cache.AccessTime | source/disc_cache.c:112-115 | the access counter advances by one, in 32 bits, and is the stamp |
| DiscCache.Cache.Scan | source/disc_cache.c:121-139 | finds the page of the sector, else the first free page, else one with the smallest last access |
| DiscCache.Cache.GetPage | source/disc_cache.c:117-156 | the page of the sector, loaded into a free page or over the one stamped longest ago; only that one is written back, if it is dirty; the overlay stays, and the page is stamped later than all others until the counter wraps |
| DiscCache.Cache.FindPage | source/disc_cache.c:158-180 | a cached page that meets the range, none only if there is none |
| DiscCache.Cache.ReadSectors | source/disc_cache.c:185-209 | returns exactly those sectors of the overlay; the disc changes at most to what its sectors read as |
| DiscCache.Cache.ReadPartialSector | source/disc_cache.c:214-228 | returns exactly those bytes of the sector |
| DiscCache.Cache.WritePartialSector | source/disc_cache.c:247-262 | changes exactly those bytes of that sector of the overlay |
| DiscCache.Cache.EraseWritePartialSector | source/disc_cache.c:281-296 | the sector becomes zeros with those bytes |
| DiscCache.Cache.WriteSectors | source/disc_cache.c:299-341 | changes exactly those sectors of the overlay; no page is loaded, and on the disc exactly the sectors that no page covers are written |
| DiscCache.Cache.Flush | source/disc_cache.c:346-360 | afterwards the disc is the overlay and no page is dirty |
| DiscCache.Cache.Invalidate | source/disc_cache.c:362-374 | afterwards the disc is the overlay and all pages are free |
| GekkoIo.FitsIff | source/gekko_io.c:244-256 | the sector-range check passes exactly when the byte range lies in the partition |
| GekkoIo.FlatSplice | source/gekko_io.c:317-426 | replacing sectors replaces exactly their bytes |
| GekkoIo.CutOut | source/gekko_io.c:224-312 | the bytes of a range are cut out of the covering sectors exactly |
| GekkoIo.PasteIn | source/gekko_io.c:317-426 | pasting bytes into covering sectors changes exactly those bytes |
| GekkoIo.GekkoDevice.Locate | source/gekko_io.c:236-256 | the covering sectors of a byte range, and whether they fit |
| GekkoIo.GekkoDevice.ReadBytes | source/gekko_io.c:224-312 | returns exactly the current bytes of the partition, or fails without effect |
| GekkoIo.GekkoDevice.FillBuffer | source/gekko_io.c:352-400 | the temporary buffer holds the old edges and the new bytes |
| GekkoIo.GekkoDevice.WriteBytes | source/gekko_io.c:317-426 | changes exactly the bytes of the range, and no sector outside the partition |
| Groups.GroupOfIff | source/blknum.c:20-36 | a block is in the group whose first-to-end range holds it, and in no other |
| Groups.GroupSize | source/blknum.c:38-63 | the counts of blocks per group are those of the ranges, for the last group too |
| Groups.GroupEnd | source/blknum.c:38-47 | the groups end where the file system ends |
| Groups.SetFreeExact | source/blknum.c:289-312 | the split free count reads back exactly if and only if it fits its width |
| Groups.SuperAddExact | source/blknum.c:153-181 | the split superblock count adds exactly while it stays in range |
| Groups.MetaLocated | source/closefs.c:63-130 | the locations reported are consecutive blocks from the start of the group, the superblock copy first, `used` is their exact number, and they lie in the group exactly when so many fit |
| Groups.MetaTestExact | source/alloc.c:48-72 | the test of check_block_uninit holds for exactly these blocks of the group, its two bitmaps and its inode table |
| Groups.MetaCount | source/closefs.c:76-110 | how much there is and where: a superblock copy is followed by all descriptors and the blocks reserved for more; in meta groups only the first, second and last group has one block of them |
| Groups.MetaWhole | source/alloc.c:54-73 | the test holds for exactly the copy with its descriptors and reserved blocks, the two bitmaps and the inode table |
| Groups.SumIsClear | source/blknum.c:38-63 | exact group counts sum to the clear bits of the whole range |
| Groups.SuperIsClear | source/alloc_stats.c:62-87 | exact counters make the superblock count the number of clear blocks |
| BlockAlloc.BaseExact | source/alloc.c:42-46 | the 32-bit base of a group is right if and only if its first block is below 2^32 |
| BlockAlloc.InitExact | source/alloc.c:32-76 | building a lazy group's bitmap changes no block's status, in any state, if and only if the first block of the group is below 2^32 |
| BlockAlloc.InitWrapsAround | source/alloc.c:42-46 | an input: initialising a lazy group makes a block in use of another group free |
| BlockAlloc.StatsConserve | source/alloc_stats.c:62-87 | updating the statistics keeps every counter right if and only if the bit really changes |
| BlockAlloc.Blocks.Rebuild | source/alloc.c:48-72 | exactly the metadata blocks of the group are marked |
| BlockAlloc.Blocks.CheckBlockUninit | source/alloc.c:32-76 | initialises that group alone, and no block changes its status: in use are the superblock copy, all its descriptors and reserved blocks, the bitmaps and the inode table |
| BlockAlloc.Blocks.LazyUse | source/alloc.c:39-73 | which blocks are in use in a group whose bitmap has not been built |
| BlockAlloc.Blocks.BuiltUse | source/alloc.c:39-42 | in any other group, and without the checksum feature in all, the bitmap says it |
| BlockAlloc.Blocks.NewBlock | source/alloc.c:152-189 | terminates with the first free block at or cyclically after the goal, in an initialised group; fails only when all are in use |
| BlockAlloc.Blocks.AllocStats | source/alloc_stats.c:62-87 | the new bitmap, descriptor and superblock counters; blocks beyond the end are ignored |
| BlockAlloc.Blocks.Allocate | source/alloc.c:206-248 | exactly one free block becomes used, and it fails exactly when none is free; balanced counters stay balanced; it is the first free one from the goal on, cyclically |
| BlockAlloc.Blocks.Release | source/alloc_stats.c:62-87 | exactly one used block becomes free, and there is one more to hand out; balanced counters stay balanced |
| BlockAlloc.Run | source/alloc_stats.c:62-87 | over any run of allocations and releases the counters equal the clear bits, each block handed out was free at that moment, an allocation fails only with none left, and exactly the blocks in use in groups with a built bitmap are released |
| InodeAlloc.Inodes.CheckInodeUninit | source/alloc.c:81-98 | initialises that group alone, and no inode changes its status; the block bitmap of the group is built as well |
| InodeAlloc.Inodes.UseIs | source/alloc.c:88-91 | in a lazy group no inode is in use, in any other the bitmap says it |
| InodeAlloc.Inodes.NewInode | source/alloc.c:105-147 | the first inode, cyclically from the directory's group, that is neither in use nor has a bit left over in the lazy group entered in its middle; fails exactly when there is none or that group starts beyond the end |
| InodeAlloc.LazyGroupSkipped | source/alloc.c:125-138 | an input on which the search fails although every inode is free |
| InodeAlloc.WakeTaken | source/alloc_stats.c:36-47 | taking an inode of that group clears the flag and brings exactly the left-over bits into use |
| InodeAlloc.WakeBreaks | source/alloc_stats.c:36-47 | with such bits the counters are wrong afterwards |
| InodeAlloc.LeftoverWakes | source/alloc_stats.c:36-47 | an input on which that happens |
| InodeAlloc.ReservedInUse | source/alloc.c:125-138 | with an inode in use in the group of the first usable one there are no such bits, wherever that group starts |
| InodeAlloc.IStatsConserve | source/alloc_stats.c:18-55 | all inode counters stay right if and only if the bit really changes |
| InodeAlloc.StatsKeepWatermark | source/alloc_stats.c:36-47 | the unused-inodes watermark stays behind every inode in use |
| InodeAlloc.Inodes.AllocStats | source/alloc_stats.c:18-55 | the new bitmap, descriptor and superblock counters, field by field: free inodes, directories, the watermark and the flag |
| InodeAlloc.Inodes.Allocate | source/alloc.c:105-147 | exactly one free inode becomes used; counters and watermark stay right if and only if no left-over bits wake up |
| InodeAlloc.Inodes.Release | source/alloc_stats.c:18-55 | exactly one used inode becomes free, and counters and watermark stay right |
| InodeAlloc.Inodes.FindLast | source/csum.c:100-115 | the position of the last marked inode of the group; the whole group exactly when its last inode is marked or none is |
| InodeAlloc.RetagKeeps | source/csum.c:131-156 | new flags and a watermark behind the inodes in use keep counters and watermark right |
| InodeAlloc.Inodes.SetGdtCsum | source/csum.c:117-160 | keeps everything, and leaves every watermark as high as it can be: the whole group if none of it is in use, else just behind an inode in use; the flag is set exactly on groups without an inode in use |
| InodeAlloc.RunInodes | source/alloc_stats.c:18-55 | over any run of allocations, releases and checksum passes no inode in use lies behind a watermark, the counters equal the clear inodes, each inode handed out was free at that moment, and exactly the inodes in use are released |
| BlockTree.DataWrite | source/bmap.c:51-59 | writing a block that no pointer place holds leaves the tree as it is |
| Bytes.LowFirst | source/bitops.h:32-51 | on disk the lowest byte of a number comes first |
| BlockTree.SlotWrite | source/bmap.c:51-59 | writing one slot of an unshared pointer block changes exactly the place below it |
| BlockTree.RootWrite | source/bmap.c:304-325 | writing one of the inode's slots changes exactly that place |
| BlockTree.HangSlot | source/bmap.c:67-83 | a zeroed free block hung in an empty slot maps nothing and changes no other place |
| BlockTree.HangRoot | source/bmap.c:337-341 | the same for a slot of the inode |
| BlockTree.SetSlot | source/bmap.c:51-59 | setting a data slot changes that place alone and keeps the tree unshared |
| BlockTree.GrownThen | source/bmap.c:88-110 | growing down to a pointer block and then below it is one growth of the path |
| BlockTree.TakenThen | source/bmap.c:88-131 | the blocks taken on the way to a place are those of its path that were missing: down to a pointer block and from there, they add up |
| BlockTree.HolesAfter | source/bmap.c:88-131 | filling the places down to one block leaves exactly the other empty places of the way to every block |
| BlockTree.Deeper | source/bmap.c:88-131 | a lookup through a pointer block has the outcome of a direct lookup |
| BlockTree.Failed | source/bmap.c:102-105 | when space runs out on the way down, no data block is mapped differently |
| BlockMap.SpotsDiffer | source/bmap.c:303-371 | different logical blocks have different places in the tree |
| BlockMap.SpotsCover | source/bmap.c:303-371 | every data place belongs to a logical block |
| BlockMap.BeyondWraps | source/bmap.c:365-371 | the place used is the right one if and only if the number below the triple indirect root fits in 32 bits; beyond, two blocks share a place |
| BlockMap.AddBlocksExact | source/i_block.c:30-52 | i_blocks is right afterwards if and only if the sum fits in 48 bits, or in 32 without huge files |
| BlockMap.AddBlocksUnits | source/i_block.c:30-52 | n blocks add n times the block size in units of 512, or n with the huge-file feature and flag; a count that would not fit stays |
| BlockMap.Volume.AllocBlock | source/alloc.c:206-259 | a free block becomes used and zero; on failure nothing changes and no block is free |
| BlockMap.Volume.IndBmap | source/bmap.c:36-86 | get, set or allocate one slot of a pointer block: the outcome at its place |
| BlockMap.Volume.DindBmap | source/bmap.c:88-109 | the outcome at the place two levels down |
| BlockMap.Volume.TindBmap | source/bmap.c:111-131 | the outcome at the place three levels down |
| BlockMap.Volume.Bmap2 | source/bmap.c:238-380 | the outcome at the place of the logical block; an allocation takes exactly the missing blocks of its path, succeeds exactly when so many are free, and i_blocks misses what was taken exactly when some but too few are; i_blocks grows by the blocks taken in units of 512 bytes, or of blocks for a huge file; a new data block is the first free one from that of the slot before on |
| BlockMap.HalfWay | source/bmap.c:330-379 | an input on which a block is taken and not counted |
| BlockMap.OneBlockChanges | source/bmap.c:238-380 | after set or allocate a lookup of l returns the block, every other logical block maps as before, and an allocated block was free |
| BlockIterate.MappedExact | source/block.c:499-529 | the listed calls are exactly the pairs (l, bmap(l)) with bmap(l) not 0, in strictly increasing l |
| BlockIterate.OffsetExact | source/block.c:199-212 | the reference offset passed for a pointer block is that of its slot if and only if no hole precedes it |
| BlockIterate.NothingUnderHole | source/block.c:199-203 | nothing is mapped below a hole, so the jumps of the block count are exact |
| BlockIterate.WalksAgree | source/block.c:499-529 | the data calls of the walk are exactly those of the mapped blocks, whatever the flags |
| BlockIterate.Context.IterateInd | source/block.c:60-148 | the calls of one indirect block up to the first that asks to stop, and the block count after it |
| BlockIterate.Context.IterateDind | source/block.c:149-233 | the same one level up |
| BlockIterate.Context.IterateTind | source/block.c:235-319 | the same two levels up |
| BlockIterate.Context.BlockIterate3 | source/block.c:499-529 | the calls are those of the walk, all of them or up to the first that asks to stop; the data calls are a prefix of the mapped blocks in order |
| BlockOrder.WalkExact | source/block.c:62-232 | the walk calls once for every block of the tree: data blocks with their number, pointer blocks, unless only data is wanted, with their level below zero, before or in a depth-first walk after all that is below; blocks apart come in logical order |
| BlockOrder.NonZeroCount | source/block.c:199-212 | the offset passed for a pointer block counts the slots before it that are not empty |
| FileIo.BmapKeepsStored | source/fileio.c:124-130 | mapping or allocating a block changes no block's contents |
| FileIo.WriteStored | source/fileio.c:132-135 | writing the block of l changes the contents of l alone, given unshared blocks |
| FileIo.ImageBlock | source/fileio.c:235-247 | a block of the file is its slice of the byte array |
| FileIo.ImageSplice | source/fileio.c:289-291 | a change inside one block is that change of the byte array |
| FileIo.File.Flush | source/fileio.c:109-141 | the file stays; on success the blocks of the disk hold it; it fails exactly when the buffer holds changes to a hole and the blocks this needs are not free |
| FileIo.File.SyncPosition | source/fileio.c:147-161 | the file stays, and the buffer is for the block of the cursor; it fails exactly when it must flush and cannot |
| FileIo.File.WriteOn | source/fileio.c:271-295 | one round of the write loop: the bytes up to the end of a block go in; it fails exactly when it must flush another block and cannot, and then nothing changes |
| FileIo.File.DueOn | source/fileio.c:271-295 | after a round, the places still to be filled are those to be filled before it, without those that it has filled |
| FileIo.File.LoadBuffer | source/fileio.c:172-196 | the buffer holds the block, or is mapped but left alone when it will be overwritten |
| FileIo.File.Read | source/fileio.c:215-254 | returns the bytes at the cursor up to the size, moves the cursor, and changes nothing; it fails exactly when it must leave a changed block whose empty places are more than the free blocks |
| FileIo.File.Write | source/fileio.c:257-308 | the file is the old one with the written bytes at the cursor; the size grows to the cursor only when all were written; the call fails exactly when fewer blocks are free than there are empty places, each counted once, on the ways to the blocks that it flushes |
| FileIo.File.Llseek | source/fileio.c:310-328 | the cursor moves in 64 bits, and the file stays |
| FileIo.Run | source/fileio.c:109-328 | any sequence of reads, writes, seeks and flushes gives the answers and the final state of a byte array with cursor and size; when an allocation fails, the same up to that operation, which has done a part of its work |
| DirBlock.ParseFlat | source/dir_iterate.c:207-252 | the scan reads back exactly the records that were laid out |
| DirBlock.FlatParse | source/dir_iterate.c:207-252 | a block that the scan accepts is exactly the records it reads |
| DirBlock.ParsedProper | source/dir_iterate.c:207-215 | each record scanned is a multiple of 4 bytes long, and its name fits behind the header |
| DirBlock.NameField | source/link.c:96-99 | the low byte of the name field is the length of the name mod 256, whatever the file type |
| DirBlock.TypeField | source/link.c:96-99 | for a name of at most 255 bytes the field is its length, and in the upper byte the file type if the file system keeps types |
| DirBlock.LinkKeeps | source/link.c:34-103 | no byte is lost and the live entries gain exactly the entry written, or nothing when there was no room |
| DirBlock.LinkExact | source/link.c:95-99 | that entry is the name, inode and file type asked for if and only if the inode is not 0 and the name has at most 255 bytes |
| DirBlock.LinkWhen | source/link.c:50-94 | a name is added exactly unless every record, with the free one after it if there is one, is too short for it |
| DirBlock.CrowdedPairs | source/link.c:50-94 | then no record has room alone, and none in use together with a free one after it |
| DirBlock.LinkFirst | source/link.c:50-103 | the name goes into the first record with room; when there is none, none is left with room after joining |
| DirBlock.LinkAgain | source/link.c:52-66 | an input on which a second call finds room that the first did not |
| DirBlock.RecLenRoundTrip | source/dir_iterate.c:31-63 | a record length reads back if and only if it is the block, or not 0 and not 262140, or the block is below 64 KiB |
| Directory.AbsorbBytes | source/link.c:55-64 | one write of a length joins a record and the free one after it |
| Directory.SplitBytes | source/link.c:71-86 | four writes turn a used record into itself and a free record |
| Directory.FillBytes | source/link.c:95-99 | four writes turn a free record into the new entry |
| Directory.LinkScan.LinkProc | source/link.c:34-103 | absorb, then split, fill or go on, exactly as on records |
| Directory.LinkBlock | source/dir_iterate.c:179-270 | on a tiled block the scan makes exactly the changes of the record model; a corrupt block is not written back |
| Directory.Dir.Link | source/link.c:112-155 | the blocks stay tiled and the names gain exactly the new entry, with its inode and file type, in the first block with room, and later blocks stay; it fails exactly when every block is too crowded |
| Directory.SameStringExact | source/lookup.c:39-43 | for names without zero bytes the string comparison is equality |
| Directory.FindExact | source/lookup.c:32-48 | a name is found exactly when a live record has it, with the inode of such a record |
| Directory.LookupBlock | source/lookup.c:32-48 | the scan returns the first match; "not found" only from a tiled block |
| Directory.ParseAfter | source/dir_iterate.c:207-252 | what follows a tiled prefix decides whether the block is tiled |
| Directory.Dir.Lookup | source/lookup.c:51-71 | finds exactly the names of the directory |
| Directory.LinkThenLookup | source/link.c:112-155 | a name that was absent, once linked, is found with its inode; without space it stays absent |
| ExtentTree.Frame | source/extent.c:424-467 | only the nodes below matter to a subtree |
| ExtentTree.SeekFinds | source/extent.c:607-692 | the descent ends on the covering leaf entry if any entry covers the block |
| ExtentTree.SeekLast | source/extent.c:607-692 | with exact keys it ends on the last entry at or before the block, or on the first |
| ExtentWalk.StepSibling | source/extent.c:382-395 | the next sibling is the first of what is still to come |
| ExtentWalk.StepDown | source/extent.c:424-477 | stepping down reports the first entry below, and leaves the rest |
| ExtentWalk.WalkLeaves | source/extent.c:294-325 | a full walk reports the leaf entries once each, in order |
| ExtentWalk.WalkIndexes | source/extent.c:294-325 | a full walk reports every index entry exactly once on each visit |
| ExtentWalk.InfoFields | source/extent.c:493-525 | what is reported at an entry: key, block, and the length stored, or for an index entry the distance to the next key or the end, in 32 bits |
| Extents.Handle.Get | source/extent.c:275-537 | the exact new position and report of every single move |
| Extents.Handle.GetNext | source/extent.c:294-325 | NEXT reports the first of what is still to come, and fails only when nothing is |
| Extents.Handle.Walk | source/extent.c:294-325 | ROOT and then NEXT until it fails terminates with exactly the in-order walk |
| Extents.Handle.GetNextLeaf | source/extent.c:294-325 | NEXT_LEAF reports the first leaf entry of what is still to come and skips exactly the index entries before it |
| Extents.Handle.GetPrevLeaf | source/extent.c:326-356 | PREV_LEAF comes to the leaf entry before, in whatever leaf, with NEXT_LEAF leading back to the leaf it left; it fails exactly at the first one |
| Extents.Handle.Goto | source/extent.c:607-692 | at any height, ends where every level's key search leads, and succeeds exactly when the range there holds the block; says which visits it leaves open |
| Extents.Handle.ExtentGoto | source/extent.c:694-698 | succeeds exactly when some leaf entry covers the block, with the handle on it; else on the last entry before it or the first |
| ExtentEdit.LeavesToCome | source/extent.c:294-325 | from a leaf NEXT reports exactly the leaf entries that follow if and only if no level above still has its visit open |
| ExtentCross.LeavesAfterGoto | source/extent.c:607-692 | after the descent for a block that is so if and only if at every level above the leaf the entry is not the last and does not have the block as its key |
| ExtentCross.AgainInput | source/extent.c:294-325 | an input on which NEXT_LEAF reports the current entry again |
| ExtentEdit.TrackAround | source/extent.c:607-686 | all leaf entries after the one a descent ends on start beyond the block, and if that one does too, all before it end by the block |
| ExtentCross.LookAt | source/extent.c:607-692 | with keys in order a lookup by descent is the mapping in the list of leaf entries |
| ExtentGrowth.SplitKid | source/extent.c:942-1016 | cutting a node and hanging its second half in keeps leaves, keys, exactness and shape, with one more block |
| ExtentGrowth.SplitRoot | source/extent.c:970-1003 | moving the root's entries one level down keeps them too |
| ExtentGrowth.SamePath | source/extent.c:539-557 | a subtree that stays the same leaves the whole tree the same |
| ExtentGrowth.PathIsTrack | source/extent.c:607-686 | every position is where the descent for its own key leads |
| ExtentGrowth.TrackUnique | source/extent.c:607-686 | a descent from the same root ends in the same place |
| ExtentGrowth.KeptEntry | source/extent.c:1024-1027 | after a cut the original entry is in a node with room |
| ExtentEdit.KeptTrack | source/extent.c:889-1022 | every descent that led to an entry before its node was cut leads to it afterwards |
| Extents.Handle.SplitHere | source/extent.c:882-1041 | one split: one block taken, blocksize/512 added, same leaves and keys, the handle on the original entry; not found exactly when that index entry has no computed length, without space only when no block is free |
| Extents.Handle.SplitParent | source/extent.c:856-879 | a full parent is split first, with as many blocks as that takes, and the handle comes back to the same node |
| Extents.Handle.NodeSplit | source/extent.c:816-1042 | the recursion over full parents and a growing root keeps leaves, order and bounds, takes one block per full level, and leaves the handle on the original entry with room; it succeeds exactly when that many blocks are free and extent_get reports a length for every index entry to which it comes back; the first half stays and the rest moves, or the whole root, new nodes have the capacity of a block, and the last one is the first free block from the goal on |
| ExtentMoves.LedgerBooks | source/extent.c:1023-1034 | if the blocks in use outside the tree and the count outside of its nodes stay, then both changed by exactly the nodes that joined or left |
| ExtentMoves.BlindAtEnd | source/extent.c:875-878 | that needs the recorded end of the file to be a key on the way |
| ExtentCross.StuckInput | source/extent.c:1065-1075 | an input, with a full leaf below a full root, on which an insertion fails however many blocks are free |
| Extents.Handle.Replace | source/extent.c:758-808 | the current leaf entry becomes the given one, in memory and on disk, in any tree; no other leaf entry changes |
| Extents.Handle.Insert | source/extent.c:1044-1116 | in any tree the entry goes before or after the current one, after splits when its leaf is full, and nothing else changes; it succeeds exactly when the leaf has room or it can be split; the blocks in use change by exactly the nodes that joined the tree, and i_blocks counts them, but for the last one when its way back is not found; it takes no block when the leaf has room, else one per full level |
| ExtentMoves.TookRoom | source/extent.c:1065-1116 | after one entry has gone in another finds room exactly when there was room for two |
| Extents.Handle.Delete | source/extent.c:1447-1518 | the entry goes, and with it every node that this empties; exactly the blocks of these leave the blocks in use, and i_blocks shrinks by one block each |
| Extents.Handle.DeleteLeaf | source/extent.c:1447-1518 | in any tree the leaf entries are those from before without this one, and the blocks freed are those that left the tree |
| Extents.Handle.FixParents | source/extent.c:709-756 | whatever the new start of the node, all keys are in order again and no leaf entry changes; if all other keys were exact, all are |
| Extents.Handle.FixOne | source/extent.c:735-750 | one level up: the key becomes the start of the node below, or was that already |
| ExtentMap.RawExact | source/ext3_extents.h:88-106 | the length field reads back if and only if the run is not an empty uninitialised one and within the limit |
| ExtentMap.SetAtRight | source/extent.c:1140-1445 | in each of the cases of set_bmap the list stays sorted and disjoint and exactly block l changes its mapping |
| ExtentMap.SetAtFits | source/extent.c:1279-1299 | every case keeps the length limits of initialised and uninitialised runs |
| ExtentMap.JoinsBefore | source/extent.c:1277-1282 | a block that continues an entry lengthens it, up to one block less than the limit |
| ExtentMap.JoinsAfter | source/extent.c:1283-1290 | one that comes before an entry lengthens it at the front |
| ExtentMap.JoinsNext | source/extent.c:1291-1306 | or the entry after it, if that was seen |
| ExtentMap.JoinsNone | source/extent.c:1307-1311 | any other becomes an entry of its own, before or after |
| ExtentMap.OneRemapped | source/extent.c:1264-1321 | the only block of an entry is replaced, and a mapping that is there stays |
| ExtentMap.LastGoes | source/extent.c:1333-1369 | the last block goes over to the next entry where it fits, or becomes an entry |
| ExtentMap.FirstGoes | source/extent.c:1370-1405 | the first block goes over to the entry before where it fits, or becomes an entry |
| ExtentMap.MiddleCuts | source/extent.c:1406-1437 | a block in the middle cuts its entry in two |
| ExtentMap.UnmapsEnd | source/extent.c:1316-1405 | unmapping shortens an entry at its end, or removes one of a single block |
| ExtentMap.HalfSplit | source/extent.c:1412-1437 | when the rest of a cut entry cannot be put back, exactly its blocks behind l are lost, and l unless its new entry is in |
| Extents.Handle.SetUnmapped | source/extent.c:1273-1315 | mapping an uncovered block: append, prepend, join the next entry, or insert; then keys are fixed, and exact if they were; fails exactly when an entry must be added and finds no room |
| Extents.Handle.SetOnly | source/extent.c:1316-1321 | remapping the only block of an entry |
| Extents.Handle.RemoveOnly | source/extent.c:1322-1332 | unmapping the only block of an entry, with the nodes this empties, down to an empty tree |
| Extents.Handle.SetLast | source/extent.c:1333-1369 | setting the last of several blocks; keys stay in order unless the block goes into an entry of the next leaf; fails exactly when an entry must be added and finds no room |
| Extents.Handle.SetFirst | source/extent.c:1370-1405 | setting the first of several blocks; keys stay in order unless the block goes into an entry of the leaf before, and exact unless the first block of a leaf is unmapped; fails exactly when an entry must be added and finds no room |
| Extents.Handle.SetInner | source/extent.c:1406-1437 | setting a block inside an entry cuts it in two; it succeeds exactly when the one or two new entries find room, and otherwise the entry stays cut |
| Extents.Handle.SetBmap | source/extent.c:1140-1445 | in any tree: succeeds exactly when the entries it adds find room; then the list of leaf entries becomes that of map[l := (p, uninit)], or of the map without l when p is 0, and exactly the lookup of l follows, but is lost if and only if the mapping was merged across the end of a leaf; keys stay exact if and only if moreover no first block of a leaf was unmapped; on failure nothing changes but that a cut entry loses exactly its rest; the handle returns to its position; the blocks in use change by exactly the nodes that joined or left the tree, and i_blocks follows, but for the last new one when its way back is not found; the list is one of those below, and where it can lengthen an entry it succeeds with no other block taken |
| ExtentCross.BlockSet | source/extent.c:1333-1405 | a merge across the end of a leaf loses the block: its lookup finds nothing; in every other case its lookup is set; no other lookup ever changes |
| ExtentCross.CrossesLoses | source/extent.c:1333-1405 | with the keys of the index nodes and of the leaves as before, every descent ends where it did, so that only the lookup of the block is lost |
| ExtentCross.MergeInput | source/extent.c:1337-1361 | an input for such a merge |
| ExtentCross.UnmapInput | source/extent.c:1399-1405 | an input that unmaps the first block of a leaf |
| ExtentCross.ExactKeyed | source/extent.c:709-756 | exact keys are in order when the leaf entries are |
| Extents.Handle.SetBmapEmpty | source/extent.c:1188-1192 | in an empty tree the entry is stored, but the handle counts one entry too many until it returns to the root; set_bmap can be called again |
| ExtentRun.NewFile | source/extent.c:219-262 | the handle of a file without blocks maps nothing |
| ExtentRun.Run | source/bmap.c:167-230 | over any run of mappings, remappings and unmappings on one handle, from the empty tree on, every lookup gives what a map from logical blocks to blocks gives; set_bmap refuses only when no block is left, or as not found when something is mapped at or beyond the recorded end; a refused mapping changes nothing, a refused remapping or unmapping loses at most the rest of a row of blocks from there on |
| ExtentRun.BeyondEnd | source/extent.c:1024-1027 | a way back that is not found needs something mapped at or beyond the recorded end of the file |
| ExtentRun.CrossesAdjacent | source/extent.c:1333-1405 | only a block that would join a mapped neighbour is merged across the end of a leaf and lost |
| ExtentRun.NoRoomInside | source/extent.c:1406-1437 | an input, mapping or unmapping, on which a full disk costs the blocks behind the one asked for |
| ExtentRun.WayLost | source/extent.c:1044-1116 | a file for which setting a block is not found although there are blocks for all new nodes, and nothing is set |

## Left out

- Extents.Handle.SetBmap: logical blocks below 2^32, which the field on disk holds; entries within the length limits; nodes that extent_header_verify accepts, in groups whose block bitmap has been built. The empty tree is SetBmapEmpty.
- Extents.Handle.SetBmapEmpty: only with a physical block; without one the source inserts an entry that was never set. What NEXT reports from there is left out, as it reads beyond the entries of the node.
- Extents.Handle.Get: LAST_SIB, LAST_LEAF and the PREV walk over index entries are not modelled.
- Extents.Handle.Goto: says where the search ends only if the keys are in order, below 2^32.
- Extents.Handle.Insert: at the leaf, with splitting allowed; index entries are inserted by CutNode only.
- Extents.Handle.Replace: only lengths within the limits; longer ones fail in the source after the block numbers have been changed.
- Extents.Handle.Delete: nodes in groups whose block bitmap has been built; in a group not yet built only metadata is in use.
- Extents.Handle.FixParents: when keys away from the node are inexact, and the handle is above the leaf after a deletion, the way back may not be found; nothing more is stated then.
- BlockMap.Volume.Bmap2: only logical blocks that the tree can address, and file systems of at most 2^32 blocks, beyond which block pointers are cut.
- BlockIterate.Context.BlockIterate3: pointers inside the file system, calls that leave the block numbers alone, no append flag; a bad pointer ends one subtree in the source without advancing the count.
- FileIo.File.Flush: inode numbers other than 0; with inode 0 the source writes block 0.
- ExtentRun.Run: the blocks to map are given, not allocated, and a remapping that would join a mapped neighbour is skipped; BlockSet says when such a block would be lost.
- FileIo.File.Write: positions within what the tree can address, and below 2^32 blocks, where the block of the cursor is cut to 32 bits.
- Directory.LinkBlock: blocks below 64 KiB; on a block that is not tiled it claims only that a corrupt block is not written back. The extra check on reading a block is not modelled.
- Directory.Dir.Link: the blocks of the directory are its data blocks in logical order, as the block walk delivers them; clearing the index flag of the inode is left out.
- BlockAlloc.Blocks.CheckBlockUninit: lazy groups whose first block is below 2^32; InitExact says what happens in the others.
- BlockAlloc.Blocks.NewBlock: likewise, and one block per cluster.
- InodeAlloc.RunInodes: starts without left-over bits in a lazy group, as a file system read by this library does, and every one with a reserved inode in use; Allocate says what they would do.
- DiscCache.Cache.GetPage: once the access counter has wrapped around, the smallest stamp need not be the oldest.
- DiscCache.Cache.WriteSectors: a disc that never fails; the source ignores write errors here.
- GekkoIo.GekkoDevice.Locate: the sector counts that the source computes in floating point are modelled on integers.
- SparseSuper.BackupGroups: up to the group count where the enumeration is exact.
- Sectors, blocks and leaf buffers are sequences that methods replace; writing through shared buffers is not modelled.
- Group descriptor checksums, journal, resize, bad-block lists, directory-block lists and the remaining containers.
- The tdb backend of the inode counts and its floating-point growth guess.
- Bigalloc, HURD translator blocks, image files, progress meters and memory-allocation failure.
- ext2fs_get_free_blocks2, ext2fs_file_set_size2 and 64-bit bitmap resizing.
- The little-endian value helpers of the cache, devoptab glue, mounting and partition scanning.
