/** Which superblock copy a run uses and what it demands of the layout
    (tools/fsck_northstar.c, validate_super_copy to validate_layout). */
module Superblocks {
  import opened Wrappers
  import opened OnDisk

  predicate CopyValid(s: Superblock)
  {
    && s.magic == MAGIC
    && s.version == VERSION
    && s.headerSize == SUPERBLOCK_SIZE && s.blockSize == BLOCK_SIZE && s.inodeSize == INODE_SIZE
    && s.checksum == SuperChecksum(s)
  }

  /** The later valid copy; the first one when the generations are equal. */
  function Newer(s0: Superblock, s1: Superblock): Option<Superblock>
  {
    if CopyValid(s0) && CopyValid(s1) then Some(if s1.generation > s0.generation then s1 else s0)
    else if CopyValid(s0) then Some(s0)
    else if CopyValid(s1) then Some(s1)
    else None
  }

  function Selected(image: seq<Block>): Option<Superblock>
  {
    if |image| < SUPERBLOCK_COPIES then None
    else Newer(DecodeSuper(image[0]), DecodeSuper(image[1]))
  }

  function CeilDiv(value: nat, divisor: nat): nat
    requires divisor > 0
  {
    (value + divisor - 1) / divisor
  }

  function JournalCapacity(journalBlocks: nat): nat
  {
    if journalBlocks == 0 then 0
    else if journalBlocks - 1 > JOURNAL_MAX_ENTRIES then JOURNAL_MAX_ENTRIES
    else journalBlocks - 1
  }

  predicate Extent(start: nat, count: nat, total: nat)
  {
    count != 0 && start + count <= total
  }

  predicate JournalExtent(s: Superblock)
  {
    && MIN_JOURNAL_BLOCKS <= s.journalBlocks <= JOURNAL_MAX_ENTRIES + 1
    && s.journalStart == SUPERBLOCK_COPIES
    && Extent(s.journalStart, s.journalBlocks, s.totalBlocks)
  }

  /** The areas after the journal follow one another from block `start` and have the sizes the
      counts call for. */
  predicate AreasFrom(s: Superblock, start: nat)
  {
    && s.inodeBitmapStart == start
    && s.inodeBitmapBlocks == CeilDiv(s.totalInodes, BLOCK_SIZE * 8)
    && Extent(s.inodeBitmapStart, s.inodeBitmapBlocks, s.totalBlocks)
    && s.blockBitmapStart == s.inodeBitmapStart + s.inodeBitmapBlocks
    && s.blockBitmapBlocks == CeilDiv(s.totalBlocks, BLOCK_SIZE * 8)
    && Extent(s.blockBitmapStart, s.blockBitmapBlocks, s.totalBlocks)
    && s.inodeTableStart == s.blockBitmapStart + s.blockBitmapBlocks
    && s.inodeTableBlocks == CeilDiv(s.totalInodes * INODE_SIZE, BLOCK_SIZE)
    && Extent(s.inodeTableStart, s.inodeTableBlocks, s.totalBlocks)
    && s.dataStart == s.inodeTableStart + s.inodeTableBlocks < s.totalBlocks
  }

  predicate CountsValid(s: Superblock, regionBlocks: nat)
  {
    && 16 <= s.totalBlocks <= UINT32_MAX && s.totalBlocks <= regionBlocks
    && 2 <= s.totalInodes && s.rootInode == ROOT_INODE
    && s.features == 0
    && s.journalEntries == JournalCapacity(s.journalBlocks)
    && (s.state == STATE_CLEAN || s.state == STATE_DIRTY)
  }

  /** What validate_layout accepts, on a region of so many blocks. */
  predicate LayoutValid(s: Superblock, regionBlocks: nat)
  {
    && CountsValid(s, regionBlocks)
    && JournalExtent(s)
    && AreasFrom(s, s.journalStart + s.journalBlocks)
  }
}
