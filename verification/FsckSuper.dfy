/** The start of a run: the superblock copies, the layout, and loading the metadata
    (tools/fsck_northstar.c, validate_super_copy to validate_layout and load_metadata). */
module FsckSuper {
  import opened Wrappers
  import opened Bytes
  import opened OnDisk
  import opened Inodes
  import opened Superblocks
  import opened Volumes
  import opened FsckReport

  // ---------- superblock copies ----------

  /** validate_super_copy. */
  method ValidateSuperCopy(report: Report, s: Superblock) returns (valid: bool)
    modifies report
    ensures valid == CopyValid(s)
    ensures report.errors >= old(report.errors) && report.fatal == old(report.fatal)
    ensures report.errors == old(report.errors) <==> valid
  {
    hide SuperChecksum;
    valid := true;
    if s.magic != MAGIC {
      report.Error();
      valid := false;
    }
    if s.version != VERSION {
      report.Error();
      valid := false;
    }
    if s.headerSize != SUPERBLOCK_SIZE || s.blockSize != BLOCK_SIZE || s.inodeSize != INODE_SIZE {
      report.Error();
      valid := false;
    }
    if s.checksum != SuperChecksum(s) {
      report.Error();
      valid := false;
    }
    if s.reserved != 0 {
      report.Warning();
    }
  }

  /** Both copies are valid and, if of one generation, the same. */
  predicate CopiesAgree(s0: Superblock, s1: Superblock)
  {
    CopyValid(s0) && CopyValid(s1) && (s0.generation == s1.generation ==> s0 == s1)
  }

  /** The two copies and select_superblock; without a valid copy the run cannot go on. */
  method SelectSuperblock(report: Report, s0: Superblock, s1: Superblock) returns (selected: Option<Superblock>)
    requires !report.fatal
    modifies report
    ensures selected == Newer(s0, s1)
    ensures report.errors >= old(report.errors) && report.fatal == selected.None?
    ensures report.errors == old(report.errors) <==> CopiesAgree(s0, s1)
  {
    hide CopyValid;
    var valid0 := ValidateSuperCopy(report, s0);
    var valid1 := ValidateSuperCopy(report, s1);
    if !valid0 && !valid1 {
      report.Fatal();
      return None;
    }
    if !valid0 || !valid1 {
      report.Error();
      return Some(if valid0 then s0 else s1);
    }
    if s0.generation == s1.generation && s0 != s1 {
      report.Error();
    } else if s0.generation != s1.generation {
      report.Warning();
    }
    return Some(if s1.generation > s0.generation then s1 else s0);
  }

  // ---------- layout ----------

  /** checked_extent. */
  method CheckExtent(report: Report, start: nat, count: nat, total: nat) returns (ok: bool, end: nat)
    modifies report
    ensures ok == Extent(start, count, total) && end == start + count
    ensures report.errors >= old(report.errors) && report.fatal == old(report.fatal)
    ensures report.errors == old(report.errors) <==> ok
  {
    ok, end := count != 0 && start + count <= total, start + count;
    if !ok {
      report.Error();
    }
  }

  /** One area behind the journal: in range, right behind the one before, and of the size the
      counts call for. */
  method CheckArea(report: Report, start: nat, count: nat, total: nat, behind: nat, expected: nat)
    returns (valid: bool, end: nat)
    modifies report
    ensures valid <==> Extent(start, count, total) && start == behind && count == expected
    ensures end == start + count
    ensures report.errors >= old(report.errors) && report.fatal == old(report.fatal)
    ensures report.errors == old(report.errors) <==> valid
  {
    valid := true;
    var ok;
    ok, end := CheckExtent(report, start, count, total);
    if !ok || start != behind {
      report.Error();
      valid := false;
    }
    if count != expected {
      report.Error();
      valid := false;
    }
  }

  predicate JournalShape(s: Superblock)
  {
    MIN_JOURNAL_BLOCKS <= s.journalBlocks <= JOURNAL_MAX_ENTRIES + 1 && s.journalStart == SUPERBLOCK_COPIES
  }

  /** The layouts validate_layout turns down without recording an issue: a journal of the wrong
      size or place is not reported, and the areas after it are then expected to start at block 0. */
  predicate SilentlyRejected(s: Superblock, regionBlocks: nat, allowDirty: bool)
  {
    && CountsValid(s, regionBlocks) && !JournalShape(s) && AreasFrom(s, 0)
    && (s.state == STATE_DIRTY ==> allowDirty)
  }

  /** The areas behind the journal. */
  method CheckAreas(report: Report, s: Superblock, journalEnd: nat) returns (valid: bool)
    modifies report
    ensures valid == AreasFrom(s, journalEnd)
    ensures report.errors >= old(report.errors) && report.fatal == old(report.fatal)
    ensures report.errors == old(report.errors) <==> valid
  {
    hide CeilDiv, Extent;
    var valid0, inodeBitmapEnd :=
      CheckArea(report, s.inodeBitmapStart, s.inodeBitmapBlocks, s.totalBlocks, journalEnd,
                CeilDiv(s.totalInodes, BLOCK_SIZE * 8));
    var valid1, blockBitmapEnd :=
      CheckArea(report, s.blockBitmapStart, s.blockBitmapBlocks, s.totalBlocks, inodeBitmapEnd,
                CeilDiv(s.totalBlocks, BLOCK_SIZE * 8));
    var valid2, inodeTableEnd :=
      CheckArea(report, s.inodeTableStart, s.inodeTableBlocks, s.totalBlocks, blockBitmapEnd,
                CeilDiv(s.totalInodes * INODE_SIZE, BLOCK_SIZE));
    valid := valid0 && valid1 && valid2;
    if s.dataStart != inodeTableEnd || s.dataStart >= s.totalBlocks {
      report.Error();
      valid := false;
    }
  }

  /** The checks before the areas; `journalEnd` is zero when the journal's shape is wrong. */
  method CheckCounts(report: Report, s: Superblock, regionBlocks: nat) returns (valid: bool, journalEnd: nat)
    modifies report
    ensures valid <==>
      && 16 <= s.totalBlocks <= UINT32_MAX && s.totalBlocks <= regionBlocks
      && 2 <= s.totalInodes && s.rootInode == ROOT_INODE && s.features == 0
      && JournalExtent(s) && s.journalEntries == JournalCapacity(s.journalBlocks)
    ensures journalEnd == if JournalShape(s) then s.journalStart + s.journalBlocks else 0
    ensures report.errors >= old(report.errors) && report.fatal == old(report.fatal)
    ensures report.errors == old(report.errors) <==>
      && 16 <= s.totalBlocks <= UINT32_MAX && s.totalBlocks <= regionBlocks
      && 2 <= s.totalInodes && s.rootInode == ROOT_INODE && s.features == 0
      && (JournalShape(s) ==> JournalExtent(s)) && s.journalEntries == JournalCapacity(s.journalBlocks)
  {
    valid, journalEnd := true, 0;
    if s.totalBlocks < 16 || s.totalBlocks > UINT32_MAX || s.totalBlocks > regionBlocks {
      report.Error();
      valid := false;
    }
    if s.totalInodes < 2 || s.rootInode != ROOT_INODE {
      report.Error();
      valid := false;
    }
    if s.features != 0 {
      report.Error();
      valid := false;
    }
    if s.journalBlocks < MIN_JOURNAL_BLOCKS || s.journalBlocks > JOURNAL_MAX_ENTRIES + 1
       || s.journalStart != SUPERBLOCK_COPIES {
      valid := false;
    } else {
      var ok, end := CheckExtent(report, s.journalStart, s.journalBlocks, s.totalBlocks);
      journalEnd := end;
      if !ok {
        valid := false;
      }
    }
    var expected := if s.journalBlocks > 0 then s.journalBlocks - 1 else 0;
    if expected > JOURNAL_MAX_ENTRIES {
      expected := JOURNAL_MAX_ENTRIES;
    }
    if s.journalEntries != expected {
      report.Error();
      valid := false;
    }
  }

  /** validate_layout: it accepts exactly the valid layouts, and turns one down without an issue
      exactly when it is silently rejected. */
  method ValidateLayout(report: Report, s: Superblock, regionBlocks: nat, allowDirty: bool) returns (valid: bool)
    modifies report
    ensures valid == LayoutValid(s, regionBlocks)
    ensures report.errors >= old(report.errors) && report.fatal == old(report.fatal)
    ensures valid ==> (report.errors == old(report.errors) <==> (s.state == STATE_DIRTY ==> allowDirty))
    ensures !valid ==> (report.errors == old(report.errors) <==> SilentlyRejected(s, regionBlocks, allowDirty))
  {
    hide AreasFrom, JournalCapacity;
    var counts, journalEnd := CheckCounts(report, s, regionBlocks);
    var areas := CheckAreas(report, s, journalEnd);
    valid := counts && areas;
    if s.state != STATE_CLEAN && s.state != STATE_DIRTY {
      report.Error();
      valid := false;
    } else if s.state == STATE_DIRTY && !allowDirty {
      report.Error();
    } else if s.state == STATE_DIRTY {
      report.Warning();
    }
  }

  // ---------- loading ----------

  /** The bytes of consecutive blocks. */
  function Span(image: seq<Block>, start: nat, count: nat): (b: seq<byte>)
    requires start + count <= |image|
    ensures |b| == count * BLOCK_SIZE
  {
    seq(count * BLOCK_SIZE, j requires 0 <= j < count * BLOCK_SIZE => image[start + j / BLOCK_SIZE][j % BLOCK_SIZE])
  }

  const INODES_PER_BLOCK: nat := 32

  /** Inode n of the table that starts at block `start`; no inode crosses a block. */
  function InodeAt(image: seq<Block>, start: nat, n: nat): (i: Inode)
    requires start + n / INODES_PER_BLOCK < |image|
    ensures |i.direct| == DIRECT_BLOCKS
  {
    DirectLength(image[start + n / INODES_PER_BLOCK][n % INODES_PER_BLOCK * INODE_SIZE..]);
    DecodeInode(image[start + n / INODES_PER_BLOCK][n % INODES_PER_BLOCK * INODE_SIZE..])
  }

  lemma LayoutSpans(s: Superblock, regionBlocks: nat)
    requires LayoutValid(s, regionBlocks)
    ensures s.inodeBitmapStart + s.inodeBitmapBlocks <= regionBlocks
    ensures s.blockBitmapStart + s.blockBitmapBlocks <= regionBlocks
    ensures 0 < s.dataStart < s.totalBlocks <= regionBlocks
    ensures s.totalInodes <= 8 * (s.inodeBitmapBlocks * BLOCK_SIZE)
    ensures s.totalBlocks <= 8 * (s.blockBitmapBlocks * BLOCK_SIZE)
    ensures forall n :: 0 <= n < s.totalInodes ==> TableBlock(s, n) < s.dataStart
  {
    forall n | 0 <= n < s.totalInodes
      ensures TableBlock(s, n) < s.dataStart
    {
    }
  }

  function TableBlock(s: Superblock, n: nat): nat
  {
    s.inodeTableStart + n / INODES_PER_BLOCK
  }

  /** load_metadata. */
  function Load(image: seq<Block>, s: Superblock): (v: Volume)
    requires LayoutValid(s, |image|)
    ensures s.totalInodes <= UINT32_MAX ==> Wf(v)
  {
    LayoutSpans(s, |image|);
    Volume(s, Span(image, s.inodeBitmapStart, s.inodeBitmapBlocks),
           Span(image, s.blockBitmapStart, s.blockBitmapBlocks),
           seq(s.totalInodes, n requires 0 <= n < s.totalInodes =>
                 InodeAt(image, (assert TableBlock(s, n) < s.dataStart; s.inodeTableStart), n)),
           image)
  }
}
