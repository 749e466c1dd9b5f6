/** What the checks of fsck mean for the bytes of an image (tools/fsck_northstar.c): each check's
    condition against a statement about stored checksums, bits, block pointers and records. */
module FsckMeaning {
  import opened Sequences
  import opened Bytes
  import opened Paths
  import opened OnDisk
  import opened Inodes
  import opened Superblocks
  import opened Volumes
  import opened Directories
  import opened FsckSuper
  import opened FsckBlocks
  import opened Checksums
  import Bitmap

  // ---------- superblock copies ----------

  /** A superblock copy whose 256 bytes carry their checksum and name this format. */
  predicate CopySound(b: Block)
  {
    var s := DecodeSuper(b);
    && ChecksumAt(b[..256], SUPER_CHECKSUM)
    && s.magic == 0x0053_4652_4154_534e && s.version == 1
    && s.headerSize == 256 && s.blockSize == 4096 && s.inodeSize == 128
  }

  lemma CopyMeans(b: Block)
    ensures CopyValid(DecodeSuper(b)) <==> CopySound(b)
  {
    hide SuperWidths, SuperOf, SuperChecksum, ChecksumAt, Unpack;
    SuperSize();
    UnpackPrefix(SuperWidths(), b, SUPERBLOCK_SIZE);
    assert DecodeSuper(b[..SUPERBLOCK_SIZE]) == DecodeSuper(b);
    SuperChecked(b[..SUPERBLOCK_SIZE]);
  }

  // ---------- the layout ----------

  /** So many units of a given size are just enough for so much. */
  predicate JustEnough(count: nat, unit: nat, amount: nat)
  {
    amount <= count * unit < amount + unit
  }

  /** Behind two superblocks come the journal of 9 to 129 blocks, a bit for each inode, a bit for each
      block, 128 bytes for each inode, and the data, each area right behind the one before and no larger
      than it needs to be, all within the filesystem and that within the image. */
  predicate LayoutSound(s: Superblock, regionBlocks: nat)
  {
    && 16 <= s.totalBlocks <= 0xFFFF_FFFF && s.totalBlocks <= regionBlocks
    && 2 <= s.totalInodes && s.rootInode == 1 && s.features == 0
    && (s.state == STATE_CLEAN || s.state == STATE_DIRTY)
    && s.journalStart == 2 && 9 <= s.journalBlocks <= 129 && s.journalEntries == s.journalBlocks - 1
    && s.inodeBitmapStart == 2 + s.journalBlocks && JustEnough(s.inodeBitmapBlocks, 32768, s.totalInodes)
    && s.blockBitmapStart == s.inodeBitmapStart + s.inodeBitmapBlocks
    && JustEnough(s.blockBitmapBlocks, 32768, s.totalBlocks)
    && s.inodeTableStart == s.blockBitmapStart + s.blockBitmapBlocks
    && JustEnough(s.inodeTableBlocks, 4096, 128 * s.totalInodes)
    && s.dataStart == s.inodeTableStart + s.inodeTableBlocks < s.totalBlocks
  }

  lemma CeilMeans(amount: nat, unit: nat, count: nat)
    requires unit == 32768 || unit == 4096
    ensures count == CeilDiv(amount, unit) <==> JustEnough(count, unit, amount)
  {
  }

  lemma LayoutMeans(s: Superblock, regionBlocks: nat)
    ensures LayoutValid(s, regionBlocks) <==> LayoutSound(s, regionBlocks)
  {
    hide CeilDiv, JustEnough;
    CeilMeans(s.totalInodes, 32768, s.inodeBitmapBlocks);
    CeilMeans(s.totalBlocks, 32768, s.blockBitmapBlocks);
    CeilMeans(128 * s.totalInodes, 4096, s.inodeTableBlocks);
    EnoughForSome(s.inodeBitmapBlocks, 32768, s.totalInodes);
    EnoughForSome(s.blockBitmapBlocks, 32768, s.totalBlocks);
    EnoughForSome(s.inodeTableBlocks, 4096, 128 * s.totalInodes);
  }

  lemma EnoughForSome(count: nat, unit: nat, amount: nat)
    ensures JustEnough(count, unit, amount) && amount > 0 ==> count > 0
  {
  }

  // ---------- inodes ----------

  /** The 128 bytes of an inode in the table. */
  function TableBytes(image: seq<Block>, s: Superblock, n: nat): (b: seq<byte>)
    requires s.inodeTableStart + n / 32 < |image|
    ensures |b| == 128
  {
    var at := n % 32 * 128;
    image[s.inodeTableStart + n / 32][at..at + 128]
  }

  /** The inode as it was loaded, and its bytes. */
  predicate Tabled(v: Volume, n: nat)
    requires Wf(v) && n < v.sb.totalInodes
  {
    && v.sb.inodeTableStart + n / INODES_PER_BLOCK < |v.image|
    && v.inodes[n] == InodeAt(v.image, v.sb.inodeTableStart, n)
  }

  /** So many blocks hold the inode's bytes, and beyond twelve it has one more for the pointers. */
  predicate BlocksFor(i: Inode, blocks: nat)
  {
    i.size <= 4096 * blocks < i.size + 4096 && i.allocatedBlocks == if blocks > 12 then blocks + 1 else blocks
  }

  /** It names no other blocks. */
  predicate NoOthers(v: Volume, i: Inode)
    requires |i.direct| == DIRECT_BLOCKS
  {
    && (forall k :: i.allocatedBlocks <= k < 12 ==> i.direct[k] == 0)
    && (i.allocatedBlocks <= 12 ==> i.indirect == 0)
    && (i.allocatedBlocks > 13 ==> forall k :: i.allocatedBlocks - 13 <= k < 1024 ==> IndirectEntries(v, i)[k] == 0)
  }

  /** The inode's table bytes carry their checksum, its kind, flags, mode and link count are permitted,
      and it has as many blocks as its size calls for and no others. */
  ghost predicate InodeSound(v: Volume, n: nat)
    requires Wf(v) && n < v.sb.totalInodes && Tabled(v, n)
  {
    var i := v.inodes[n];
    && ChecksumAt(TableBytes(v.image, v.sb, n), INODE_CHECKSUM)
    && (i.kind == INODE_REGULAR || i.kind == INODE_DIRECTORY || i.kind == INODE_SYMLINK)
    && i.flags == 0 && i.mode < 4096 && i.linkCount != 0 && i.size <= 4243456
    && (exists blocks :: BlocksFor(i, blocks)) && NoOthers(v, i)
  }

  lemma InodeBytes(image: seq<Block>, s: Superblock, n: nat)
    requires s.inodeTableStart + n / INODES_PER_BLOCK < |image|
    ensures InodeAt(image, s.inodeTableStart, n) == DecodeInode(TableBytes(image, s, n))
  {
    hide InodeWidths, InodeOf, Unpack;
    var block, at := image[s.inodeTableStart + n / 32], n % 32 * 128;
    InodeSize();
    UnpackPrefix(InodeWidths(), block[at..], INODE_SIZE);
    assert block[at..][..INODE_SIZE] == block[at..at + 128];
  }

  lemma InodeMeans(v: Volume, n: nat)
    requires Wf(v) && n < v.sb.totalInodes && Tabled(v, n)
    ensures InodeOk(v, v.inodes[n]) <==> InodeSound(v, n)
  {
    hide InodeAt, TableBytes, ChecksumAt, InodeChecksum, DecodeInode, NoOthers, UnusedZero, BlocksFor, SlotCount;
    var i := v.inodes[n];
    InodeBytes(v.image, v.sb, n);
    InodeChecked(TableBytes(v.image, v.sb, n));
    BlocksMean(i);
    if i.size <= MAX_FILE_SIZE && i.allocatedBlocks == SlotCount(i) { UnusedMeans(v, i); }
  }

  lemma BlocksMean(i: Inode)
    ensures i.allocatedBlocks == SlotCount(i) <==> exists blocks :: BlocksFor(i, blocks)
  {
    if i.allocatedBlocks == SlotCount(i) { assert BlocksFor(i, DataBlocks(i)); }
    if blocks :| BlocksFor(i, blocks) { assert blocks == DataBlocks(i); }
  }

  lemma UnusedMeans(v: Volume, i: Inode)
    requires |i.direct| == DIRECT_BLOCKS && i.size <= MAX_FILE_SIZE && i.allocatedBlocks == SlotCount(i)
    ensures UnusedZero(v, i) <==> NoOthers(v, i)
  {
    hide IndirectEntries;
    SlotBounds(i);
    var used, e := SlotCount(i), IndirectEntries(v, i);
    assert used <= 12 <==> DataBlocks(i) <= 12;
    hide SlotCount;
    if UnusedZero(v, i) {
      forall k | used <= k < 12
        ensures i.direct[k] == 0
      {
        assert Slot(v, i, k) == 0;
      }
      if used <= 12 { assert Slot(v, i, 12) == 0; }
      if used > 13 {
        forall k | used - 13 <= k < 1024
          ensures e[k] == 0
        {
          assert Slot(v, i, k + 13) == 0;
        }
      }
    }
    if NoOthers(v, i) {
      forall k | used <= k < SlotTotal(i)
        ensures Slot(v, i, k) == 0
      {
        if k > 12 { assert e[k - 13] == 0; }
      }
    }
  }

  // ---------- bitmaps ----------

  predicate Clear(bitmap: seq<byte>, bit: nat)
    requires bit < 8 * |bitmap|
  {
    !Bitmap.Test(bitmap, bit)
  }

  /** The clear bits below n. */
  function ClearBits(bitmap: seq<byte>, n: nat): set<nat>
    requires n <= 8 * |bitmap|
  {
    set bit: nat | 0 <= bit < n && Clear(bitmap, bit)
  }

  lemma {:induction false} CountMeans(bitmap: seq<byte>, n: nat)
    requires n <= 8 * |bitmap|
    ensures n - Bitmap.Count(bitmap, n) == |ClearBits(bitmap, n)|
  {
    hide Bitmap.Test;
    if n == 0 {
      assert ClearBits(bitmap, n) == {};
    } else {
      CountMeans(bitmap, n - 1);
      var less := ClearBits(bitmap, n - 1);
      assert ClearBits(bitmap, n) == if Clear(bitmap, n - 1) then less + {n - 1} else less;
    }
  }

  /** Inodes 0 and 1, the blocks of the metadata, and the bits past the ends are marked; the free counts
      of the superblock are the numbers of clear bits. */
  ghost predicate BitsSound(v: Volume)
    requires Wf(v)
  {
    && (forall n :: 0 <= n < 8 * |v.inodeBitmap| && (n <= 1 || v.sb.totalInodes <= n) ==> Bitmap.Test(v.inodeBitmap, n))
    && (forall b :: 0 <= b < 8 * |v.blockBitmap| && (b < v.sb.dataStart || v.sb.totalBlocks <= b) ==>
          Bitmap.Test(v.blockBitmap, b))
    && v.sb.freeInodes == |ClearBits(v.inodeBitmap, v.sb.totalInodes)|
    && v.sb.freeBlocks == |ClearBits(v.blockBitmap, v.sb.totalBlocks)|
  }

  lemma TailsMean(v: Volume)
    requires Wf(v)
    ensures TailsOk(v) <==> BitsSound(v)
  {
    hide Bitmap.Test, ClearBits;
    CountMeans(v.inodeBitmap, v.sb.totalInodes);
    CountMeans(v.blockBitmap, v.sb.totalBlocks);
  }

  // ---------- directories ----------

  /** A record in use: a name of one to 255 bytes without NUL and slash, for an allocated inode of just
      this kind; a dot names the directory itself, and dots name directories. */
  predicate RecordSound(v: Volume, d: nat, r: Record)
    requires Wf(v) && r.inode != 0
  {
    && 1 <= |r.name| <= 255 && (forall k :: 0 <= k < |r.name| ==> r.name[k] != 0 && r.name[k] != SLASH)
    && r.inode < v.sb.totalInodes && Bitmap.Test(v.inodeBitmap, r.inode)
    && r.kind == v.inodes[r.inode].kind
    && (r.kind == INODE_REGULAR || r.kind == INODE_DIRECTORY || r.kind == INODE_SYMLINK)
    && (r.name == DOT ==> r.inode == d) && (r.name == DOT || r.name == DOTDOT ==> r.kind == INODE_DIRECTORY)
  }

  /** A name occurs in a record in use. */
  predicate Holds(rs: seq<Record>, k: int, name: seq<byte>)
  {
    0 <= k < |rs| && rs[k].inode != 0 && rs[k].name == name
  }

  /** Records fill the directory's blocks; those in use are sound, no two have the same name, and both
      dots are there. */
  ghost predicate DirectorySound(v: Volume, d: nat)
    requires Wf(v) && d < v.sb.totalInodes
  {
    var i := v.inodes[d];
    && 0 < i.size <= UINT64_MAX - 4095 && DirBlocksOk(v, i, DataBlocks(i))
    && var rs := RecordsUpto(v, i, DataBlocks(i));
    && (forall k :: 0 <= k < |rs| ==> if rs[k].inode == 0 then rs[k].name == [] && rs[k].kind == 0
                                      else RecordSound(v, d, rs[k]))
    && Unrepeated(rs) && (exists k :: Holds(rs, k, DOT)) && (exists k :: Holds(rs, k, DOTDOT))
  }

  lemma {:induction false} NameHeld(rs: seq<Record>, name: seq<byte>)
    ensures name in NamesOf(rs) <==> exists k :: Holds(rs, k, name)
  {
    if rs != [] {
      var n := |rs| - 1;
      NameHeld(rs[..n], name);
      if k :| Holds(rs[..n], k, name) { assert Holds(rs, k, name); }
      if k :| Holds(rs, k, name) { assert k < n ==> Holds(rs[..n], k, name); }
      if Holds(rs, n, name) { assert name == rs[n].name; }
    }
  }

  /** No two records in use have the same name. */
  ghost predicate Unrepeated(rs: seq<Record>)
  {
    forall j, k, name :: Holds(rs, j, name) && Holds(rs, k, name) ==> j == k
  }

  lemma {:induction false} DistinctMeans(rs: seq<Record>)
    ensures Distinct(NamesOf(rs)) <==> Unrepeated(rs)
  {
    if rs != [] {
      var n := |rs| - 1;
      var front, last := rs[..n], rs[n];
      DistinctMeans(front);
      NameHeld(front, last.name);
      UnrepeatedMore(rs);
      if last.inode == 0 {
        assert NamesOf(rs) == NamesOf(front);
      } else {
        DistinctMore(NamesOf(front), last.name);
      }
    }
  }

  lemma DistinctMore(names: seq<seq<byte>>, name: seq<byte>)
    ensures Distinct(names + [name]) <==> Distinct(names) && name !in names
  {
    var more := names + [name];
    if Distinct(more) {
      forall i, j | 0 <= i < j < |names|
        ensures names[i] != names[j]
      {
        assert more[i] != more[j];
      }
      forall i | 0 <= i < |names|
        ensures names[i] != name
      {
        assert more[i] != more[|names|];
      }
    }
  }

  lemma UnrepeatedMore(rs: seq<Record>)
    requires rs != []
    ensures var n := |rs| - 1;
      Unrepeated(rs) <==>
      Unrepeated(rs[..n]) && (rs[n].inode != 0 ==> !exists k :: Holds(rs[..n], k, rs[n].name))
  {
    var n := |rs| - 1;
    var front, last := rs[..n], rs[n].name;
    forall k, name
      ensures Holds(rs, k, name) <==> Holds(front, k, name) || (k == n && rs[n].inode != 0 && last == name)
    {
    }
    if Unrepeated(rs) && rs[n].inode != 0 {
      forall k | Holds(front, k, last)
        ensures false
      {
        assert Holds(rs, k, last) && Holds(rs, n, last);
      }
    }
  }

  lemma {:induction false} OccursMeans(names: seq<seq<byte>>, x: seq<byte>)
    requires Distinct(names)
    ensures Occurrences(names, x) == if x in names then 1 else 0
  {
    if names != [] {
      var n := |names| - 1;
      assert names == names[..n] + [names[n]];
      DistinctMore(names[..n], names[n]);
      OccursMeans(names[..n], x);
    }
  }

  lemma DirectoryMeans(v: Volume, d: nat)
    requires Wf(v) && d < v.sb.totalInodes
    ensures DirectoryOk(v, d) <==> DirectorySound(v, d)
  {
    hide RecordsUpto, DirBlocksOk, DataBlocks, Bitmap.Test, NamesOf, Occurrences, Distinct, Holds;
    var i := v.inodes[d];
    if DirBlocksOk(v, i, DataBlocks(i)) {
      var rs := RecordsUpto(v, i, DataBlocks(i));
      DistinctMeans(rs);
      NameHeld(rs, DOT);
      NameHeld(rs, DOTDOT);
      if Distinct(NamesOf(rs)) {
        OccursMeans(NamesOf(rs), DOT);
        OccursMeans(NamesOf(rs), DOTDOT);
      }
    }
  }

  // ---------- directory blocks ----------

  /** A record's bytes: inode, length, length of the name, kind, and the name. */
  function RecordBytes(b: Block, at: nat): Record
    requires at + 8 <= 4096 && at + 8 + b[at + 6] <= 4096
  {
    Record(DecodeLE(b[at..at + 4]), b[at + 7], b[at + 8..at + 8 + b[at + 6]])
  }

  predicate StandsAt(b: Block, at: nat, r: Record)
  {
    at + 8 <= 4096 && at + 8 + b[at + 6] <= 4096 && r == RecordBytes(b, at)
  }

  /** A record reaches from one cut to the next: a multiple of four bytes, with room for its name. */
  predicate Reaches(b: Block, at: nat, next: nat, limit: nat)
    requires limit <= 4096
  {
    && at + 8 <= next <= limit && DecodeLE(b[at + 4..at + 6]) == next - at
    && (next - at) % 4 == 0 && at + 8 + b[at + 6] <= next
  }

  /** The cuts lead from one offset to the limit, record by record. */
  predicate Cuts(b: Block, cuts: seq<nat>, offset: nat, limit: nat)
    requires limit <= 4096
  {
    && cuts != [] && cuts[0] == offset && cuts[|cuts| - 1] == limit
    && forall k :: 0 < k < |cuts| ==> Reaches(b, cuts[k - 1], cuts[k], limit)
  }

  lemma DirentBytes(b: Block, at: nat)
    requires at + 8 <= 4096
    ensures DirentAt(b, at) == Dirent(DecodeLE(b[at..at + 4]), DecodeLE(b[at + 4..at + 6]), b[at + 6], b[at + 7])
  {
    var tail := b[at..];
    DirentSize();
    assert Offset(DirentWidths(), 1) == 4 && Offset(DirentWidths(), 2) == 6 && Offset(DirentWidths(), 3) == 7;
    hide Offset;
    assert tail[0..4] == b[at..at + 4] && tail[4..6] == b[at + 4..at + 6];
    assert tail[6..7] == [b[at + 6]] && tail[7..8] == [b[at + 7]];
    OneByte(b[at + 6]);
    OneByte(b[at + 7]);
    UnpackField(DirentWidths(), tail, 0);
    UnpackField(DirentWidths(), tail, 1);
    UnpackField(DirentWidths(), tail, 2);
    UnpackField(DirentWidths(), tail, 3);
  }

  lemma OneByte(x: byte)
    ensures DecodeLE([x]) == x
  {
    assert [x][1..] == [];
  }

  lemma ReachesFits(b: Block, at: nat, limit: nat)
    requires at <= limit <= 4096
    ensures RecordFits(b, at, limit) <==> at + 8 <= 4096 && Reaches(b, at, at + DecodeLE(b[at + 4..at + 6]), limit)
    ensures RecordFits(b, at, limit) ==>
      && NextOffset(b, at, limit) == at + DecodeLE(b[at + 4..at + 6]) && RecordAt(b, at, limit) == RecordBytes(b, at)
  {
    hide DirentAt, DecodeLE;
    if at + 8 <= limit { DirentBytes(b, at); }
  }

  /** Records fill a block exactly when there are such cuts. */
  lemma {:induction false} TilesMeans(b: Block, offset: nat, limit: nat) returns (cuts: seq<nat>)
    requires offset <= limit <= 4096 && Tiles(b, offset, limit)
    ensures Cuts(b, cuts, offset, limit)
    decreases limit - offset
  {
    hide DirentAt, DecodeLE, RecordFits, Reaches;
    if offset == limit {
      cuts := [offset];
    } else {
      ReachesFits(b, offset, limit);
      var next := NextOffset(b, offset, limit);
      var rest := TilesMeans(b, next, limit);
      cuts := [offset] + rest;
      forall k | 0 < k < |cuts|
        ensures Reaches(b, cuts[k - 1], cuts[k], limit)
      {
        if k > 1 { assert cuts[k - 1] == rest[k - 2] && cuts[k] == rest[k - 1]; }
      }
    }
  }

  lemma {:induction false} CutsMean(b: Block, cuts: seq<nat>, offset: nat, limit: nat)
    requires limit <= 4096 && Cuts(b, cuts, offset, limit)
    ensures offset <= limit && Tiles(b, offset, limit) && |Records(b, offset, limit)| == |cuts| - 1
    ensures forall k :: 0 <= k < |cuts| - 1 ==> StandsAt(b, cuts[k], Records(b, offset, limit)[k])
    decreases |cuts|
  {
    hide DirentAt, DecodeLE, RecordFits, RecordAt, NextOffset;
    if |cuts| > 1 {
      assert Reaches(b, cuts[0], cuts[1], limit);
      var rest := cuts[1..];
      forall k | 0 < k < |rest|
        ensures Reaches(b, rest[k - 1], rest[k], limit)
      {
        assert Reaches(b, cuts[k], cuts[k + 1], limit);
      }
      CutsMean(b, rest, cuts[1], limit);
      ReachesFits(b, offset, limit);
      var rs := Records(b, offset, limit);
      forall k | 0 <= k < |cuts| - 1
        ensures StandsAt(b, cuts[k], rs[k])
      {
        if k > 0 { assert cuts[k] == rest[k - 1] && rs[k] == Records(b, cuts[1], limit)[k - 1]; }
      }
    }
  }

  /** A block of a directory is one of the data area that records fill. */
  lemma DirBlockMeans(v: Volume, i: Inode, k: nat)
    requires Wf(v) && |i.direct| == DIRECT_BLOCKS && k < DataBlocks(i)
    ensures DirBlockOk(v, i, k) <==>
      && v.sb.dataStart <= LogicalBlock(v, i, k) < v.sb.totalBlocks
      && exists cuts :: Cuts(v.image[LogicalBlock(v, i, k)], cuts, 0, Limit(i, k))
  {
    hide Tiles, Cuts, LogicalBlock;
    var at := LogicalBlock(v, i, k);
    if InDataArea(v, at) {
      var b, limit := v.image[at], Limit(i, k);
      if Tiles(b, 0, limit) { var cuts := TilesMeans(b, 0, limit); }
      if cuts :| Cuts(b, cuts, 0, limit) { CutsMean(b, cuts, 0, limit); }
    }
  }

  // ---------- a loaded volume ----------

  lemma LoadTabled(image: seq<Block>, s: Superblock, n: nat)
    requires LayoutValid(s, |image|) && s.totalInodes <= UINT32_MAX && n < s.totalInodes
    ensures Tabled(Load(image, s), n)
  {
    hide InodeAt;
    LayoutSpans(s, |image|);
    assert TableBlock(s, n) < s.dataStart;
  }

  /** All the checks of a loaded volume that look at one inode, one directory or the bitmaps. */
  ghost predicate VolumeSound(v: Volume)
    requires Wf(v)
  {
    && BitsSound(v)
    && (forall n :: 1 <= n < v.sb.totalInodes && Allocated(v, n) ==> Tabled(v, n) && InodeSound(v, n))
    && (forall d :: 1 <= d < v.sb.totalInodes && IsDirectory(v, d) ==> DirectorySound(v, d))
  }

  lemma VolumeMeans(image: seq<Block>, s: Superblock)
    requires LayoutValid(s, |image|) && s.totalInodes <= UINT32_MAX
    ensures var v := Load(image, s);
      VolumeSound(v) <==> TailsOk(v) && InodesOk(v, v.sb.totalInodes) && DirectoriesOk(v, v.sb.totalInodes)
  {
    hide LayoutValid, Load, TailsOk, BitsSound, InodeOk, InodeSound, DirectoryOk, DirectorySound, Tabled, Bitmap.Test;
    var v := Load(image, s);
    TailsMean(v);
    forall n | 0 <= n < v.sb.totalInodes
      ensures Tabled(v, n) && (InodeOk(v, v.inodes[n]) <==> InodeSound(v, n))
      ensures DirectoryOk(v, n) <==> DirectorySound(v, n)
    {
      LoadedSuper(image, s);
      LoadTabled(image, s, n);
      InodeMeans(v, n);
      DirectoryMeans(v, n);
    }
  }

  lemma LoadedSuper(image: seq<Block>, s: Superblock)
    requires LayoutValid(s, |image|)
    ensures Load(image, s).sb == s
  {
  }
}
