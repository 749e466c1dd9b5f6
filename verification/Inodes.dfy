/** Inodes, indirect blocks and directory records on disk (include/northstar/nsfs_ondisk.h). */
module Inodes {
  import opened Bytes
  import opened OnDisk

  function Repeat(w: nat, n: nat): (r: seq<nat>)
    ensures |r| == n
  {
    seq(n, _ => w)
  }

  lemma {:induction false} RepeatOffset(w: nat, n: nat, k: nat)
    requires k <= n
    ensures Offset(Repeat(w, n), k) == k * w
    decreases k
  {
    if k > 0 {
      RepeatOffset(w, n, k - 1);
    }
  }

  // ---------- inodes ----------

  datatype Inode = Inode(
    mode: nat, kind: nat, flags: nat, uid: nat, gid: nat, linkCount: nat,
    size: nat, allocatedBlocks: nat, generation: nat, atime: nat, mtime: nat, ctime: nat,
    direct: seq<nat>, indirect: nat, reserved0: nat, checksum: nat, reserved1: nat)

  function InodeWidths(): (w: seq<nat>)
    ensures |w| == 28
  {
    [2, 1, 1, 4, 4] + [4, 8, 8, 8, 8] + [8, 8] + Repeat(4, 16)
  }

  function InodeFields(i: Inode): (f: seq<nat>)
    requires |i.direct| == DIRECT_BLOCKS
    ensures |f| == 28
  {
    [i.mode, i.kind, i.flags, i.uid, i.gid] + [i.linkCount, i.size, i.allocatedBlocks, i.generation, i.atime]
    + [i.mtime, i.ctime] + (i.direct + [i.indirect, i.reserved0, i.checksum, i.reserved1])
  }

  function InodeOf(f: seq<nat>): Inode
    requires |f| == 28
  {
    Inode(f[0], f[1], f[2], f[3], f[4], f[5], f[6], f[7], f[8], f[9], f[10], f[11],
          f[12..24], f[24], f[25], f[26], f[27])
  }

  lemma InodeSize()
    ensures Size(InodeWidths()) == INODE_SIZE
  {
    hide Size, Repeat;
    var a, b, c, d := [2, 1, 1, 4, 4], [4, 8, 8, 8, 8], [8, 8], Repeat(4, 16);
    SizeOfFive(2, 1, 1, 4, 4);
    SizeOfFive(4, 8, 8, 8, 8);
    assert Size(c) == 16 by { SizeOfTwo(8, 8); }
    assert Size(d) == 64 by { RepeatSize(4, |d|); }
    SizeConcat(a, b);
    SizeConcat(a + b, c);
    SizeConcat(a + b + c, d);
  }

  lemma SizeOfTwo(a: nat, b: nat)
    ensures Size([a, b]) == a + b
  {
    assert Offset([a, b], 1) == a;
  }

  lemma RepeatSize(w: nat, n: nat)
    ensures Size(Repeat(w, n)) == n * w
  {
    RepeatOffset(w, n, n);
  }

  function DecodeInode(b: seq<byte>): Inode
    requires INODE_SIZE <= |b|
  {
    InodeSize();
    InodeOf(Unpack(InodeWidths(), b))
  }

  function EncodeInode(i: Inode): (b: seq<byte>)
    requires |i.direct| == DIRECT_BLOCKS
    ensures |b| == INODE_SIZE
  {
    InodeSize();
    Pack(InodeWidths(), InodeFields(i))
  }

  lemma DirectLength(b: seq<byte>)
    requires INODE_SIZE <= |b|
    ensures |DecodeInode(b).direct| == DIRECT_BLOCKS
  {
  }

  lemma InodeRoundTrip(i: Inode, rest: seq<byte>)
    requires |i.direct| == DIRECT_BLOCKS && Fits(InodeWidths(), InodeFields(i))
    ensures DecodeInode(EncodeInode(i) + rest) == i
  {
    InodeOfFields(i);
    hide InodeWidths, InodeFields, InodeOf, Pack, Unpack;
    UnpackPack(InodeWidths(), InodeFields(i), rest);
  }

  lemma InodeOfFields(i: Inode)
    requires |i.direct| == DIRECT_BLOCKS
    ensures InodeOf(InodeFields(i)) == i
  {
    assert InodeFields(i)[12..24] == i.direct;
  }

  /** Every field of the inode is within its width. */
  predicate InodeBounds(i: Inode)
  {
    && i.mode < 0x1_0000 && i.kind < 0x100 && i.flags < 0x100
    && i.uid <= UINT32_MAX && i.gid <= UINT32_MAX && i.linkCount <= UINT32_MAX
    && i.size <= UINT64_MAX && i.allocatedBlocks <= UINT64_MAX && i.generation <= UINT64_MAX
    && i.atime <= UINT64_MAX && i.mtime <= UINT64_MAX && i.ctime <= UINT64_MAX
    && |i.direct| == DIRECT_BLOCKS && (forall k :: 0 <= k < DIRECT_BLOCKS ==> i.direct[k] <= UINT32_MAX)
    && i.indirect <= UINT32_MAX && i.reserved0 <= UINT32_MAX && i.checksum <= UINT32_MAX && i.reserved1 <= UINT32_MAX
  }

  lemma InodeBoundsFit(i: Inode)
    requires InodeBounds(i)
    ensures Fits(InodeWidths(), InodeFields(i))
  {
    assert Pow256(1) == 0x100 && Pow256(2) == 0x1_0000;
    assert Pow256(4) == UINT32_MAX + 1;
    assert Pow256(8) == UINT64_MAX + 1;
    hide Pow256;
    var wa, wb, wc, wd := [2, 1, 1, 4, 4], [4, 8, 8, 8, 8], [8, 8], Repeat(4, 16);
    var a := [i.mode, i.kind, i.flags, i.uid, i.gid];
    var b := [i.linkCount, i.size, i.allocatedBlocks, i.generation, i.atime];
    var c := [i.mtime, i.ctime];
    var d := i.direct + [i.indirect, i.reserved0, i.checksum, i.reserved1];
    assert Fits(wa, a) && Fits(wb, b) && Fits(wc, c) && Fits(wd, d);
    hide Fits, Repeat;
    FitsConcat(wa, a, wb, b);
    FitsConcat(wa + wb, a + b, wc, c);
    FitsConcat(wa + wb + wc, a + b + c, wd, d);
  }

  /** The checksum covers the inode with its own checksum field zeroed. */
  function InodeChecksum(i: Inode): (r: nat)
    requires |i.direct| == DIRECT_BLOCKS
    ensures r <= UINT32_MAX
  {
    Crc32c(EncodeInode(i.(checksum := 0)))
  }

  // ---------- indirect blocks ----------

  function IndirectWidths(): (w: seq<nat>)
    ensures |w| == INDIRECT_BLOCKS
  {
    Repeat(4, INDIRECT_BLOCKS)
  }

  lemma IndirectSize()
    ensures Size(IndirectWidths()) == BLOCK_SIZE
  {
    RepeatSize(4, INDIRECT_BLOCKS);
  }

  /** The block numbers an indirect block holds. */
  function Entries(b: Block): (e: seq<nat>)
    ensures |e| == INDIRECT_BLOCKS
  {
    IndirectSize();
    Unpack(IndirectWidths(), b)
  }

  function EncodeEntries(e: seq<nat>): (b: Block)
    requires |e| == INDIRECT_BLOCKS
  {
    IndirectSize();
    Pack(IndirectWidths(), e)
  }

  lemma EntriesRoundTrip(e: seq<nat>)
    requires |e| == INDIRECT_BLOCKS && forall k :: 0 <= k < |e| ==> e[k] <= UINT32_MAX
    ensures Entries(EncodeEntries(e)) == e
  {
    assert Fits(IndirectWidths(), e) by {
      assert Pow256(4) == UINT32_MAX + 1;
      hide Pow256;
    }
    hide IndirectWidths, Pack, Unpack;
    UnpackPack(IndirectWidths(), e, []);
    assert EncodeEntries(e) + [] == EncodeEntries(e);
  }

  // ---------- directory records ----------

  /** The fixed part of a directory record. */
  datatype Dirent = Dirent(inode: nat, recLen: nat, nameLen: nat, kind: nat)

  function DirentWidths(): (w: seq<nat>)
    ensures |w| == 4
  {
    [4, 2, 1, 1]
  }

  lemma DirentSize()
    ensures Size(DirentWidths()) == DIRENT_HEADER_SIZE
  {
    assert Offset([4, 2, 1, 1], 2) == 6;
  }

  function DirentAt(b: seq<byte>, offset: nat): (d: Dirent)
    requires offset + DIRENT_HEADER_SIZE <= |b|
  {
    DirentSize();
    var f := Unpack(DirentWidths(), b[offset..]);
    Dirent(f[0], f[1], f[2], f[3])
  }

  function EncodeDirent(d: Dirent): (b: seq<byte>)
    ensures |b| == DIRENT_HEADER_SIZE
  {
    DirentSize();
    Pack(DirentWidths(), [d.inode, d.recLen, d.nameLen, d.kind])
  }

  lemma DirentFits(d: Dirent)
    requires d.inode <= UINT32_MAX && d.recLen < 0x1_0000 && d.nameLen < 0x100 && d.kind < 0x100
    ensures Fits(DirentWidths(), [d.inode, d.recLen, d.nameLen, d.kind])
  {
    assert Pow256(1) == 0x100 && Pow256(2) == 0x1_0000 && Pow256(4) == UINT32_MAX + 1;
    hide Pow256;
  }

  lemma DirentRoundTrip(d: Dirent, before: seq<byte>, after: seq<byte>)
    requires d.inode <= UINT32_MAX && d.recLen < 0x1_0000 && d.nameLen < 0x100 && d.kind < 0x100
    ensures DirentAt(before + EncodeDirent(d) + after, |before|) == d
  {
    hide DirentWidths, Pack, Unpack, Fits;
    DirentFits(d);
    assert (before + EncodeDirent(d) + after)[|before|..] == EncodeDirent(d) + after;
    UnpackPack(DirentWidths(), [d.inode, d.recLen, d.nameLen, d.kind], after);
  }

  /** Header and name of n bytes, in whole words. */
  function DirentMin(n: nat): (r: nat)
    ensures DIRENT_HEADER_SIZE + n <= r < DIRENT_HEADER_SIZE + n + 4 && r % 4 == 0
  {
    (DIRENT_HEADER_SIZE + n + 3) / 4 * 4
  }
}
