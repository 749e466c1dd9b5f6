/** Writing one inode into the inode table (tools/mkfs_northstar.c, the end of write_node). */
module InodeTable {
  import opened Bytes
  import opened OnDisk
  import opened Inodes
  import opened DirBlocks
  import opened TreeImage
  import opened FsckSuper

  /** The image with the 128 bytes of inode n replaced. */
  function WithInode(image: seq<Block>, table: nat, n: nat, i: Inode): (r: seq<Block>)
    requires InodeInside(image, table, n) && |i.direct| == DIRECT_BLOCKS
    ensures |r| == |image|
  {
    var at := table + n / INODES_PER_BLOCK;
    image[at := Splice(image[at], n % INODES_PER_BLOCK * INODE_SIZE, EncodeInode(i))]
  }

  lemma UnpackPrefix(widths: seq<nat>, b: seq<byte>, b': seq<byte>)
    requires Bytes.Size(widths) <= |b| && Bytes.Size(widths) <= |b'|
    requires b[..Bytes.Size(widths)] == b'[..Bytes.Size(widths)]
    ensures Unpack(widths, b) == Unpack(widths, b')
  {
    var n := Bytes.Size(widths);
    forall i | 0 <= i < |widths|
      ensures Field(widths, b, i) == Field(widths, b', i)
    {
      var lo, hi := Offset(widths, i), Offset(widths, i + 1);
      OffsetMonotone(widths, i + 1, |widths|);
      assert b[lo..hi] == b[..n][lo..hi];
      assert b'[lo..hi] == b'[..n][lo..hi];
    }
  }

  lemma DecodePrefix(b: seq<byte>, b': seq<byte>)
    requires INODE_SIZE <= |b| && INODE_SIZE <= |b'| && b[..INODE_SIZE] == b'[..INODE_SIZE]
    ensures DecodeInode(b) == DecodeInode(b')
  {
    hide InodeWidths, Unpack;
    InodeSize();
    UnpackPrefix(InodeWidths(), b, b');
  }

  lemma SpliceElsewhere(b: Block, at: nat, bytes: seq<byte>, other: nat)
    requires |bytes| == INODE_SIZE && at + INODE_SIZE <= BLOCK_SIZE && other + INODE_SIZE <= BLOCK_SIZE
    requires at + INODE_SIZE <= other || other + INODE_SIZE <= at
    ensures Splice(b, at, bytes)[other..][..INODE_SIZE] == b[other..][..INODE_SIZE]
  {
    var s := Splice(b, at, bytes);
    assert s[other..][..INODE_SIZE] == s[other..other + INODE_SIZE];
    assert b[other..][..INODE_SIZE] == b[other..other + INODE_SIZE];
  }

  /** The slot written reads back, the others are as before. */
  lemma InodeWritten(image: seq<Block>, table: nat, n: nat, i: Inode, m: nat)
    requires InodeInside(image, table, n) && InodeBounds(i) && InodeInside(image, table, m)
    ensures InodeAt(WithInode(image, table, n, i), table, m) == if m == n then i else InodeAt(image, table, m)
  {
    hide EncodeInode, DecodeInode, Splice, InodeBounds;
    BoundsDirect(i);
    var at := table + n / INODES_PER_BLOCK;
    var slot := n % INODES_PER_BLOCK * INODE_SIZE;
    var b := image[at];
    var b' := Splice(b, slot, EncodeInode(i));
    if m == n {
      InodeBoundsFit(i);
      SpliceAt(b, slot, EncodeInode(i));
      InodeRoundTrip(i, b'[slot..][INODE_SIZE..]);
    } else if m / INODES_PER_BLOCK == n / INODES_PER_BLOCK {
      var other := m % INODES_PER_BLOCK * INODE_SIZE;
      DifferentSlots(m, n);
      SpliceElsewhere(b, slot, EncodeInode(i), other);
      DecodePrefix(b'[other..], b[other..]);
    }
  }

  lemma BoundsDirect(i: Inode)
    requires InodeBounds(i)
    ensures |i.direct| == DIRECT_BLOCKS
  {
  }

  lemma DifferentSlots(m: nat, n: nat)
    requires m != n && m / INODES_PER_BLOCK == n / INODES_PER_BLOCK
    ensures var a, b := m % INODES_PER_BLOCK * INODE_SIZE, n % INODES_PER_BLOCK * INODE_SIZE;
      a + INODE_SIZE <= b || b + INODE_SIZE <= a
  {
  }

  lemma SpliceAt(b: Block, at: nat, bytes: seq<byte>)
    requires |bytes| == INODE_SIZE && at + INODE_SIZE <= BLOCK_SIZE
    ensures Splice(b, at, bytes)[at..] == bytes + Splice(b, at, bytes)[at..][INODE_SIZE..]
  {
  }
}
