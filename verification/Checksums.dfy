/** The stored checksums as bytes on the disk: each covers its structure with its own four bytes
    zeroed (include/northstar/nsfs_ondisk.h). */
module Checksums {
  import opened Bytes
  import opened OnDisk
  import opened Inodes

  /** The four bytes at `at` are the checksum of the whole with those bytes zeroed. */
  predicate ChecksumAt(b: seq<byte>, at: nat)
    requires at + 4 <= |b|
  {
    DecodeLE(b[at..at + 4]) == Crc32c(b[..at] + Zeros(4) + b[at + 4..])
  }

  lemma {:induction false} ZeroBytes(width: nat)
    ensures EncodeLE(width, 0) == Zeros(width)
  {
    if width > 0 { ZeroBytes(width - 1); }
  }

  /** A record with one field zeroed, as bytes. */
  lemma {:induction false} EncodeZeroed(widths: seq<nat>, values: seq<nat>, k: nat, n: nat)
    requires k < |values| == |widths| && n <= |widths|
    ensures n <= k ==> Encode(widths, values[k := 0], n) == Encode(widths, values, n)
    ensures n > k ==>
      && Offset(widths, k) <= Offset(widths, k + 1) <= |Encode(widths, values, n)|
      && Encode(widths, values[k := 0], n) == Encode(widths, values, n)[..Offset(widths, k)] + Zeros(widths[k])
                                              + Encode(widths, values, n)[Offset(widths, k + 1)..]
    decreases n
  {
    hide EncodeLE;
    if n > 0 {
      EncodeZeroed(widths, values, k, n - 1);
      if n - 1 == k {
        ZeroBytes(widths[k]);
      } else if n - 1 > k {
        OffsetMonotone(widths, k + 1, n - 1);
      }
    }
  }

  /** What zeroing field k of a record read from bytes does to the bytes. */
  lemma PackZeroed(widths: seq<nat>, b: seq<byte>, k: nat, at: nat)
    requires Size(widths) == |b| && k < |widths| && Offset(widths, k) == at && widths[k] == 4
    ensures at + 4 <= |b|
    ensures Pack(widths, Unpack(widths, b)[k := 0]) == b[..at] + Zeros(4) + b[at + 4..]
    ensures Unpack(widths, b)[k] == DecodeLE(b[at..at + 4])
  {
    hide Unpack, Encode, EncodeLE, DecodeLE;
    OffsetMonotone(widths, k + 1, |widths|);
    assert Offset(widths, k + 1) == at + 4;
    PackUnpack(widths, b);
    assert b[..Size(widths)] == b;
    EncodeZeroed(widths, Unpack(widths, b), k, |widths|);
    UnpackField(widths, b, k);
  }

  lemma UnpackField(widths: seq<nat>, b: seq<byte>, k: nat)
    requires Size(widths) <= |b| && k < |widths|
    ensures Offset(widths, k) <= Offset(widths, k + 1) <= |b|
    ensures Unpack(widths, b)[k] == DecodeLE(b[Offset(widths, k)..Offset(widths, k + 1)])
  {
    OffsetMonotone(widths, k + 1, |widths|);
  }

  // ---------- inodes ----------

  const INODE_CHECKSUM: nat := 120

  lemma InodeChecksumOffset()
    ensures Offset(InodeWidths(), 26) == INODE_CHECKSUM && InodeWidths()[26] == 4
  {
    hide Offset, Repeat;
    var front, back := [2, 1, 1, 4, 4] + [4, 8, 8, 8, 8] + [8, 8], Repeat(4, 16);
    SizeOfFive(2, 1, 1, 4, 4);
    SizeOfFive(4, 8, 8, 8, 8);
    SizeOfTwo(8, 8);
    SizeConcat([2, 1, 1, 4, 4], [4, 8, 8, 8, 8]);
    SizeConcat([2, 1, 1, 4, 4] + [4, 8, 8, 8, 8], [8, 8]);
    OffsetConcat(front, back, 14);
    RepeatOffset(4, 16, 14);
    RepeatAt(4, 16, 14);
  }

  lemma RepeatAt(w: nat, n: nat, k: nat)
    requires k < n
    ensures Repeat(w, n)[k] == w
  {
  }

  lemma InodeFieldsOf(f: seq<nat>)
    requires |f| == 28
    ensures |InodeOf(f).direct| == DIRECT_BLOCKS
    ensures InodeFields(InodeOf(f).(checksum := 0)) == f[26 := 0] && InodeOf(f).checksum == f[26]
  {
  }

  /** An inode's checksum is right exactly when its 128 bytes say so. */
  lemma InodeChecked(b: seq<byte>)
    requires |b| == INODE_SIZE
    ensures |DecodeInode(b).direct| == DIRECT_BLOCKS
    ensures DecodeInode(b).checksum == InodeChecksum(DecodeInode(b)) <==> ChecksumAt(b, INODE_CHECKSUM)
  {
    hide InodeWidths, InodeFields, InodeOf, Pack, Unpack, DecodeLE, Crc32c, Offset;
    InodeSize();
    InodeChecksumOffset();
    InodeFieldsOf(Unpack(InodeWidths(), b));
    PackZeroed(InodeWidths(), b, 26, INODE_CHECKSUM);
  }

  // ---------- superblocks ----------

  const SUPER_CHECKSUM: nat := 184

  lemma SuperChecksumOffset()
    ensures Offset(SuperWidths(), 28) == SUPER_CHECKSUM && SuperWidths()[28] == 4
  {
    SuperSize();
    hide Offset;
    LastTwo(SuperWidths());
  }

  lemma LastTwo(widths: seq<nat>)
    requires |widths| == 30
    ensures Size(widths) == Offset(widths, 28) + widths[28] + widths[29]
  {
    assert Offset(widths, 30) == Offset(widths, 29) + widths[29];
    assert Offset(widths, 29) == Offset(widths, 28) + widths[28];
  }

  lemma SuperZeroed(f: seq<nat>)
    requires |f| == 30
    ensures SuperFields(SuperOf(f).(checksum := 0)) == f[28 := 0] && SuperOf(f).checksum == f[28]
  {
  }

  /** A superblock copy's checksum is right exactly when its 256 bytes say so. */
  lemma SuperChecked(b: seq<byte>)
    requires |b| == SUPERBLOCK_SIZE
    ensures DecodeSuper(b).checksum == SuperChecksum(DecodeSuper(b)) <==> ChecksumAt(b, SUPER_CHECKSUM)
  {
    hide SuperWidths, SuperFields, SuperOf, Pack, Unpack, DecodeLE, Crc32c, Offset;
    SuperSize();
    SuperChecksumOffset();
    SuperZeroed(Unpack(SuperWidths(), b));
    PackZeroed(SuperWidths(), b, 28, SUPER_CHECKSUM);
  }

  // ---------- journal headers ----------

  const JOURNAL_CHECKSUM: nat := 44

  lemma JournalChecksumOffset()
    ensures Offset(JournalWidths(), 8) == JOURNAL_CHECKSUM && JournalWidths()[8] == 4
  {
    JournalSize();
    hide Offset;
    TenthField(JournalWidths());
  }

  lemma TenthField(widths: seq<nat>)
    requires |widths| == 10
    ensures Size(widths) == Offset(widths, 8) + widths[8] + widths[9]
  {
    assert Offset(widths, 10) == Offset(widths, 9) + widths[9];
    assert Offset(widths, 9) == Offset(widths, 8) + widths[8];
  }

  lemma JournalZeroed(b: seq<byte>)
    requires |b| == JOURNAL_HEADER_SIZE && Size(JournalWidths()) == JOURNAL_HEADER_SIZE
    ensures JournalFields(DecodeJournal(b).(checksum := 0)) == Unpack(JournalWidths(), b)[8 := 0]
    ensures DecodeJournal(b).checksum == Unpack(JournalWidths(), b)[8]
  {
    hide JournalWidths, Unpack;
  }

  /** What a record reads does not depend on what follows it. */
  lemma UnpackPrefix(widths: seq<nat>, b: seq<byte>, n: nat)
    requires Size(widths) == n <= |b|
    ensures Unpack(widths, b[..n]) == Unpack(widths, b)
  {
    forall k | 0 <= k < |widths|
      ensures Field(widths, b[..n], k) == Field(widths, b, k)
    {
      OffsetMonotone(widths, k, k + 1);
      OffsetMonotone(widths, k + 1, |widths|);
      assert b[..n][Offset(widths, k)..Offset(widths, k + 1)] == b[Offset(widths, k)..Offset(widths, k + 1)];
    }
  }

  /** A journal header's checksum is right exactly when the bytes of the whole block say so. */
  lemma JournalChecked(b: Block)
    ensures DecodeJournal(b).checksum == JournalChecksum(b) <==> ChecksumAt(b, JOURNAL_CHECKSUM)
  {
    hide JournalWidths, JournalFields, Pack, Unpack, DecodeLE, Crc32c, Offset;
    JournalSize();
    JournalChecksumOffset();
    var head, rest := b[..JOURNAL_HEADER_SIZE], b[JOURNAL_HEADER_SIZE..];
    UnpackPrefix(JournalWidths(), b, JOURNAL_HEADER_SIZE);
    assert DecodeJournal(head) == DecodeJournal(b);
    JournalZeroed(head);
    PackZeroed(JournalWidths(), head, 8, JOURNAL_CHECKSUM);
    assert b == head + rest;
    assert head[..44] + Zeros(4) + head[48..] + rest == b[..44] + Zeros(4) + b[48..];
    assert head[44..48] == b[44..48];
  }
}
