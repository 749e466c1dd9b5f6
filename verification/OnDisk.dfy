/** The NorthstarFS version 1 disk format: constants, the packed structures and the checksum
    (include/northstar/nsfs_ondisk.h). */
module OnDisk {
  import opened Bytes

  const BLOCK_SIZE: nat := 4096
  const SUPERBLOCK_SIZE: nat := 256
  const INODE_SIZE: nat := 128
  const SUPERBLOCK_COPIES: nat := 2
  const ROOT_INODE: nat := 1
  const DIRECT_BLOCKS: nat := 12
  const INDIRECT_BLOCKS: nat := 1024
  const MAX_FILE_BLOCKS: nat := 1036
  const MAX_FILE_SIZE: nat := 4243456
  const NAME_MAX: nat := 255
  const DIRENT_HEADER_SIZE: nat := 8
  const JOURNAL_HEADER_SIZE: nat := 64
  const JOURNAL_DESCRIPTOR_SIZE: nat := 16
  const JOURNAL_MAX_ENTRIES: nat := 128
  const MIN_JOURNAL_BLOCKS: nat := 9

  const UINT32_MAX: nat := 0xFFFF_FFFF
  const UINT64_MAX: nat := 0xFFFF_FFFF_FFFF_FFFF

  /** "NSTARFS\0" and "NSJNL1\0\0" read as little-endian 64-bit integers. */
  const MAGIC: nat := 0x0053_4652_4154_534e
  const JOURNAL_MAGIC: nat := 0x0000_314c_4e4a_534e

  const VERSION: nat := 1
  const STATE_CLEAN: nat := 1
  const STATE_DIRTY: nat := 2
  const INODE_REGULAR: nat := 1
  const INODE_DIRECTORY: nat := 2
  const INODE_SYMLINK: nat := 3
  const JOURNAL_EMPTY: nat := 0
  const JOURNAL_PREPARED: nat := 1
  const JOURNAL_COMMITTED: nat := 2

  type Block = b: seq<byte> | |b| == 4096 witness Zeros(4096)

  /** Castagnoli CRC-32C, initial and final complement. */
  function CrcBit(crc: bv32): bv32
  {
    if crc & 1 == 1 then (crc >> 1) ^ 0x82f63b78 else crc >> 1
  }

  function CrcBits(crc: bv32, n: nat): bv32
    decreases n
  {
    if n == 0 then crc else CrcBits(CrcBit(crc), n - 1)
  }

  function CrcBytes(crc: bv32, data: seq<byte>): bv32
    decreases |data|
  {
    if data == [] then crc else CrcBytes(CrcBits(crc ^ (data[0] as bv32), 8), data[1..])
  }

  function Crc32c(data: seq<byte>): (r: nat)
    ensures r <= UINT32_MAX
  {
    !CrcBytes(0xFFFF_FFFF, data) as nat
  }

  datatype Superblock = Superblock(
    magic: nat, version: nat, headerSize: nat, blockSize: nat, inodeSize: nat, state: nat,
    features: nat, generation: nat, totalBlocks: nat, totalInodes: nat, rootInode: nat,
    journalStart: nat, journalBlocks: nat, journalEntries: nat,
    inodeBitmapStart: nat, inodeBitmapBlocks: nat, blockBitmapStart: nat, blockBitmapBlocks: nat,
    inodeTableStart: nat, inodeTableBlocks: nat, dataStart: nat, freeBlocks: nat, freeInodes: nat,
    mountCount: nat, lastMountNs: nat, lastWriteNs: nat, uuid: nat, lastTxid: nat,
    checksum: nat, reserved: nat)

  function SuperWidths(): (w: seq<nat>)
    ensures |w| == 30
  {
    [8, 4, 4, 4, 4] + [4, 4, 8, 8, 4] + [4, 8, 4, 4, 8]
    + [8, 8, 8, 8, 8] + [8, 8, 4, 4, 8] + [8, 16, 8, 4, 68]
  }

  function SuperFields(s: Superblock): (f: seq<nat>)
    ensures |f| == 30
  {
    [s.magic, s.version, s.headerSize, s.blockSize, s.inodeSize]
    + [s.state, s.features, s.generation, s.totalBlocks, s.totalInodes]
    + [s.rootInode, s.journalStart, s.journalBlocks, s.journalEntries, s.inodeBitmapStart]
    + [s.inodeBitmapBlocks, s.blockBitmapStart, s.blockBitmapBlocks, s.inodeTableStart, s.inodeTableBlocks]
    + [s.dataStart, s.freeBlocks, s.freeInodes, s.mountCount, s.lastMountNs]
    + [s.lastWriteNs, s.uuid, s.lastTxid, s.checksum, s.reserved]
  }

  /** Every field of the superblock is within its width. */
  predicate SuperBounds(s: Superblock)
  {
    && s.magic <= UINT64_MAX && s.version <= UINT32_MAX && s.headerSize <= UINT32_MAX
    && s.blockSize <= UINT32_MAX && s.inodeSize <= UINT32_MAX && s.state <= UINT32_MAX
    && s.features <= UINT32_MAX && s.generation <= UINT64_MAX && s.totalBlocks <= UINT64_MAX
    && s.totalInodes <= UINT32_MAX && s.rootInode <= UINT32_MAX && s.journalStart <= UINT64_MAX
    && s.journalBlocks <= UINT32_MAX && s.journalEntries <= UINT32_MAX
    && s.inodeBitmapStart <= UINT64_MAX && s.inodeBitmapBlocks <= UINT64_MAX
    && s.blockBitmapStart <= UINT64_MAX && s.blockBitmapBlocks <= UINT64_MAX
    && s.inodeTableStart <= UINT64_MAX && s.inodeTableBlocks <= UINT64_MAX
    && s.dataStart <= UINT64_MAX && s.freeBlocks <= UINT64_MAX && s.freeInodes <= UINT32_MAX
    && s.mountCount <= UINT32_MAX && s.lastMountNs <= UINT64_MAX && s.lastWriteNs <= UINT64_MAX
    && s.uuid < Pow256(16) && s.lastTxid <= UINT64_MAX && s.checksum <= UINT32_MAX
    && s.reserved < Pow256(68)
  }

  lemma SuperBoundsFit(s: Superblock)
    requires SuperBounds(s)
    ensures Fits(SuperWidths(), SuperFields(s))
  {
    assert Pow256(4) == UINT32_MAX + 1;
    assert Pow256(8) == UINT64_MAX + 1;
    hide Pow256;
    var a := [s.magic, s.version, s.headerSize, s.blockSize, s.inodeSize];
    var b := [s.state, s.features, s.generation, s.totalBlocks, s.totalInodes];
    var c := [s.rootInode, s.journalStart, s.journalBlocks, s.journalEntries, s.inodeBitmapStart];
    var d := [s.inodeBitmapBlocks, s.blockBitmapStart, s.blockBitmapBlocks, s.inodeTableStart, s.inodeTableBlocks];
    var e := [s.dataStart, s.freeBlocks, s.freeInodes, s.mountCount, s.lastMountNs];
    var f := [s.lastWriteNs, s.uuid, s.lastTxid, s.checksum, s.reserved];
    var wa, wb, wc := [8, 4, 4, 4, 4], [4, 4, 8, 8, 4], [4, 8, 4, 4, 8];
    var wd, we, wf := [8, 8, 8, 8, 8], [8, 8, 4, 4, 8], [8, 16, 8, 4, 68];
    assert Fits(wa, a) && Fits(wb, b) && Fits(wc, c) && Fits(wd, d) && Fits(we, e) && Fits(wf, f);
    hide Fits;
    FitsConcat(wa, a, wb, b);
    FitsConcat(wa + wb, a + b, wc, c);
    FitsConcat(wa + wb + wc, a + b + c, wd, d);
    FitsConcat(wa + wb + wc + wd, a + b + c + d, we, e);
    FitsConcat(wa + wb + wc + wd + we, a + b + c + d + e, wf, f);
  }

  function SuperOf(f: seq<nat>): Superblock
    requires |f| == 30
  {
    Superblock(f[0], f[1], f[2], f[3], f[4], f[5], f[6], f[7], f[8], f[9], f[10], f[11], f[12],
               f[13], f[14], f[15], f[16], f[17], f[18], f[19], f[20], f[21], f[22], f[23], f[24],
               f[25], f[26], f[27], f[28], f[29])
  }

  lemma SuperSize()
    ensures Size(SuperWidths()) == SUPERBLOCK_SIZE
  {
    hide Size;
    var a, b, c := [8, 4, 4, 4, 4], [4, 4, 8, 8, 4], [4, 8, 4, 4, 8];
    var d, e, f := [8, 8, 8, 8, 8], [8, 8, 4, 4, 8], [8, 16, 8, 4, 68];
    SizeOfFive(8, 4, 4, 4, 4);
    SizeOfFive(4, 4, 8, 8, 4);
    SizeOfFive(4, 8, 4, 4, 8);
    SizeOfFive(8, 8, 8, 8, 8);
    SizeOfFive(8, 8, 4, 4, 8);
    SizeOfFive(8, 16, 8, 4, 68);
    SizeConcat(a, b);
    SizeConcat(a + b, c);
    SizeConcat(a + b + c, d);
    SizeConcat(a + b + c + d, e);
    SizeConcat(a + b + c + d + e, f);
  }

  function DecodeSuper(b: seq<byte>): Superblock
    requires SUPERBLOCK_SIZE <= |b|
  {
    SuperSize();
    SuperOf(Unpack(SuperWidths(), b))
  }

  function EncodeSuper(s: Superblock): (b: seq<byte>)
    ensures |b| == SUPERBLOCK_SIZE
  {
    SuperSize();
    Pack(SuperWidths(), SuperFields(s))
  }

  lemma SuperRoundTrip(s: Superblock, rest: seq<byte>)
    requires Fits(SuperWidths(), SuperFields(s))
    ensures DecodeSuper(EncodeSuper(s) + rest) == s
  {
    assert SuperOf(SuperFields(s)) == s;
    hide SuperWidths, Pack, Unpack;
    UnpackPack(SuperWidths(), SuperFields(s), rest);
  }

  lemma SuperFits(b: seq<byte>)
    requires SUPERBLOCK_SIZE <= |b|
    ensures Fits(SuperWidths(), SuperFields(DecodeSuper(b)))
  {
    hide SuperWidths, Unpack, Pack, Pow256;
    SuperSize();
    PackUnpack(SuperWidths(), b);
    SuperFieldsOf(Unpack(SuperWidths(), b));
  }

  lemma SuperFieldsOf(f: seq<nat>)
    requires |f| == 30
    ensures SuperFields(SuperOf(f)) == f
  {
  }

  /** The checksum covers the structure with its own checksum field zeroed. */
  function SuperChecksum(s: Superblock): nat
  {
    Crc32c(EncodeSuper(s.(checksum := 0)))
  }

  datatype JournalHeader = JournalHeader(
    magic: nat, version: nat, headerSize: nat, state: nat, entryCount: nat, txid: nat,
    generation: nat, descriptorSize: nat, checksum: nat, reserved: nat)

  function JournalWidths(): (w: seq<nat>)
    ensures |w| == 10
  {
    [8, 4, 4, 4, 4] + [8, 8, 4, 4, 16]
  }

  function JournalFields(h: JournalHeader): (f: seq<nat>)
    ensures |f| == 10
  {
    [h.magic, h.version, h.headerSize, h.state, h.entryCount, h.txid, h.generation,
     h.descriptorSize, h.checksum, h.reserved]
  }

  lemma JournalSize()
    ensures Size(JournalWidths()) == JOURNAL_HEADER_SIZE
  {
    hide Size;
    SizeOfFive(8, 4, 4, 4, 4);
    SizeOfFive(8, 8, 4, 4, 16);
    SizeConcat([8, 4, 4, 4, 4], [8, 8, 4, 4, 16]);
  }

  function DecodeJournal(b: seq<byte>): JournalHeader
    requires JOURNAL_HEADER_SIZE <= |b|
  {
    JournalSize();
    var f := Unpack(JournalWidths(), b);
    JournalHeader(f[0], f[1], f[2], f[3], f[4], f[5], f[6], f[7], f[8], f[9])
  }

  function EncodeJournal(h: JournalHeader): (b: seq<byte>)
    ensures |b| == JOURNAL_HEADER_SIZE
  {
    JournalSize();
    Pack(JournalWidths(), JournalFields(h))
  }

  lemma JournalRoundTrip(h: JournalHeader, rest: seq<byte>)
    requires Fits(JournalWidths(), JournalFields(h))
    ensures DecodeJournal(EncodeJournal(h) + rest) == h
  {
    UnpackPack(JournalWidths(), JournalFields(h), rest);
  }

  lemma JournalFits(b: seq<byte>)
    requires JOURNAL_HEADER_SIZE <= |b|
    ensures Fits(JournalWidths(), JournalFields(DecodeJournal(b)))
  {
    hide JournalWidths, Unpack, Pack, Pow256;
    JournalSize();
    PackUnpack(JournalWidths(), b);
    assert JournalFields(DecodeJournal(b)) == Unpack(JournalWidths(), b);
  }

  /** The journal checksum covers the whole header block, its own field zeroed. */
  function JournalChecksum(b: Block): nat
  {
    Crc32c(EncodeJournal(DecodeJournal(b).(checksum := 0)) + b[JOURNAL_HEADER_SIZE..])
  }

  /** A header block with the given header, its checksum filled in, and the bytes after it. */
  function SealJournal(h: JournalHeader, rest: seq<byte>): (b: Block)
    requires |rest| == BLOCK_SIZE - JOURNAL_HEADER_SIZE
  {
    EncodeJournal(h.(checksum := Crc32c(EncodeJournal(h.(checksum := 0)) + rest))) + rest
  }

  lemma SealedJournal(h: JournalHeader, rest: seq<byte>)
    requires Fits(JournalWidths(), JournalFields(h)) && |rest| == BLOCK_SIZE - JOURNAL_HEADER_SIZE
    ensures DecodeJournal(SealJournal(h, rest)).checksum == JournalChecksum(SealJournal(h, rest))
    ensures DecodeJournal(SealJournal(h, rest)).(checksum := h.checksum) == h
  {
    hide EncodeJournal, DecodeJournal, Crc32c;
    var sealed := h.(checksum := Crc32c(EncodeJournal(h.(checksum := 0)) + rest));
    assert Fits(JournalWidths(), JournalFields(sealed)) by {
      assert forall i :: 0 <= i < 10 && i != 8 ==> JournalFields(sealed)[i] == JournalFields(h)[i];
      assert Pow256(4) == 0x1_0000_0000;
    }
    JournalRoundTrip(sealed, rest);
    assert SealJournal(h, rest)[JOURNAL_HEADER_SIZE..] == rest;
  }

  datatype Descriptor = Descriptor(target: nat, dataChecksum: nat, flags: nat)

  function DescriptorWidths(): (w: seq<nat>)
    ensures |w| == 3
  {
    [8, 4, 4]
  }

  /** Descriptor i of a journal header block. */
  function DescriptorAt(b: Block, i: nat): Descriptor
    requires i < JOURNAL_MAX_ENTRIES
  {
    assert Offset(DescriptorWidths(), 3) == 16;
    var f := Unpack(DescriptorWidths(), b[JOURNAL_HEADER_SIZE + JOURNAL_DESCRIPTOR_SIZE * i..]);
    Descriptor(f[0], f[1], f[2])
  }

  /** A superblock with its checksum filled in. */
  function SealSuper(s: Superblock): Superblock
  {
    s.(checksum := SuperChecksum(s))
  }

  lemma SealedSuper(s: Superblock, rest: seq<byte>)
    requires SuperBounds(s)
    ensures DecodeSuper(EncodeSuper(SealSuper(s)) + rest) == SealSuper(s)
    ensures SuperChecksum(SealSuper(s)) == SealSuper(s).checksum
  {
    hide EncodeSuper, DecodeSuper, Crc32c, Pow256;
    SuperBoundsFit(SealSuper(s));
    SuperRoundTrip(SealSuper(s), rest);
  }
}
