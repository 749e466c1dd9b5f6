/** Which transactions a replay survives: superblock after-images that keep the geometry, stay
    DIRTY and do not go back in generation are safe; a transaction that wipes both superblock
    copies, or puts an older one in place of the newest, passes every check of the journal and is
    not. */
module JournalSafety {
  import opened Wrappers
  import opened Bytes
  import opened OnDisk
  import opened HostImage
  import opened Superblocks
  import opened Journal

  predicate SameGeometry(s: Superblock, t: Superblock)
  {
    && s.totalBlocks == t.totalBlocks && s.totalInodes == t.totalInodes
    && s.rootInode == t.rootInode && s.features == t.features
    && s.journalStart == t.journalStart && s.journalBlocks == t.journalBlocks
    && s.journalEntries == t.journalEntries
    && s.inodeBitmapStart == t.inodeBitmapStart && s.inodeBitmapBlocks == t.inodeBitmapBlocks
    && s.blockBitmapStart == t.blockBitmapStart && s.blockBitmapBlocks == t.blockBitmapBlocks
    && s.inodeTableStart == t.inodeTableStart && s.inodeTableBlocks == t.inodeTableBlocks
    && s.dataStart == t.dataStart
  }

  /** A superblock after-image that may replace the selected superblock sb. */
  predicate Orderly(sb: Superblock, s: Superblock)
  {
    && CopyValid(s) && s.state == STATE_DIRTY
    && s.generation >= sb.generation && SameGeometry(s, sb)
  }

  lemma NewerOrderly(old0: Superblock, old1: Superblock, sb: Superblock, s0: Superblock, s1: Superblock)
    requires Newer(old0, old1) == Some(sb)
    requires s0 == old0 || Orderly(sb, s0)
    requires s1 == old1 || Orderly(sb, s1)
    ensures Newer(s0, s1) == Some(sb) || (Newer(s0, s1).Some? && Orderly(sb, Newer(s0, s1).value))
  {
    hide CopyValid, SameGeometry;
  }

  lemma SuitsStill(image: seq<Block>, sb: Superblock, s: Superblock)
    requires ReplayableWith(image, sb) && (s == sb || Orderly(sb, s))
    ensures Suits(s, |image|, PlanWith(image, sb).writes)
  {
    hide CopyValid, CeilDiv, DecodeJournal, ReplayableWith, PlanWith, InJournal;
    DirtyLayout(image, sb);
    ReplayableAgain(image, sb, image, sb);
    assert forall b: nat :: InJournal(s, b) == InJournal(sb, b) by {
      SameExtent(sb, s);
    }
  }

  lemma SameExtent(sb: Superblock, s: Superblock)
    requires s.journalStart == sb.journalStart && s.journalBlocks == sb.journalBlocks
    ensures forall b: nat :: InJournal(s, b) == InJournal(sb, b)
  {
  }

  lemma DirtyLayout(image: seq<Block>, sb: Superblock)
    requires ReplayableWith(image, sb)
    ensures sb.journalStart == 2 < |image| && LayoutValid(sb, |image|) && JournalValid(image, sb)
    ensures SameJournal(image, image)
  {
  }

  /** Transactions whose superblock after-images are orderly survive every sequence of crashes: among
      the copies a crash leaves, the selected one is then the old selection or an after-image. */
  lemma OrderlySuperblocksAreSafe(image: seq<Block>, p: Plan, sb: Superblock)
    requires Planned(image, p) && Selected(image) == Some(sb)
    requires forall b :: 0 <= b < SUPERBLOCK_COPIES && After(image, p)[b] != image[b] ==>
                           Orderly(sb, DecodeSuper(After(image, p)[b]))
    ensures CrashSafe(image, p)
  {
    hide DecodeSuper, DecodeJournal, Newer, ReplayableWith, PlanWith, PlanOk, After, Orderly, EmptyJournal;
    PlanFacts(image);
    var old0, old1 := DecodeSuper(image[0]), DecodeSuper(image[1]);
    var new0, new1 := DecodeSuper(After(image, p)[0]), DecodeSuper(After(image, p)[1]);
    NewerOrderly(old0, old1, sb, new0, old1);
    NewerOrderly(old0, old1, sb, old0, new1);
    NewerOrderly(old0, old1, sb, new0, new1);
    SuitsStill(image, sb, sb);
    forall s | Orderly(sb, s)
      ensures Suits(s, |image|, p.writes)
    {
      SuitsStill(image, sb, s);
    }
    CrashSafeExactly(image, p);
  }

  // ---------- a transaction that a crash ruins ----------

  /** The superblock of a 16-block filesystem. */
  function SmallSuper(state: nat, generation: nat): Superblock
  {
    Superblock(MAGIC, VERSION, SUPERBLOCK_SIZE, BLOCK_SIZE, INODE_SIZE, state, 0, generation,
               16, 2, ROOT_INODE, 2, 9, 8, 11, 1, 12, 1, 13, 1, 14, 0, 0, 0, 0, 0, 0, 0, 0, 0)
  }

  /** A journal of two entries whose redo images, all zeros, go to blocks 0 and 1. */
  function WipeImage(copy: Block, header: Block): (image: seq<Block>)
    ensures |image| == 16 && image[0] == image[1] == copy && image[2] == header
    ensures forall i :: 3 <= i < 16 ==> image[i] == Zeros(BLOCK_SIZE)
  {
    [copy, copy, header] + seq(13, _ => Zeros(BLOCK_SIZE))
  }

  function WipeHeader(): JournalHeader
  {
    JournalHeader(JOURNAL_MAGIC, VERSION, JOURNAL_HEADER_SIZE, JOURNAL_COMMITTED, 2, 1, 1,
                  JOURNAL_DESCRIPTOR_SIZE, 0, 0)
  }

  lemma WipeHeaderFits()
    ensures Fits(JournalWidths(), JournalFields(WipeHeader()))
  {
    assert Pow256(4) == 0x1_0000_0000;
    assert Pow256(8) == 0x1_0000_0000_0000_0000;
    assert Pow256(16) > 0;
    hide Pow256;
  }

  function EncodeDescriptor(d: Descriptor): (b: seq<byte>)
    ensures |b| == JOURNAL_DESCRIPTOR_SIZE
  {
    assert Offset(DescriptorWidths(), 3) == 16;
    Pack(DescriptorWidths(), [d.target, d.dataChecksum, d.flags])
  }

  lemma DescriptorRoundTrip(b: Block, i: nat, d: Descriptor, tail: seq<byte>)
    requires i < JOURNAL_MAX_ENTRIES
    requires d.target <= UINT64_MAX && d.dataChecksum <= UINT32_MAX && d.flags <= UINT32_MAX
    requires b[JOURNAL_HEADER_SIZE + JOURNAL_DESCRIPTOR_SIZE * i..] == EncodeDescriptor(d) + tail
    ensures DescriptorAt(b, i) == d
  {
    var w, f := DescriptorWidths(), [d.target, d.dataChecksum, d.flags];
    assert Fits(w, f) by {
      assert Pow256(4) == UINT32_MAX + 1;
      assert Pow256(8) == UINT64_MAX + 1;
    }
    hide Pack, Unpack;
    UnpackPack(w, f, tail);
  }

  /** Two descriptors whose targets are blocks 0 and 1 and whose redo images are zeros. */
  function WipeDescriptors(crc: nat): (rest: seq<byte>)
    ensures |rest| == BLOCK_SIZE - JOURNAL_HEADER_SIZE
  {
    EncodeDescriptor(Descriptor(0, crc, 0)) + EncodeDescriptor(Descriptor(1, crc, 0)) + Zeros(4000)
  }

  lemma WipeDescriptorsAt(h: JournalHeader, crc: nat)
    requires crc <= UINT32_MAX
    ensures DescriptorAt(SealJournal(h, WipeDescriptors(crc)), 0) == Descriptor(0, crc, 0)
    ensures DescriptorAt(SealJournal(h, WipeDescriptors(crc)), 1) == Descriptor(1, crc, 0)
  {
    hide EncodeDescriptor, EncodeJournal, Crc32c, DescriptorAt;
    var d0, d1 := Descriptor(0, crc, 0), Descriptor(1, crc, 0);
    var b := SealJournal(h, WipeDescriptors(crc));
    assert b[64..] == EncodeDescriptor(d0) + (EncodeDescriptor(d1) + Zeros(4000));
    assert b[80..] == EncodeDescriptor(d1) + Zeros(4000);
    DescriptorRoundTrip(b, 0, d0, EncodeDescriptor(d1) + Zeros(4000));
    DescriptorRoundTrip(b, 1, d1, Zeros(4000));
  }

  function SuperBlock(s: Superblock): Block
  {
    EncodeSuper(s) + Zeros(BLOCK_SIZE - SUPERBLOCK_SIZE)
  }

  lemma SmallSuperValid(state: nat, generation: nat)
    requires (state == STATE_CLEAN || state == STATE_DIRTY) && generation <= UINT32_MAX
    ensures var s := SealSuper(SmallSuper(state, generation));
      && DecodeSuper(SuperBlock(s)) == s && CopyValid(s) && LayoutValid(s, 16)
      && s.state == state && s.generation == generation && s.(checksum := 0) == SmallSuper(state, generation)
  {
    hide EncodeSuper, DecodeSuper, Crc32c, SuperChecksum, Pow256;
    SealedSuper(SmallSuper(state, generation), Zeros(BLOCK_SIZE - SUPERBLOCK_SIZE));
  }

  lemma ZeroCopyInvalid()
    ensures !CopyValid(DecodeSuper(Zeros(BLOCK_SIZE)))
  {
    hide Crc32c, Pow256;
    SuperSize();
    var z := Zeros(BLOCK_SIZE);
    OffsetMonotone(SuperWidths(), 1, 30);
    assert Offset(SuperWidths(), 1) == 8;
    ZeroLE(z[0..8]);
    assert DecodeSuper(z).magic == DecodeLE(z[0..8]);
  }

  lemma {:induction false} ZeroLE(b: seq<byte>)
    requires AllZero(b)
    ensures DecodeLE(b) == 0
  {
    if b != [] {
      ZeroLE(b[1..]);
    }
  }

  lemma WipeReplayable(image: seq<Block>, sb: Superblock)
    requires |image| == 16 && image[3] == Zeros(BLOCK_SIZE) && image[4] == Zeros(BLOCK_SIZE)
    requires DecodeJournal(image[2]).(checksum := 0) == WipeHeader()
    requires DecodeJournal(image[2]).checksum == JournalChecksum(image[2])
    requires DescriptorAt(image[2], 0) == Descriptor(0, Crc32c(Zeros(BLOCK_SIZE)), 0)
    requires DescriptorAt(image[2], 1) == Descriptor(1, Crc32c(Zeros(BLOCK_SIZE)), 0)
    requires sb == SealSuper(SmallSuper(STATE_DIRTY, 1)) && LayoutValid(sb, 16)
    ensures ReplayableWith(image, sb) && sb.journalStart < |image| && JournalValid(image, sb)
    ensures PlanWith(image, sb).writes == [Write(0, Zeros(BLOCK_SIZE)), Write(1, Zeros(BLOCK_SIZE))]
  {
    hide DecodeJournal, JournalChecksum, DescriptorAt, Crc32c, LayoutValid, EmptyHeader;
    assert EntryOk(image, sb, 0) && EntryOk(image, sb, 1);
  }

  /** Every check of the journal passes, yet a crash between the two superblock writes and the
      header leaves an image that no later run recovers. */
  lemma UnsafeTransaction() returns (image: seq<Block>, p: Plan)
    ensures Planned(image, p) && !CrashSafe(image, p)
  {
    hide SealJournal, SealSuper, SmallSuper, SuperBlock, DecodeSuper, DecodeJournal, JournalChecksum;
    hide DescriptorAt, Crc32c, CopyValid, LayoutValid, Fits, ReplayableWith, PlanWith, PlanOk;
    hide EmptyJournal, CrashSafe, WipeImage, WipeDescriptors, JournalValid;
    var sb := SealSuper(SmallSuper(STATE_DIRTY, 1));
    var copy := SuperBlock(sb);
    SmallSuperValid(STATE_DIRTY, 1);
    var rest := WipeDescriptors(Crc32c(Zeros(BLOCK_SIZE)));
    WipeHeaderFits();
    SealedJournal(WipeHeader(), rest);
    WipeDescriptorsAt(WipeHeader(), Crc32c(Zeros(BLOCK_SIZE)));
    image := WipeImage(copy, SealJournal(WipeHeader(), rest));
    WipeReplayable(image, sb);
    assert PlanOf(image) == Some(PlanWith(image, sb));
    p := PlanWith(image, sb);
    PlanFacts(image);
    WipedSuperblocks(image, p);
    CrashSafeExactly(image, p);
  }

  lemma WipedSuperblocks(image: seq<Block>, p: Plan)
    requires |image| == 16
    requires p.writes == [Write(0, Zeros(BLOCK_SIZE)), Write(1, Zeros(BLOCK_SIZE))]
    ensures !CopiesSuit(image, p)
  {
    hide DecodeSuper, CopyValid, Suits;
    var z := Zeros(BLOCK_SIZE);
    MemberAfter(p.writes, 0, z, image[0]);
    MemberAfter(p.writes, 1, z, image[1]);
    ZeroCopyInvalid();
    assert After(image, p)[0] == z && After(image, p)[1] == z;
  }

  // ---------- an after-image that goes back in generation ----------

  /** The superblock copies differ in state and generation, and a journal of one entry has an
      after-image for block 0. */
  function StaleImage(copy0: Block, copy1: Block, header: Block, redo: Block): (image: seq<Block>)
    ensures |image| == 16 && image[0] == copy0 && image[1] == copy1 && image[2] == header && image[3] == redo
  {
    [copy0, copy1, header, redo] + seq(12, _ => Zeros(BLOCK_SIZE))
  }

  function OneEntry(): JournalHeader
  {
    WipeHeader().(entryCount := 1)
  }

  lemma OneEntryFits()
    ensures Fits(JournalWidths(), JournalFields(OneEntry()))
  {
    assert Pow256(4) == 0x1_0000_0000;
    assert Pow256(8) == 0x1_0000_0000_0000_0000;
    assert Pow256(16) > 0;
    hide Pow256;
  }

  function OneDescriptor(crc: nat): (rest: seq<byte>)
    ensures |rest| == BLOCK_SIZE - JOURNAL_HEADER_SIZE
  {
    EncodeDescriptor(Descriptor(0, crc, 0)) + Zeros(4016)
  }

  lemma OneDescriptorAt(crc: nat)
    requires crc <= UINT32_MAX
    ensures DescriptorAt(SealJournal(OneEntry(), OneDescriptor(crc)), 0) == Descriptor(0, crc, 0)
  {
    hide EncodeDescriptor, EncodeJournal, Crc32c, DescriptorAt;
    var b := SealJournal(OneEntry(), OneDescriptor(crc));
    assert b[64..] == EncodeDescriptor(Descriptor(0, crc, 0)) + Zeros(4016);
    DescriptorRoundTrip(b, 0, Descriptor(0, crc, 0), Zeros(4016));
  }

  lemma StaleReplayable(image: seq<Block>, sb: Superblock)
    requires |image| == 16
    requires DecodeJournal(image[2]).(checksum := 0) == OneEntry()
    requires DecodeJournal(image[2]).checksum == JournalChecksum(image[2])
    requires DescriptorAt(image[2], 0) == Descriptor(0, Crc32c(image[3]), 0)
    requires sb.(checksum := 0) == SmallSuper(STATE_DIRTY, 5) && LayoutValid(sb, 16)
    ensures ReplayableWith(image, sb) && sb.journalStart < |image| && JournalValid(image, sb)
    ensures PlanWith(image, sb).writes == [Write(0, image[3])]
  {
    hide DecodeJournal, JournalChecksum, DescriptorAt, Crc32c, LayoutValid, EmptyHeader;
    assert EntryOk(image, sb, 0);
  }

  /** Not going back in generation is needed: here the only superblock after-image is valid, DIRTY
      and of the same geometry, but older than the other copy, which is CLEAN.  A crash before the
      header is emptied leaves that copy selected, and the next run refuses the journal. */
  lemma StaleTransaction() returns (image: seq<Block>, p: Plan, sb: Superblock)
    ensures Planned(image, p) && Selected(image) == Some(sb) && !CrashSafe(image, p)
    ensures var s := DecodeSuper(After(image, p)[0]);
      && CopyValid(s) && s.state == STATE_DIRTY && SameGeometry(s, sb) && s.generation < sb.generation
      && After(image, p)[1] == image[1]
  {
    hide SealJournal, SealSuper, SuperBlock, DecodeSuper, DecodeJournal, JournalChecksum, DescriptorAt, Crc32c,
      CopyValid,
      LayoutValid, Fits, ReplayableWith, PlanWith, PlanOk, EmptyJournal, CrashSafe, StaleImage, OneDescriptor, OneEntry,
      JournalValid, SmallSuper;
    sb := SealSuper(SmallSuper(STATE_DIRTY, 5));
    var other, stale := SealSuper(SmallSuper(STATE_CLEAN, 4)), SealSuper(SmallSuper(STATE_DIRTY, 3));
    SmallSuperValid(STATE_DIRTY, 5);
    SmallSuperValid(STATE_CLEAN, 4);
    SmallSuperValid(STATE_DIRTY, 3);
    var redo := SuperBlock(stale);
    var rest := OneDescriptor(Crc32c(redo));
    OneEntryFits();
    OneEntryCheck();
    SealedJournal(OneEntry(), rest);
    OneDescriptorAt(Crc32c(redo));
    image := StaleImage(SuperBlock(sb), SuperBlock(other), SealJournal(OneEntry(), rest), redo);
    StaleReplayable(image, sb);
    assert Selected(image) == Some(sb);
    p := PlanWith(image, sb);
    assert PlanOf(image) == Some(p);
    PlanFacts(image);
    StaleAfter(image, p, redo);
    StaleNotSuited(image, p, other, stale);
    CrashSafeExactly(image, p);
    SmallGeometry(stale, sb);
  }

  lemma OneEntryCheck()
    ensures OneEntry().checksum == 0
  {
  }

  lemma StaleAfter(image: seq<Block>, p: Plan, redo: Block)
    requires |image| == 16 && p.writes == [Write(0, redo)]
    ensures After(image, p)[0] == redo && After(image, p)[1] == image[1]
  {
    MemberAfter(p.writes, 0, redo, image[0]);
    MemberAfter(p.writes, 1, image[1], image[1]);
  }

  lemma StaleNotSuited(image: seq<Block>, p: Plan, other: Superblock, stale: Superblock)
    requires |image| > SUPERBLOCK_COPIES && DecodeSuper(After(image, p)[0]) == stale && DecodeSuper(image[1]) == other
    requires CopyValid(other) && CopyValid(stale) && other.state == STATE_CLEAN && stale.generation < other.generation
    ensures !CopiesSuit(image, p)
  {
    hide DecodeSuper, CopyValid, After;
  }

  lemma SmallGeometry(s: Superblock, t: Superblock)
    requires s.(checksum := 0) == SmallSuper(STATE_DIRTY, 3) && t.(checksum := 0) == SmallSuper(STATE_DIRTY, 5)
    ensures SameGeometry(s, t)
  {
  }
}
