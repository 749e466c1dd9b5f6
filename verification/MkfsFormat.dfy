/** A whole run of mkfs.northstar (tools/mkfs_northstar.c, calculate_layout, write_metadata and
    main). */
module MkfsFormat {
  import opened Bytes
  import opened OnDisk
  import opened Inodes
  import opened Superblocks
  import opened SourceTree
  import opened DirBlocks
  import opened TreeImage
  import opened MkfsNodes
  import opened Mkfs
  import opened MkfsWrite
  import opened FsckSuper
  import Bitmap

  // ---------- layout ----------

  function InodeTotal(total: nat, o: Options): nat
  {
    if o.inodesGiven then o.inodeCount
    else if total / 4 < MIN_INODES then MIN_INODES
    else if total / 4 > DEFAULT_MAX_INODES then DEFAULT_MAX_INODES
    else total / 4
  }

  /** The superblock calculate_layout fills in: the areas follow one another. */
  function InitialSuper(total: nat, o: Options): Superblock
    requires OptionsOk(o)
  {
    var inodes := InodeTotal(total, o);
    var a := SUPERBLOCK_COPIES + o.journalBlocks;
    var n := CeilDiv(inodes, BLOCK_SIZE * 8);
    var b := a + n;
    var m := CeilDiv(total, BLOCK_SIZE * 8);
    var c := b + m;
    var k := CeilDiv(inodes * INODE_SIZE, BLOCK_SIZE);
    Superblock(MAGIC, VERSION, SUPERBLOCK_SIZE, BLOCK_SIZE, INODE_SIZE, STATE_CLEAN, 0, 1, total, inodes, ROOT_INODE,
               SUPERBLOCK_COPIES, o.journalBlocks, o.journalBlocks - 1, a, n, b, m, c, k, c + k, 0, 0, 0, 0, 0, 0, 0,
                 0, 0)
  }

  predicate LayoutFits(total: nat, o: Options)
    requires OptionsOk(o)
  {
    16 <= total <= UINT32_MAX && InitialSuper(total, o).dataStart < total
  }

  lemma InitialLayout(total: nat, o: Options)
    requires OptionsOk(o) && LayoutFits(total, o)
    ensures LayoutValid(InitialSuper(total, o), total) && InitialSuper(total, o).totalInodes <= UINT32_MAX
  {
  }

  /** set_tail_bits, and the marking of the metadata blocks. */
  method SetBits(bitmap: array<byte>, from: nat, to: nat)
    requires from <= to <= 8 * bitmap.Length
    modifies bitmap
    ensures forall j :: 0 <= j < 8 * bitmap.Length ==>
              (Bitmap.Test(bitmap[..], j) <==> from <= j < to || old(Bitmap.Test(bitmap[..], j)))
  {
    hide Bitmap.Test;
    var bit := from;
    while bit < to
      invariant from <= bit <= to
      invariant forall j :: 0 <= j < 8 * bitmap.Length ==>
                  (Bitmap.Test(bitmap[..], j) <==> from <= j < bit || old(Bitmap.Test(bitmap[..], j)))
    {
      Bitmap.Set(bitmap, bit);
      bit := bit + 1;
    }
  }

  method ClearBitmap(length: nat) returns (bitmap: array<byte>)
    ensures fresh(bitmap) && bitmap.Length == length
    ensures forall j :: 0 <= j < 8 * length ==> !Bitmap.Test(bitmap[..], j)
  {
    bitmap := new byte[length](_ => 0);
    forall j | 0 <= j < 8 * length
      ensures !Bitmap.Test(bitmap[..], j)
    {
      ZeroBit(j % 8);
    }
  }

  /** A bitmap whose first bits and whose tail are marked. */
  method MarkedBitmap(length: nat, used: nat, valid: nat) returns (bitmap: array<byte>)
    requires used <= valid <= 8 * length
    ensures fresh(bitmap) && bitmap.Length == length
    ensures forall j :: 0 <= j < 8 * length ==> (Bitmap.Test(bitmap[..], j) <==> j < used || j >= valid)
  {
    hide Bitmap.Test;
    bitmap := ClearBitmap(length);
    SetBits(bitmap, valid, 8 * length);
    SetBits(bitmap, 0, used);
  }

  lemma InitialTotals(total: nat, o: Options)
    requires OptionsOk(o) && LayoutFits(total, o)
    ensures var s := InitialSuper(total, o); s.totalBlocks == total && 2 <= s.totalInodes
  {
  }

  lemma ZeroBit(k: nat)
    ensures !Bitmap.ByteBit(0, k)
  {
    assert 0 / Bitmap.Pow2(k) == 0;
  }

  /** calculate_layout: fails exactly when the metadata leaves no room or the region is too small
      or too large. */
  method CalculateLayout(ctx: Context, o: Options) returns (ok: bool)
    requires OptionsOk(o)
    modifies ctx
    ensures ok <==> LayoutFits(|old(ctx.image)|, o)
    ensures ctx.image == old(ctx.image)
    ensures ok ==>
      && ctx.sb == InitialSuper(|ctx.image|, o) && fresh(ctx.inodeBitmap) && fresh(ctx.blockBitmap)
      && ctx.inodeBitmap != ctx.blockBitmap
      && ctx.inodeBitmap.Length == ctx.sb.inodeBitmapBlocks * BLOCK_SIZE
      && ctx.blockBitmap.Length == ctx.sb.blockBitmapBlocks * BLOCK_SIZE
      && ctx.InodeBits() && ctx.nextInode == ROOT_INODE
      && ctx.BlockBits() && ctx.nextBlock == ctx.sb.dataStart
  {
    hide Bitmap.Test, LayoutValid, InitialSuper;
    var total := |ctx.image|;
    if total > UINT32_MAX || total < 16 {
      return false;
    }
    ctx.sb := InitialSuper(total, o);
    var cursor := ctx.sb.dataStart;
    if cursor >= total {
      return false;
    }
    InitialLayout(total, o);
    LayoutSpans(ctx.sb, total);
    InitialTotals(total, o);
    var inodeBitmap := MarkedBitmap(ctx.sb.inodeBitmapBlocks * BLOCK_SIZE, 1, ctx.sb.totalInodes);
    var blockBitmap := MarkedBitmap(ctx.sb.blockBitmapBlocks * BLOCK_SIZE, cursor, total);
    ctx.inodeBitmap, ctx.blockBitmap := inodeBitmap, blockBitmap;
    ctx.allocatedInodes, ctx.allocatedBlocks, ctx.nextBlock, ctx.nextInode := 1, cursor, cursor, ROOT_INODE;
    return true;
  }

  // ---------- metadata ----------

  /** Writes whole blocks of a buffer. */
  method WriteSpan(ctx: Context, start: nat, bytes: seq<byte>, ghost count: nat)
    requires |bytes| == count * BLOCK_SIZE && start + count <= |ctx.image|
    modifies ctx`image
    ensures |ctx.image| == |old(ctx.image)| && Span(ctx.image, start, count) == bytes
    ensures SameOutside(old(ctx.image), ctx.image, start, start + count)
  {
    var k := 0;
    while k * BLOCK_SIZE < |bytes|
      invariant 0 <= k <= count && |ctx.image| == |old(ctx.image)|
      invariant SameOutside(old(ctx.image), ctx.image, start, start + k)
      invariant forall j :: 0 <= j < k ==> ctx.image[start + j] == bytes[j * BLOCK_SIZE..(j + 1) * BLOCK_SIZE]
    {
      ctx.image := ctx.image[start + k := bytes[k * BLOCK_SIZE..(k + 1) * BLOCK_SIZE]];
      k := k + 1;
    }
    SpanIs(ctx.image, start, count, bytes);
  }

  lemma SpanIs(image: seq<Block>, start: nat, count: nat, bytes: seq<byte>)
    requires |bytes| == count * BLOCK_SIZE && start + count <= |image|
    requires forall j :: 0 <= j < count ==> image[start + j] == bytes[j * BLOCK_SIZE..(j + 1) * BLOCK_SIZE]
    ensures Span(image, start, count) == bytes
  {
    forall i | 0 <= i < |bytes|
      ensures Span(image, start, count)[i] == bytes[i]
    {
      var j := i / BLOCK_SIZE;
      assert image[start + j] == bytes[j * BLOCK_SIZE..(j + 1) * BLOCK_SIZE];
    }
  }

  function FreshHeader(): JournalHeader
  {
    JournalHeader(JOURNAL_MAGIC, VERSION, JOURNAL_HEADER_SIZE, JOURNAL_EMPTY, 0, 0, 0, JOURNAL_DESCRIPTOR_SIZE, 0, 0)
  }

  /** The journal header block of a new filesystem. */
  function FreshJournal(): Block
  {
    SealJournal(FreshHeader(), Zeros(BLOCK_SIZE - JOURNAL_HEADER_SIZE))
  }

  /** The superblock write_metadata completes and writes twice. */
  function FinalSuper(s: Superblock, allocatedBlocks: nat, allocatedInodes: nat, ns: nat, uuid: nat): Superblock
    requires allocatedBlocks <= s.totalBlocks && allocatedInodes <= s.totalInodes
  {
    SealSuper(s.(freeBlocks := s.totalBlocks - allocatedBlocks, freeInodes := s.totalInodes - allocatedInodes,
                 lastWriteNs := ns, uuid := uuid))
  }

  /** A bitmap on the image marks the first `used` bits and the tail. */
  ghost predicate BitsOnImage(image: seq<Block>, start: nat, count: nat, used: nat, valid: nat)
    requires start + count <= |image|
  {
    forall j :: 0 <= j < 8 * (count * BLOCK_SIZE) ==>
      (Bitmap.Test(Span(image, start, count), j) <==> j < used || j >= valid)
  }

  /** The bitmaps, the journal and the superblocks. */
  ghost predicate MetadataWritten(image: seq<Block>, s: Superblock, usedInodes: nat, usedBlocks: nat)
  {
    && LayoutValid(s, |image|)
    && s.inodeBitmapStart + s.inodeBitmapBlocks <= |image| && s.blockBitmapStart + s.blockBitmapBlocks <= |image|
    && BitsOnImage(image, s.inodeBitmapStart, s.inodeBitmapBlocks, usedInodes, s.totalInodes)
    && BitsOnImage(image, s.blockBitmapStart, s.blockBitmapBlocks, usedBlocks, s.totalBlocks)
    && s.journalStart < |image| && image[s.journalStart] == FreshJournal()
    && 2 <= |image| && DecodeSuper(image[0]) == s && DecodeSuper(image[1]) == s
  }

  lemma SameSpan(image: seq<Block>, image': seq<Block>, start: nat, count: nat)
    requires |image| == |image'| && start + count <= |image|
    requires forall b :: start <= b < start + count ==> image[b] == image'[b]
    ensures Span(image, start, count) == Span(image', start, count)
  {
    forall i | 0 <= i < count * BLOCK_SIZE
      ensures Span(image, start, count)[i] == Span(image', start, count)[i]
    {
      assert start <= start + i / BLOCK_SIZE < start + count;
    }
  }

  lemma SuperWritten(s: Superblock, b: Block)
    requires SuperBounds(s)
    ensures DecodeSuper(Splice(b, 0, EncodeSuper(SealSuper(s)))) == SealSuper(s)
  {
    hide EncodeSuper, DecodeSuper, SealSuper;
    SealedSuper(s, b[SUPERBLOCK_SIZE..]);
    assert Splice(b, 0, EncodeSuper(SealSuper(s))) == EncodeSuper(SealSuper(s)) + b[SUPERBLOCK_SIZE..];
  }

  /** The areas lie where the layout puts them, one after the other. */
  lemma AreaOrder(s: Superblock, n: nat)
    requires LayoutValid(s, n)
    ensures 2 == s.journalStart < s.inodeBitmapStart
    ensures s.inodeBitmapStart + s.inodeBitmapBlocks == s.blockBitmapStart
    ensures s.blockBitmapStart + s.blockBitmapBlocks == s.inodeTableStart < s.dataStart < s.totalBlocks <= n
  {
  }

  lemma FinalLayout(s: Superblock, n: nat, blocks: nat, inodes: nat, ns: nat, uuid: nat)
    requires LayoutValid(s, n) && blocks <= s.totalBlocks && inodes <= s.totalInodes
    ensures LayoutValid(FinalSuper(s, blocks, inodes, ns, uuid), n)
  {
    hide SuperChecksum;
  }

  /** What stays of the superblock calculate_layout made. */
  predicate PlainSuper(s: Superblock)
  {
    && s.magic == MAGIC && s.version == VERSION && s.headerSize == SUPERBLOCK_SIZE && s.blockSize == BLOCK_SIZE
    && s.inodeSize == INODE_SIZE && s.generation == 1 && s.mountCount == 0 && s.lastMountNs == 0 && s.lastTxid == 0
    && s.reserved == 0 && s.checksum == 0 && s.totalInodes <= UINT32_MAX && s.state == STATE_CLEAN
  }

  lemma FinalBounds(s: Superblock, n: nat, blocks: nat, inodes: nat, ns: nat, uuid: nat)
    requires LayoutValid(s, n) && PlainSuper(s) && blocks <= s.totalBlocks && inodes <= s.totalInodes
    requires ns <= UINT64_MAX && uuid < Pow256(16)
    ensures SuperBounds(s.(freeBlocks := s.totalBlocks - blocks, freeInodes := s.totalInodes - inodes,
                           lastWriteNs := ns, uuid := uuid))
  {
    hide Pow256, CeilDiv;
    AreaOrder(s, n);
    PowerPositive(68);
  }

  lemma PowerPositive(n: nat)
    ensures Pow256(n) > 0
  {
  }

  /** write_metadata. */
  method WriteMetadata(ctx: Context, ns: nat, uuid: nat)
    requires LayoutValid(ctx.sb, |ctx.image|) && PlainSuper(ctx.sb) && ctx.InodeBits() && ctx.BlockBits()
    requires ctx.inodeBitmap.Length == ctx.sb.inodeBitmapBlocks * BLOCK_SIZE
    requires ctx.blockBitmap.Length == ctx.sb.blockBitmapBlocks * BLOCK_SIZE
    requires ns <= UINT64_MAX && uuid < Pow256(16)
    modifies ctx`image, ctx`sb
    ensures |ctx.image| == |old(ctx.image)|
    ensures old(ctx.nextBlock) <= old(ctx.sb.totalBlocks) && old(ctx.nextInode) <= old(ctx.sb.totalInodes)
    ensures ctx.sb == FinalSuper(old(ctx.sb), old(ctx.nextBlock), old(ctx.nextInode), ns, uuid)
    ensures MetadataWritten(ctx.image, ctx.sb, ctx.nextInode, ctx.nextBlock)
    ensures forall b :: ctx.sb.inodeTableStart <= b < |ctx.image| ==> ctx.image[b] == old(ctx.image)[b]
  {
    hide LayoutValid, SealSuper, EncodeSuper, DecodeSuper, FreshJournal, Splice, Span, Bitmap.Test, SuperBounds, Pow256;
    var s := ctx.sb;
    AreaOrder(s, |ctx.image|);
    WriteSpan(ctx, s.inodeBitmapStart, ctx.inodeBitmap[..], s.inodeBitmapBlocks);
    ghost var one := ctx.image;
    WriteSpan(ctx, s.blockBitmapStart, ctx.blockBitmap[..], s.blockBitmapBlocks);
    SameSpan(one, ctx.image, s.inodeBitmapStart, s.inodeBitmapBlocks);
    ghost var two := ctx.image;
    FinalLayout(s, |ctx.image|, ctx.allocatedBlocks, ctx.allocatedInodes, ns, uuid);
    FinalBounds(s, |ctx.image|, ctx.allocatedBlocks, ctx.allocatedInodes, ns, uuid);
    var done := s.(freeBlocks := s.totalBlocks - ctx.allocatedBlocks, freeInodes := s.totalInodes - ctx.allocatedInodes,
                   lastWriteNs := ns, uuid := uuid);
    ctx.sb := SealSuper(done);
    SuperWritten(done, ctx.image[0]);
    SuperWritten(done, ctx.image[1]);
    ctx.image := ctx.image[s.journalStart := FreshJournal()];
    ctx.image := ctx.image[0 := Splice(ctx.image[0], 0, EncodeSuper(ctx.sb))];
    ctx.image := ctx.image[1 := Splice(ctx.image[1], 0, EncodeSuper(ctx.sb))];
    SealedLayout(done);
    SameSpan(two, ctx.image, s.inodeBitmapStart, s.inodeBitmapBlocks);
    SameSpan(two, ctx.image, s.blockBitmapStart, s.blockBitmapBlocks);
  }

  lemma SealedLayout(s: Superblock)
    ensures SealSuper(s) == s.(checksum := SealSuper(s).checksum)
  {
  }

  // ---------- the run ----------

  const NS_PER_SECOND: nat := 1_000_000_000

  /** The inputs mkfs can format: everything fits. */
  predicate Acceptable(n: nat, o: Options, t: Node)
    requires OptionsOk(o)
  {
    && LayoutFits(n, o)
    && ROOT_INODE + NodeCount(t) <= InitialSuper(n, o).totalInodes
    && Representable(t) && InitialSuper(n, o).dataStart + Blocks(t) <= n
    && o.epochSeconds <= UINT64_MAX / NS_PER_SECOND
  }

  /** A freshly formatted image of the tree. */
  ghost predicate Formatted(image: seq<Block>, s: Superblock, t: Node, ns: nat)
  {
    && SourceTree.Scanned(t) && t.kind.Directory? && Representable(t)
    && |image| == s.totalBlocks <= UINT32_MAX && s.totalInodes <= UINT32_MAX && s.state == STATE_CLEAN
    && CopyValid(s) && s.generation == 1
    && ROOT_INODE + NodeCount(t) <= s.totalInodes && s.dataStart + Blocks(t) <= s.totalBlocks
    && s.freeInodes == s.totalInodes - (ROOT_INODE + NodeCount(t))
    && s.freeBlocks == s.totalBlocks - (s.dataStart + Blocks(t))
    && MetadataWritten(image, s, ROOT_INODE + NodeCount(t), s.dataStart + Blocks(t))
    && Inside(image, s.inodeTableStart, t, ROOT_INODE, s.dataStart)
    && Encoded(image, s.inodeTableStart, t, ROOT_INODE, s.dataStart, ROOT_INODE, ns)
  }

  lemma FormatRoom(image: seq<Block>, s: Superblock, t: Node)
    requires LayoutValid(s, |image|) && |image| == s.totalBlocks && s.totalInodes <= UINT32_MAX
    requires ROOT_INODE + NodeCount(t) <= s.totalInodes && s.dataStart + Blocks(t) <= s.totalBlocks
    ensures Room(image, s.inodeTableStart, s.dataStart, t, ROOT_INODE, s.dataStart)
  {
    hide NodeCount, Blocks;
    AreaOrder(s, |image|);
    LayoutSpans(s, |image|);
    var last := ROOT_INODE + NodeCount(t) - 1;
    assert TableBlock(s, last) < s.dataStart;
  }

  lemma InitialPlain(n: nat, o: Options)
    requires OptionsOk(o) && LayoutFits(n, o)
    ensures PlainSuper(InitialSuper(n, o)) && InitialSuper(n, o).totalBlocks == n
  {
  }

  /** The metadata is not in the way of the tree. */
  lemma KeepsTree(image: seq<Block>, image': seq<Block>, s: Superblock, t: Node, ns: nat)
    requires LayoutValid(s, |image|) && SourceTree.Scanned(t)
    requires Inside(image, s.inodeTableStart, t, ROOT_INODE, s.dataStart)
    requires Encoded(image, s.inodeTableStart, t, ROOT_INODE, s.dataStart, ROOT_INODE, ns)
    requires |image| == |image'| && forall b :: s.inodeTableStart <= b < |image| ==> image'[b] == image[b]
    ensures Inside(image', s.inodeTableStart, t, ROOT_INODE, s.dataStart)
    ensures Encoded(image', s.inodeTableStart, t, ROOT_INODE, s.dataStart, ROOT_INODE, ns)
  {
    hide Encoded, NodeCount, Blocks, DecodeInode;
    AreaOrder(s, |image|);
    forall n | ROOT_INODE <= n < ROOT_INODE + NodeCount(t)
      ensures SameInode(image, image', s.inodeTableStart, n)
    {
      assert InodeInside(image, s.inodeTableStart, n);
    }
    EncodedFrame(image, image', s.inodeTableStart, t, ROOT_INODE, s.dataStart, ROOT_INODE, ns);
  }

  /** The stages of main up to the point where nothing has been written yet. */
  method Prepare(ctx: Context, o: Options, t: Node) returns (ok: bool, p: Mapped)
    requires OptionsOk(o) && SourceTree.Scanned(t)
    modifies ctx, ctx.inodeBitmap, ctx.blockBitmap
    ensures ctx.image == old(ctx.image)
    ensures ok <==>
      && LayoutFits(|ctx.image|, o) && ROOT_INODE + NodeCount(t) <= InitialSuper(|ctx.image|, o).totalInodes
      && Representable(t) && InitialSuper(|ctx.image|, o).dataStart + Blocks(t) <= |ctx.image|
    ensures ok ==>
      && ctx.sb == InitialSuper(|ctx.image|, o) && p == Placed(t, ROOT_INODE, ctx.sb.dataStart)
      && ctx.inodeBitmap.Length == ctx.sb.inodeBitmapBlocks * BLOCK_SIZE
      && ctx.blockBitmap.Length == ctx.sb.blockBitmapBlocks * BLOCK_SIZE
      && ctx.InodeBits() && ctx.nextInode == ROOT_INODE + NodeCount(t)
      && ctx.BlockBits() && ctx.nextBlock == ctx.sb.dataStart + Blocks(t)
  {
    hide InitialSuper, NodeCount, Blocks, Representable, Placed, Numbered, Bitmap.Test, SourceTree.Scanned;
    p := Mapped(t, 0, 0, 0, 0, [], 0, [], []);
    ok := CalculateLayout(ctx, o);
    if !ok {
      return;
    }
    InitialPlain(|ctx.image|, o);
    var numbered, m := ctx.AssignInodes(t);
    if !numbered {
      return false, p;
    }
    ok, p := ctx.AllocateNodeBlocks(m, t, ROOT_INODE);
  }

  /** The stages of main that write: zero the region, write the tree, write the metadata. */
  method WriteImage(ctx: Context, p: Mapped, ns: nat, uuid: nat, ghost t: Node)
    requires LayoutValid(ctx.sb, |ctx.image|) && PlainSuper(ctx.sb) && |ctx.image| == ctx.sb.totalBlocks
    requires SourceTree.Scanned(t) && t.kind.Directory? && Representable(t)
    requires p == Placed(t, ROOT_INODE, ctx.sb.dataStart)
    requires ctx.inodeBitmap.Length == ctx.sb.inodeBitmapBlocks * BLOCK_SIZE
    requires ctx.blockBitmap.Length == ctx.sb.blockBitmapBlocks * BLOCK_SIZE
    requires ctx.InodeBits() && ctx.nextInode == ROOT_INODE + NodeCount(t)
    requires ctx.BlockBits() && ctx.nextBlock == ctx.sb.dataStart + Blocks(t)
    requires ns <= UINT64_MAX && uuid < Pow256(16)
    modifies ctx`image, ctx`sb
    ensures |ctx.image| == |old(ctx.image)| && Formatted(ctx.image, ctx.sb, t, ns)
  {
    hide NodeCount, Blocks, Representable, Placed, SourceTree.Scanned, LayoutValid, Encoded, Inside, MetadataWritten,
      Bitmap.Test, Touched, PlainSuper, FinalSuper, CopyValid, Pow256;
    ghost var s := ctx.sb;
    PlainCount(s);
    ctx.image := seq(|ctx.image|, _ => Zeros(BLOCK_SIZE));
    FormatRoom(ctx.image, ctx.sb, t);
    WriteNode(ctx, p, ROOT_INODE, ns, ctx.sb.inodeTableStart, ctx.sb.dataStart, t, ROOT_INODE, ctx.sb.dataStart);
    ghost var tree := ctx.image;
    WriteMetadata(ctx, ns, uuid);
    FinalCopy(s, ctx.nextBlock, ctx.nextInode, ns, uuid);
    KeepsTree(tree, ctx.image, s, t, ns);
  }

  lemma PlainCount(s: Superblock)
    requires PlainSuper(s)
    ensures s.totalInodes <= UINT32_MAX
  {
  }

  /** main, without reading the source tree: it succeeds exactly on the acceptable inputs, and then
      leaves a formatted image. */
  method Format(ctx: Context, o: Options, t: Node, force: bool) returns (ok: bool)
    requires OptionsOk(o) && SourceTree.Scanned(t) && t.kind.Directory?
    modifies ctx, ctx.inodeBitmap, ctx.blockBitmap
    ensures ok <==>
      |old(ctx.image)| > 0 && (force || AllZero(old(ctx.image)[0])) && Acceptable(|old(ctx.image)|, o, t)
    ensures ok ==> |ctx.image| == |old(ctx.image)| && Formatted(ctx.image, ctx.sb, t, o.epochSeconds * NS_PER_SECOND)
  {
    hide InitialSuper, NodeCount, Blocks, Representable, Placed, SourceTree.Scanned, LayoutValid, LayoutFits, Formatted,
      Bitmap.Test;
    if |ctx.image| == 0 || (!force && !AllZero(ctx.image[0])) {
      return false;
    }
    var prepared, p := Prepare(ctx, o, t);
    if !prepared {
      return false;
    }
    if o.epochSeconds > UINT64_MAX / NS_PER_SECOND {
      return false;
    }
    InitialLayout(|ctx.image|, o);
    InitialPlain(|ctx.image|, o);
    WriteImage(ctx, p, o.epochSeconds * NS_PER_SECOND, o.uuid, t);
    return true;
  }

  lemma FinalCopy(s: Superblock, blocks: nat, inodes: nat, ns: nat, uuid: nat)
    requires PlainSuper(s) && blocks <= s.totalBlocks && inodes <= s.totalInodes
    ensures var f := FinalSuper(s, blocks, inodes, ns, uuid);
      && CopyValid(f) && f.generation == 1 && f.state == STATE_CLEAN
      && f.totalBlocks == s.totalBlocks && f.totalInodes == s.totalInodes && f.dataStart == s.dataStart
      && f.inodeTableStart == s.inodeTableStart
      && f.freeBlocks == s.totalBlocks - blocks && f.freeInodes == s.totalInodes - inodes
  {
    hide Crc32c, EncodeSuper;
  }
}
