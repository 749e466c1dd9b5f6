/** Writer and checker agree: every image mkfs.northstar formats is accepted by fsck.northstar. */
module MkfsAccepted {
  import opened Wrappers
  import opened Bytes
  import opened OnDisk
  import opened Inodes
  import opened Superblocks
  import opened Journal
  import opened Volumes
  import opened Directories
  import opened Topology
  import opened FsckGraph
  import opened FsckSuper
  import opened FsckBlocks
  import opened FsckRun
  import opened SourceTree
  import opened TreeImage
  import opened VolumeTree
  import opened TreeEntries
  import opened MkfsGraph
  import opened MkfsBlocks
  import opened MkfsNames
  import opened MkfsFormat
  import Bitmap

  // ---------- names and topology ----------

  lemma DecodedLinks(b: seq<byte>)
    requires INODE_SIZE <= |b|
    ensures DecodeInode(b).linkCount <= UINT32_MAX
  {
    hide InodeWidths, Unpack, Pack, Pow256;
    InodeSize();
    PackUnpack(InodeWidths(), b);
    LinkWidth(Unpack(InodeWidths(), b));
  }

  lemma LinkWidth(f: seq<nat>)
    requires Fits(InodeWidths(), f)
    ensures f[5] <= UINT32_MAX
  {
    assert InodeWidths()[5] == 4;
    assert Pow256(4) == UINT32_MAX + 1;
    hide Pow256;
  }

  lemma {:induction false} IdleEntries(v: Volume, used: nat, blocks: nat, n: nat)
    requires Wf(v) && InUseUpto(v, used, blocks) && DirectoriesOk(v, v.sb.totalInodes)
    requires 1 <= used <= n <= v.sb.totalInodes
    ensures EntriesTo(v, n) == EntriesTo(v, used)
    decreases n
  {
    hide DirectoriesOk, EntriesTo, Bitmap.Test;
    if n > used {
      IdleEntries(v, used, blocks, n - 1);
      EntriesNext(v, n - 1);
      assert !Allocated(v, n - 1);
    }
  }

  /** What the records of the whole tree are, and that they place every inode. */
  lemma TreeTopology(v: Volume, t: Node, ns: nat, es: seq<Entry>)
    requires Wf(v) && t.kind.Directory? && OnVolume(v, t, ROOT_INODE, v.sb.dataStart, ROOT_INODE, ns)
    requires es == TreeRecords(t, ROOT_INODE, ROOT_INODE)
    ensures LastDotDot(es, ROOT_INODE) == ROOT_INODE && Parents(es, ROOT_INODE) == 0
    ensures ROOT_INODE + NodeCount(t) <= v.sb.totalInodes
    ensures forall i :: 1 <= i < ROOT_INODE + NodeCount(t) ==> InodePlaced(v, es, i)
  {
    hide OnVolume, TreeRecords, NodeCount, Naming, Parents, LastDotDot, Reachable, InodeFor, SourceTree.Scanned;
    OwnFacts(v, t, ROOT_INODE, v.sb.dataStart, ROOT_INODE, ns);
    RootReachable(es);
    assert Governs(es, es, ROOT_INODE, ROOT_INODE + NodeCount(t));
    TreePlaced(v, es, t, ROOT_INODE, v.sb.dataStart, ROOT_INODE, ns);
    TreeSelf(t, ROOT_INODE, ROOT_INODE);
    LinksFor(t, v.sb.dataStart, ns);
  }

  lemma LinksFor(t: Node, blk: nat, ns: nat)
    ensures InodeFor(t, blk, ns).linkCount == LinkCount(t)
  {
    hide InodeChecksum, DataCount;
  }

  lemma TreeCountable(v: Volume, t: Node, ns: nat, es: seq<Entry>)
    requires Wf(v) && InodesLoaded(v) && SourceTree.Scanned(t) && es == TreeRecords(t, ROOT_INODE, ROOT_INODE)
    requires ROOT_INODE + NodeCount(t) <= v.sb.totalInodes
    requires forall i :: 1 <= i < ROOT_INODE + NodeCount(t) ==> InodePlaced(v, es, i)
    ensures Countable(es)
  {
    hide TreeRecords, NodeCount, Naming, DecodeInode, SourceTree.Scanned;
    forall i: nat | i > 0
      ensures Naming(es, i) <= UINT64_MAX
    {
      if i < ROOT_INODE + NodeCount(t) {
        assert InodePlaced(v, es, i) && InodeLoaded(v, i);
        DecodedLinks(v.image[v.sb.inodeTableStart + i / INODES_PER_BLOCK][i % INODES_PER_BLOCK * INODE_SIZE..]);
      } else {
        Unmentioned(t, ROOT_INODE, ROOT_INODE, i);
      }
    }
  }

  /** A formatted tree meets what validate_directories and validate_topology demand. */
  lemma TreeNamespace(v: Volume, t: Node, ns: nat)
    requires Wf(v) && InodesLoaded(v) && t.kind.Directory?
    requires OnVolume(v, t, ROOT_INODE, v.sb.dataStart, ROOT_INODE, ns)
    requires InUseUpto(v, ROOT_INODE + NodeCount(t), v.sb.dataStart + Blocks(t))
    ensures NamespaceOk(v) && TopologyOk(v)
  {
    hide OnVolume, TreeRecords, NodeCount, Blocks, DirectoriesOk, InodePlaced, Countable, SourceTree.Scanned, EntriesTo,
      InodesLoaded, LastDotDot, Parents, InodeFor, Bitmap.Test;
    var used, blocks := ROOT_INODE + NodeCount(t), v.sb.dataStart + Blocks(t);
    OwnFacts(v, t, ROOT_INODE, v.sb.dataStart, ROOT_INODE, ns);
    KindOf(t, v.sb.dataStart, ns);
    TreeFine(v, t, ROOT_INODE, v.sb.dataStart, ROOT_INODE, ns, used, blocks);
    AllFine(v, used, blocks);
    TreeGathers(v, t, ROOT_INODE, v.sb.dataStart, ROOT_INODE, ns, used, blocks);
    IdleEntries(v, used, blocks, v.sb.totalInodes);
    var es := TreeRecords(t, ROOT_INODE, ROOT_INODE);
    EntriesAre(v, es);
    TreeTopology(v, t, ns, es);
    TreeCountable(v, t, ns, es);
    assert IsDirectory(v, ROOT_INODE);
  }

  lemma EntriesAre(v: Volume, es: seq<Entry>)
    requires Wf(v) && DirectoriesOk(v, v.sb.totalInodes)
    requires EntriesTo(v, v.sb.totalInodes) == EntriesTo(v, ROOT_INODE) + es
    ensures EntriesUpto(v, v.sb.totalInodes) == es
  {
    assert EntriesUpto(v, ROOT_INODE) == [];
  }

  // ---------- bitmaps ----------

  lemma {:induction false} CountPrefix(bitmap: seq<byte>, used: nat, n: nat)
    requires n <= 8 * |bitmap| && forall j :: 0 <= j < n ==> (Bitmap.Test(bitmap, j) <==> j < used)
    ensures Bitmap.Count(bitmap, n) == if n < used then n else used
    decreases n
  {
    hide Bitmap.Test;
    if n > 0 { CountPrefix(bitmap, used, n - 1); }
  }

  lemma LoadedBits(image: seq<Block>, s: Superblock, used: nat, blocks: nat)
    requires LayoutValid(s, |image|) && s.totalInodes <= UINT32_MAX && used <= s.totalInodes && blocks <= s.totalBlocks
    requires MetadataWritten(image, s, used, blocks)
    ensures var v := Load(image, s);
      && InUseUpto(v, used, blocks)
      && AllSet(v.inodeBitmap, s.totalInodes, 8 * |v.inodeBitmap|)
      && AllSet(v.blockBitmap, s.totalBlocks, 8 * |v.blockBitmap|)
  {
    hide LayoutValid, Bitmap.Test, Span, FreshJournal, DecodeSuper;
    LayoutSpans(s, |image|);
  }

  lemma LoadedTails(v: Volume, used: nat, blocks: nat)
    requires Wf(v) && InUseUpto(v, used, blocks) && ROOT_INODE < used && v.sb.dataStart <= blocks
    requires AllSet(v.inodeBitmap, v.sb.totalInodes, 8 * |v.inodeBitmap|)
    requires AllSet(v.blockBitmap, v.sb.totalBlocks, 8 * |v.blockBitmap|)
    requires v.sb.freeInodes == v.sb.totalInodes - used && v.sb.freeBlocks == v.sb.totalBlocks - blocks
    ensures TailsOk(v)
  {
    hide Bitmap.Test;
    forall j | 0 <= j < v.sb.totalInodes
      ensures Bitmap.Test(v.inodeBitmap, j) <==> j < used
    {
      assert Allocated(v, j) <==> j < used;
    }
    forall j | 0 <= j < v.sb.totalBlocks
      ensures Bitmap.Test(v.blockBitmap, j) <==> j < blocks
    {
      assert InUse(v, j) <==> j < blocks;
    }
    CountPrefix(v.inodeBitmap, used, v.sb.totalInodes);
    CountPrefix(v.blockBitmap, blocks, v.sb.totalBlocks);
    assert Allocated(v, 0) && Allocated(v, ROOT_INODE);
    forall b | 0 <= b < v.sb.dataStart
      ensures Bitmap.Test(v.blockBitmap, b)
    {
      assert InUse(v, b);
    }
  }

  lemma LoadedInodes(image: seq<Block>, s: Superblock)
    requires LayoutValid(s, |image|) && s.totalInodes <= UINT32_MAX
    ensures InodesLoaded(Load(image, s))
  {
    hide LayoutValid, Span, DecodeInode;
    LayoutSpans(s, |image|);
    var v := Load(image, s);
    forall n | 0 <= n < |v.inodes|
      ensures InodeLoaded(v, n)
    {
      assert TableBlock(s, n) < s.dataStart;
    }
  }

  // ---------- superblock and journal ----------

  lemma FreshHeaderFits()
    ensures Fits(JournalWidths(), JournalFields(FreshHeader()))
  {
    assert Pow256(4) == 0x1_0000_0000;
    assert Pow256(8) == 0x1_0000_0000_0000_0000;
    assert Pow256(16) > 0;
    hide Pow256;
  }

  lemma FreshJournalValid(image: seq<Block>, s: Superblock)
    requires s.journalStart < |image| && image[s.journalStart] == FreshJournal()
    ensures JournalValid(image, s) && DecodeJournal(image[s.journalStart]).state == JOURNAL_EMPTY
  {
    hide DecodeJournal, JournalChecksum, SealJournal, Fits;
    FreshHeaderFits();
    SealedJournal(FreshHeader(), Zeros(BLOCK_SIZE - JOURNAL_HEADER_SIZE));
  }

  lemma CopiesFine(image: seq<Block>, s: Superblock)
    requires |image| >= 2 && DecodeSuper(image[0]) == s && DecodeSuper(image[1]) == s && CopyValid(s)
    ensures CopiesOk(image) && Selected(image) == Some(s)
  {
    hide DecodeSuper, CopyValid;
  }

  // ---------- the theorem ----------

  lemma FormattedVolume(image: seq<Block>, s: Superblock, t: Node, ns: nat)
    requires Formatted(image, s, t, ns)
    ensures LayoutValid(s, |image|) && VolumeOk(Load(image, s))
    ensures var v := Load(image, s);
      && InodesLoaded(v) && OnVolume(v, t, ROOT_INODE, s.dataStart, ROOT_INODE, ns)
  {
    hide LayoutValid, Load, OnVolume, NodeCount, Blocks, Encoded, Inside, SourceTree.Scanned, Representable, CopyValid,
      BitsOnImage, FreshJournal, DecodeSuper, InodesLoaded, AllSet, InUseUpto, TailsOk, BlocksOk, NamespaceOk,
      TopologyOk;
    var used, blocks := ROOT_INODE + NodeCount(t), s.dataStart + Blocks(t);
    var v := Load(image, s);
    LoadIs(image, s);
    LoadedBits(image, s, used, blocks);
    LoadedInodes(image, s);
    LoadedTails(v, used, blocks);
    EncodedOnVolume(v, t, ROOT_INODE, s.dataStart, ROOT_INODE, ns);
    TreeBlocksOk(v, t, ns);
    TreeNamespace(v, t, ns);
  }

  lemma LoadIs(image: seq<Block>, s: Superblock)
    requires LayoutValid(s, |image|)
    ensures Load(image, s).sb == s && Load(image, s).image == image && 0 < s.dataStart
  {
    LayoutSpans(s, |image|);
  }

  /** fsck accepts every image mkfs formats, whatever the source tree. */
  lemma FormattedAccepted(image: seq<Block>, s: Superblock, t: Node, ns: nat)
    requires Formatted(image, s, t, ns)
    ensures Accepts(image, false)
  {
    hide LayoutValid, Load, NodeCount, Blocks, Encoded, Inside, SourceTree.Scanned, Representable, CopyValid,
      BitsOnImage,
      FreshJournal, DecodeSuper, DecodeJournal, VolumeOk, JournalValid, OnVolume, InodesLoaded, CopiesOk, Selected;
    FormattedVolume(image, s, t, ns);
    FreshJournalValid(image, s);
    CopiesFine(image, s);
  }
}
