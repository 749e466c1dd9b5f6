/** The directories of a formatted tree: each reads back as the records it was written from, and
    all together give the records of the tree. */
module MkfsNames {
  import opened Sequences
  import opened Bytes
  import opened Paths
  import opened OnDisk
  import opened Inodes
  import opened Volumes
  import opened Directories
  import opened SourceTree
  import opened DirBlocks
  import opened TreeImage
  import opened VolumeTree
  import opened TreeEntries
  import opened MkfsGraph
  import opened MkfsBlocks
  import Bitmap
  import FsckDirs

  // ---------- reading a directory back ----------

  lemma LogicalIs(v: Volume, t: Node, blk: nat, ns: nat, k: nat)
    requires IndirectStored(v, t, blk) && k < DataCount(t)
    ensures LogicalBlock(v, InodeFor(t, blk, ns), k) == DataBlock(t, blk, k)
  {
    hide DataCount, EncodeEntries, Entries, InodeChecksum;
    if k >= DIRECT_BLOCKS {
      TableBounds(t, blk);
      EntriesRoundTrip(IndirectTable(t, blk));
    }
  }

  lemma DirectoryLimit(t: Node, blk: nat, ns: nat, k: nat)
    requires t.kind.Directory? && k < DataCount(t)
    ensures DataBlocks(InodeFor(t, blk, ns)) == DataCount(t) && Limit(InodeFor(t, blk, ns), k) == BLOCK_SIZE
  {
    hide DataCount, InodeChecksum;
    SizeBlocks(t, blk, ns);
  }

  lemma {:induction false} FlattenAppend(groups: seq<seq<Record>>, g: seq<Record>)
    ensures Flatten(groups + [g]) == Flatten(groups) + g
  {
    if groups == [] {
      assert groups + [g] == [g] && [g][1..] == [];
      assert g + [] == [] + g;
    } else {
      assert (groups + [g])[1..] == groups[1..] + [g];
      FlattenAppend(groups[1..], g);
      assert groups[0] + (Flatten(groups[1..]) + g) == groups[0] + Flatten(groups[1..]) + g;
    }
  }

  lemma {:induction false} FlattenStorable(groups: seq<seq<Record>>, k: nat)
    requires k < |groups| && AllStorable(Flatten(groups))
    ensures AllStorable(groups[k])
  {
    var rest := Flatten(groups[1..]);
    assert Flatten(groups) == groups[0] + rest;
    if k == 0 {
      forall j | 0 <= j < |groups[0]| ensures Storable(groups[0][j]) { assert Flatten(groups)[j] == groups[0][j]; }
    } else {
      forall j | 0 <= j < |rest| ensures Storable(rest[j]) { assert Flatten(groups)[|groups[0]| + j] == rest[j]; }
      FlattenStorable(groups[1..], k - 1);
    }
  }

  /** Block k of a directory holds group k of its records. */
  lemma BlockHolds(v: Volume, t: Node, ino: nat, blk: nat, parent: nat, ns: nat, k: nat)
    requires Wf(v) && NodeOnVolume(v, t, ino, blk, parent, ns) && t.kind.Directory? && k < DataCount(t)
    requires AllStorable(NodeRecords(t, ino, parent))
    ensures var i := InodeFor(t, blk, ns); var groups := Groups(t, ino, parent);
      && k < DataBlocks(i) && k < |groups| && DirBlockOk(v, i, k)
      && Records(v.image[LogicalBlock(v, i, k)], 0, Limit(i, k)) == groups[k]
  {
    var groups := Groups(t, ino, parent);
    GroupCount(t, ino, parent);
    ChildrenFit(t, ino, parent);
    FillKeeps(DotRecords(ino, parent), ChildRecords(t, ino));
    FlattenStorable(groups, k);
    assert v.image[DataBlock(t, blk, k)] == Finished(groups[k]);
    hide InodeFor, DataCount, Groups, Finished, LogicalBlock, Limit, Tiles, Records, IndirectStored,
      SourceTree.Scanned, Blocks;
    LogicalIs(v, t, blk, ns, k);
    DirectoryLimit(t, blk, ns, k);
    FinishedTiles(groups[k]);
    OwnInside(v, t, ino, blk, parent, ns, k);
  }

  lemma OwnInside(v: Volume, t: Node, ino: nat, blk: nat, parent: nat, ns: nat, k: nat)
    requires Wf(v) && NodeOnVolume(v, t, ino, blk, parent, ns) && k < DataCount(t)
    ensures InDataArea(v, DataBlock(t, blk, k))
  {
    hide DataCount, InodeFor;
  }

  lemma {:induction false} DirectoryReads(v: Volume, t: Node, ino: nat, blk: nat, parent: nat, ns: nat, n: nat)
    requires Wf(v) && NodeOnVolume(v, t, ino, blk, parent, ns) && t.kind.Directory? && n <= DataCount(t)
    requires AllStorable(NodeRecords(t, ino, parent))
    ensures var i := InodeFor(t, blk, ns); var groups := Groups(t, ino, parent);
      && n <= DataBlocks(i) && n <= |groups| && DirBlocksOk(v, i, n) && RecordsUpto(v, i, n) == Flatten(groups[..n])
    decreases n
  {
    hide InodeFor, DataCount, Groups, LogicalBlock, Limit, Tiles, Records, NodeOnVolume, DirBlockOk, DataBlocks;
    var i, groups := InodeFor(t, blk, ns), Groups(t, ino, parent);
    if n == 0 {
      assert groups[..0] == [];
    } else {
      DirectoryReads(v, t, ino, blk, parent, ns, n - 1);
      BlockHolds(v, t, ino, blk, parent, ns, n - 1);
      assert groups[..n] == groups[..n - 1] + [groups[n - 1]];
      FlattenAppend(groups[..n - 1], groups[n - 1]);
    }
  }

  /** A directory reads back as `.`, `..` and its children, in order. */
  lemma DirectoryReadsWhole(v: Volume, t: Node, ino: nat, blk: nat, parent: nat, ns: nat)
    requires Wf(v) && NodeOnVolume(v, t, ino, blk, parent, ns) && t.kind.Directory?
    requires AllStorable(NodeRecords(t, ino, parent))
    ensures var i := InodeFor(t, blk, ns);
      && DataBlocks(i) == DataCount(t) > 0 && DirBlocksOk(v, i, DataBlocks(i))
      && RecordsUpto(v, i, DataBlocks(i)) == NodeRecords(t, ino, parent)
  {
    hide InodeFor, DataCount, RecordsUpto, DirBlocksOk, DataBlocks;
    SizeBlocks(t, blk, ns);
    GroupCount(t, ino, parent);
    DirectoryReads(v, t, ino, blk, parent, ns, DataCount(t));
    var groups := Groups(t, ino, parent);
    assert groups[..|groups|] == groups;
    ChildrenFit(t, ino, parent);
    FillKeeps(DotRecords(ino, parent), ChildRecords(t, ino));
  }

  // ---------- names ----------

  lemma {:induction false} NamesAll(rs: seq<Record>)
    requires forall k :: 0 <= k < |rs| ==> rs[k].inode != 0
    ensures |NamesOf(rs)| == |rs| && forall k :: 0 <= k < |rs| ==> NamesOf(rs)[k] == rs[k].name
  {
    if rs != [] { NamesAll(rs[..|rs| - 1]); }
  }

  lemma {:induction false} OccursMember(names: seq<seq<byte>>, x: seq<byte>)
    requires x in names
    ensures Occurrences(names, x) >= 1
  {
    var n := |names| - 1;
    if names[n] != x { OccursMember(names[..n], x); }
  }

  /** `.`, `..` and the names of the children. */
  function NamesFor(t: Node): seq<seq<byte>>
  {
    [DOT, DOTDOT] + seq(|t.children|, k requires 0 <= k < |t.children| => t.children[k].name)
  }

  lemma NamesForDistinct(t: Node)
    requires SourceTree.Scanned(t)
    ensures Distinct(NamesFor(t))
  {
    var names := NamesFor(t);
    FsckDirs.DotsDiffer();
    forall i, j | 0 <= i < j < |names|
      ensures names[i] != names[j]
    {
      if j >= 2 {
        ChildScanned(t, j - 2);
        assert i >= 2 ==> t.children[i - 2].name != t.children[j - 2].name;
      }
    }
  }

  lemma NamesAre(t: Node, ino: nat, parent: nat)
    requires 1 <= ino && 1 <= parent
    ensures NamesOf(NodeRecords(t, ino, parent)) == NamesFor(t)
  {
    hide NodesOf;
    var rs := NodeRecords(t, ino, parent);
    NamesAll(rs);
  }

  lemma NodeNames(t: Node, ino: nat, parent: nat)
    requires SourceTree.Scanned(t) && 1 <= ino && 1 <= parent
    ensures var names := NamesOf(NodeRecords(t, ino, parent));
      && Distinct(names) && Occurrences(names, DOT) == 1 && Occurrences(names, DOTDOT) == 1
  {
    hide NodeRecords, NamesOf, Occurrences, SourceTree.Scanned, Sequences.Distinct;
    NamesAre(t, ino, parent);
    NamesForDistinct(t);
    var names := NamesFor(t);
    FsckDirs.DistinctOccurs(names, DOT);
    FsckDirs.DistinctOccurs(names, DOTDOT);
    assert names[0] == DOT && names[1] == DOTDOT;
    OccursMember(names, DOT);
    OccursMember(names, DOTDOT);
  }

  // ---------- one directory ----------

  lemma NodeRecordsOk(v: Volume, t: Node, ino: nat, blk: nat, parent: nat, ns: nat, used: nat, blocks: nat)
    requires Wf(v) && OnVolume(v, t, ino, blk, parent, ns) && InUseUpto(v, used, blocks) && ino + NodeCount(t) <= used
    requires t.kind.Directory? && 1 <= parent < used && v.inodes[parent].kind == INODE_DIRECTORY
    ensures RecordsOk(v, ino, NodeRecords(t, ino, parent))
  {
    hide ChildRecords, Bitmap.Test, OnVolume, SourceTree.Scanned, RecordOk;
    var rs := NodeRecords(t, ino, parent);
    DotRecordsOk(v, t, ino, blk, parent, ns, used, blocks);
    forall k | 0 <= k < |rs|
      ensures RecordOk(v, ino, rs[k])
    {
      if k >= 2 { ChildRecordOk(v, t, ino, blk, parent, ns, used, blocks, k - 2); }
    }
  }

  lemma DotRecordsOk(v: Volume, t: Node, ino: nat, blk: nat, parent: nat, ns: nat, used: nat, blocks: nat)
    requires Wf(v) && OnVolume(v, t, ino, blk, parent, ns) && InUseUpto(v, used, blocks) && ino + NodeCount(t) <= used
    requires t.kind.Directory? && 1 <= parent < used && v.inodes[parent].kind == INODE_DIRECTORY
    ensures RecordOk(v, ino, DotRecords(ino, parent)[0]) && RecordOk(v, ino, DotRecords(ino, parent)[1])
  {
    hide NodesOf, Bitmap.Test, OnVolume, SourceTree.Scanned, InodeFor;
    OwnFacts(v, t, ino, blk, parent, ns);
    KindOf(t, blk, ns);
    FsckDirs.DotsDiffer();
  }

  lemma KindOf(t: Node, blk: nat, ns: nat)
    ensures InodeFor(t, blk, ns).kind == KindCode(t.kind)
  {
    hide InodeChecksum, DataCount;
  }

  lemma ChildRecordOk(v: Volume, t: Node, ino: nat, blk: nat, parent: nat, ns: nat, used: nat, blocks: nat, k: nat)
    requires Wf(v) && OnVolume(v, t, ino, blk, parent, ns) && InUseUpto(v, used, blocks) && ino + NodeCount(t) <= used
    requires t.kind.Directory? && k < |t.children|
    ensures RecordOk(v, ino, ChildRecords(t, ino)[k])
  {
    hide NodesOf, Bitmap.Test, OnVolume, NameOk;
    OwnFacts(v, t, ino, blk, parent, ns);
    ChildScanned(t, k);
    LoadedChild(v, t, ino, blk, parent, ns, k);
    ChildUsed(t, ino, k);
  }

  lemma RecordsStorableOn(v: Volume, t: Node, ino: nat, parent: nat)
    requires Wf(v) && SourceTree.Scanned(t) && ino + NodeCount(t) <= v.sb.totalInodes && parent < v.sb.totalInodes
    ensures AllStorable(NodeRecords(t, ino, parent))
  {
    hide NodesOf;
    var rs := NodeRecords(t, ino, parent);
    forall k | 0 <= k < |rs|
      ensures Storable(rs[k])
    {
      if k >= 2 {
        ChildScanned(t, k - 2);
        ChildUsed(t, ino, k - 2);
      }
    }
  }

  /** A directory of the tree meets what validate_directory demands, and reads back its records. */
  lemma NodeDirectoryOk(v: Volume, t: Node, ino: nat, blk: nat, parent: nat, ns: nat, used: nat, blocks: nat)
    requires Wf(v) && OnVolume(v, t, ino, blk, parent, ns) && InUseUpto(v, used, blocks) && ino + NodeCount(t) <= used
    requires t.kind.Directory? && 1 <= parent < used && v.inodes[parent].kind == INODE_DIRECTORY
    ensures ino < v.sb.totalInodes && DirectoryOk(v, ino) && DirRecords(v, ino) == NodeRecords(t, ino, parent)
  {
    assert NodeOnVolume(v, t, ino, blk, parent, ns);
    hide OnVolume, NodeOnVolume, SourceTree.Scanned, NodeRecords, NodesOf, Bitmap.Test, InodeFor, RecordsUpto,
      DirBlocksOk,
      DataBlocks, RecordsOk, Sequences.Distinct, Occurrences, NamesOf, DataCount;
    OwnFacts(v, t, ino, blk, parent, ns);
    RecordsStorableOn(v, t, ino, parent);
    DirectoryReadsWhole(v, t, ino, blk, parent, ns);
    NodeRecordsOk(v, t, ino, blk, parent, ns, used, blocks);
    NodeNames(t, ino, parent);
    DirectorySizeOk(t, blk, ns);
  }

  lemma DirectorySizeOk(t: Node, blk: nat, ns: nat)
    requires t.kind.Directory? && 0 < DataCount(t) <= MAX_FILE_BLOCKS
    ensures 0 < InodeFor(t, blk, ns).size <= UINT64_MAX - (BLOCK_SIZE - 1)
  {
    hide DataCount, InodeChecksum;
  }

  // ---------- all directories ----------

  ghost predicate DirectoryFine(v: Volume, n: nat)
    requires Wf(v)
  {
    n < v.sb.totalInodes && (IsDirectory(v, n) ==> DirectoryOk(v, n))
  }

  lemma OwnFine(v: Volume, t: Node, ino: nat, blk: nat, parent: nat, ns: nat, used: nat, blocks: nat)
    requires Wf(v) && OnVolume(v, t, ino, blk, parent, ns) && InUseUpto(v, used, blocks) && ino + NodeCount(t) <= used
    requires 1 <= parent < used && v.inodes[parent].kind == INODE_DIRECTORY
    ensures DirectoryFine(v, ino) && v.inodes[ino].kind == KindCode(t.kind)
    ensures IsDirectory(v, ino) <==> t.kind.Directory?
  {
    hide OnVolume, DirectoryOk, NodesOf, InodeFor, Bitmap.Test;
    OwnFacts(v, t, ino, blk, parent, ns);
    KindOf(t, blk, ns);
    if t.kind.Directory? { NodeDirectoryOk(v, t, ino, blk, parent, ns, used, blocks); }
  }

  lemma {:induction false} TreeFine(v: Volume, t: Node, ino: nat, blk: nat, parent: nat, ns: nat, used: nat,
                                    blocks: nat)
    requires Wf(v) && OnVolume(v, t, ino, blk, parent, ns) && InUseUpto(v, used, blocks) && ino + NodeCount(t) <= used
    requires 1 <= parent < used && v.inodes[parent].kind == INODE_DIRECTORY
    ensures forall n :: ino <= n < ino + NodeCount(t) ==> DirectoryFine(v, n)
    decreases t
  {
    hide OnVolume, DirectoryFine, NodesOf, Bitmap.Test, InUseUpto, SourceTree.Scanned, InodeFor;
    OwnFine(v, t, ino, blk, parent, ns, used, blocks);
    OwnFacts(v, t, ino, blk, parent, ns);
    forall n | ino < n < ino + NodeCount(t)
      ensures DirectoryFine(v, n)
    {
      assert t.children[..|t.children|] == t.children;
      var k := FindChild(t, ino, |t.children|, n);
      HasChildren(t, k);
      ChildFacts(v, t, ino, blk, parent, ns, k);
      ChildUsed(t, ino, k);
      TreeFine(v, t.children[k], ChildInode(t, ino, k), ChildBlock(t, blk, k), ino, ns, used, blocks);
    }
  }

  lemma AllFine(v: Volume, used: nat, blocks: nat)
    requires Wf(v) && InUseUpto(v, used, blocks) && forall n :: 1 <= n < used ==> DirectoryFine(v, n)
    ensures DirectoriesOk(v, v.sb.totalInodes)
  {
    hide DirectoryOk, Bitmap.Test;
    forall m | 1 <= m < v.sb.totalInodes && IsDirectory(v, m)
      ensures DirectoryOk(v, m)
    {
      assert DirectoryFine(v, m);
    }
  }

  /** The records of the directories below n, once all directories are in order. */
  ghost function EntriesTo(v: Volume, n: nat): seq<Entry>
    requires Wf(v) && DirectoriesOk(v, v.sb.totalInodes) && n <= v.sb.totalInodes
  {
    EntriesUpto(v, n)
  }

  lemma EntriesNext(v: Volume, n: nat)
    requires Wf(v) && DirectoriesOk(v, v.sb.totalInodes) && 1 <= n < v.sb.totalInodes
    ensures IsDirectory(v, n) ==>
      DirectoryOk(v, n) && EntriesTo(v, n + 1) == EntriesTo(v, n) + EntriesOf(n, DirRecords(v, n))
    ensures !IsDirectory(v, n) ==> EntriesTo(v, n + 1) == EntriesTo(v, n)
  {
    hide DirectoryOk, DirRecords, EntriesOf, Bitmap.Test;
    assert EntriesUpto(v, n) + [] == EntriesUpto(v, n);
  }

  lemma {:induction false} TreeGathers(v: Volume, t: Node, ino: nat, blk: nat, parent: nat, ns: nat, used: nat,
                                       blocks: nat)
    requires Wf(v) && OnVolume(v, t, ino, blk, parent, ns) && InUseUpto(v, used, blocks) && ino + NodeCount(t) <= used
    requires 1 <= parent < used && v.inodes[parent].kind == INODE_DIRECTORY && DirectoriesOk(v, v.sb.totalInodes)
    ensures EntriesTo(v, ino + NodeCount(t)) == EntriesTo(v, ino) + TreeRecords(t, ino, parent)
    decreases t, 1
  {
    hide OnVolume, DirectoriesOk, EntriesTo, NodesOf, ForestRecords, NodeRecords, EntriesOf, InUseUpto,
      SourceTree.Scanned;
    OwnGathers(v, t, ino, blk, parent, ns, used, blocks);
    assert t.children[..|t.children|] == t.children;
    if t.kind.Directory? {
      ForestGathers(v, t, ino, blk, parent, ns, used, blocks, |t.children|);
      var own, rest := EntriesOf(ino, NodeRecords(t, ino, parent)), ForestRecords(t, ino, |t.children|);
      assert EntriesTo(v, ino) + own + rest == EntriesTo(v, ino) + (own + rest);
    } else {
      assert EntriesTo(v, ino) + [] == EntriesTo(v, ino);
    }
  }

  lemma OwnGathers(v: Volume, t: Node, ino: nat, blk: nat, parent: nat, ns: nat, used: nat, blocks: nat)
    requires Wf(v) && OnVolume(v, t, ino, blk, parent, ns) && InUseUpto(v, used, blocks) && ino + NodeCount(t) <= used
    requires 1 <= parent < used && v.inodes[parent].kind == INODE_DIRECTORY && DirectoriesOk(v, v.sb.totalInodes)
    ensures 1 <= ino && ino + NodeCount(t) <= v.sb.totalInodes && v.inodes[ino].kind == KindCode(t.kind)
    ensures t.kind.Directory? ==>
      EntriesTo(v, ino + 1) == EntriesTo(v, ino) + EntriesOf(ino, NodeRecords(t, ino, parent))
    ensures !t.kind.Directory? ==> NodeCount(t) == 1 && EntriesTo(v, ino + 1) == EntriesTo(v, ino)
  {
    hide OnVolume, DirectoriesOk, DirectoryOk, DirRecords, EntriesTo, NodesOf, Bitmap.Test, NodeRecords, EntriesOf,
      InUseUpto,
      SourceTree.Scanned, InodeFor;
    OwnFine(v, t, ino, blk, parent, ns, used, blocks);
    OwnFacts(v, t, ino, blk, parent, ns);
    EntriesNext(v, ino);
    if t.kind.Directory? {
      NodeDirectoryOk(v, t, ino, blk, parent, ns, used, blocks);
    } else {
      Childless(t);
    }
  }

  lemma Childless(t: Node)
    requires SourceTree.Scanned(t) && !t.kind.Directory?
    ensures NodeCount(t) == 1
  {
  }

  lemma {:induction false} ForestGathers(v: Volume, t: Node, ino: nat, blk: nat, parent: nat, ns: nat, used: nat,
                                         blocks: nat, n: nat)
    requires Wf(v) && OnVolume(v, t, ino, blk, parent, ns) && InUseUpto(v, used, blocks) && ino + NodeCount(t) <= used
    requires t.kind.Directory? && v.inodes[ino].kind == INODE_DIRECTORY && DirectoriesOk(v, v.sb.totalInodes)
    requires n <= |t.children| && 1 <= ino
    ensures ChildInode(t, ino, n) <= v.sb.totalInodes
    ensures EntriesTo(v, ChildInode(t, ino, n)) == EntriesTo(v, ino + 1) + ForestRecords(t, ino, n)
    decreases t, 0, n
  {
    hide OnVolume, DirectoriesOk, EntriesTo, NodesOf, Bitmap.Test, TreeRecords;
    if n == 0 {
      FirstChild(t, ino);
      assert EntriesTo(v, ino + 1) + [] == EntriesTo(v, ino + 1);
    } else {
      ForestGathers(v, t, ino, blk, parent, ns, used, blocks, n - 1);
      ChildFacts(v, t, ino, blk, parent, ns, n - 1);
      ChildUsed(t, ino, n - 1);
      var c, i := t.children[n - 1], ChildInode(t, ino, n - 1);
      TreeGathers(v, c, i, ChildBlock(t, blk, n - 1), ino, ns, used, blocks);
      var front, last := ForestRecords(t, ino, n - 1), TreeRecords(c, i, ino);
      assert EntriesTo(v, ino + 1) + front + last == EntriesTo(v, ino + 1) + (front + last);
    }
  }
}
