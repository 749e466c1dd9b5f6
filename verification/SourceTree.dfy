/** The source tree of mkfs.northstar and where everything goes (tools/mkfs_northstar.c): inode
    numbers in preorder, one run of blocks per node, directory blocks filled in order. */
module SourceTree {
  import opened Bytes
  import opened Paths
  import opened OnDisk
  import opened Inodes
  import opened Superblocks
  import opened Directories

  datatype Kind = Regular | Directory | Symlink

  /** A node as the scan of the source leaves it; only files and links have data, only directories
      children. */
  datatype Node = Node(name: seq<byte>, kind: Kind, mode: nat, data: seq<byte>, children: seq<Node>)

  /** node_type. */
  function KindCode(kind: Kind): nat
  {
    match kind
    case Regular => INODE_REGULAR
    case Directory => INODE_DIRECTORY
    case Symlink => INODE_SYMLINK
  }

  /** What the scan guarantees of names, modes and sizes, at every node. */
  predicate Scanned(t: Node)
  {
    && t.mode < 0x1000 && |t.data| <= MAX_FILE_SIZE
    && (t.kind.Directory? ==> t.data == []) && (!t.kind.Directory? ==> t.children == [])
    && (forall i, j :: 0 <= i < j < |t.children| ==> t.children[i].name != t.children[j].name)
    && (forall k :: 0 <= k < |t.children| ==> ChildName(t.children[k].name) && Scanned(t.children[k]))
  }

  predicate ChildName(name: seq<byte>)
  {
    NameOk(name) && name != DOT && name != DOTDOT
  }

  // ---------- inode numbers ----------

  /** The number of nodes. */
  function NodeCount(t: Node): (n: nat)
    ensures n > 0
  {
    1 + NodesOf(t.children)
  }

  function NodesOf(ts: seq<Node>): nat
  {
    if ts == [] then 0 else NodesOf(ts[..|ts| - 1]) + NodeCount(ts[|ts| - 1])
  }

  /** The inode number of child k of a node numbered `ino`. */
  function ChildInode(t: Node, ino: nat, k: nat): nat
    requires k <= |t.children|
  {
    ino + 1 + NodesOf(t.children[..k])
  }

  function Subdirectories(ts: seq<Node>): nat
  {
    if ts == [] then 0
    else Subdirectories(ts[..|ts| - 1]) + if ts[|ts| - 1].kind.Directory? then 1 else 0
  }

  function LinkCount(t: Node): nat
  {
    if t.kind.Directory? then 2 + Subdirectories(t.children) else 1
  }

  // ---------- directory records ----------

  function ChildRecords(t: Node, ino: nat): (rs: seq<Record>)
    ensures |rs| == |t.children|
  {
    seq(|t.children|, k requires 0 <= k < |t.children| =>
      Record(ChildInode(t, ino, k), KindCode(t.children[k].kind), t.children[k].name))
  }

  function DotRecords(ino: nat, parent: nat): seq<Record>
  {
    [Record(ino, INODE_DIRECTORY, DOT), Record(parent, INODE_DIRECTORY, DOTDOT)]
  }

  /** The records of a directory, in order. */
  function NodeRecords(t: Node, ino: nat, parent: nat): seq<Record>
  {
    DotRecords(ino, parent) + ChildRecords(t, ino)
  }

  function Need(r: Record): nat
  {
    DirentMin(|r.name|)
  }

  /** The bytes the records take with no slack. */
  function Used(rs: seq<Record>): nat
  {
    if rs == [] then 0 else Used(rs[..|rs| - 1]) + Need(rs[|rs| - 1])
  }

  /** The records of each directory block when the block holding `cur` is being filled: a record
      that does not fit starts a new block. */
  function Fill(cur: seq<Record>, rest: seq<Record>): (groups: seq<seq<Record>>)
    ensures |groups| > 0
    decreases |rest|
  {
    if rest == [] then [cur]
    else if Used(cur) + Need(rest[0]) > BLOCK_SIZE then [cur] + Fill([rest[0]], rest[1..])
    else Fill(cur + [rest[0]], rest[1..])
  }

  function Groups(t: Node, ino: nat, parent: nat): seq<seq<Record>>
  {
    Fill(DotRecords(ino, parent), ChildRecords(t, ino))
  }

  // ---------- blocks ----------

  /** The number of data blocks; for a directory it does not depend on the inode numbers. */
  function DataCount(t: Node): nat
  {
    if t.kind.Directory? then |Groups(t, 0, 0)| else CeilDiv(|t.data|, BLOCK_SIZE)
  }

  /** The blocks of the node itself, with its indirect block. */
  function OwnBlocks(t: Node): nat
  {
    DataCount(t) + if DataCount(t) > DIRECT_BLOCKS then 1 else 0
  }

  function Blocks(t: Node): nat
  {
    OwnBlocks(t) + BlocksOf(t.children)
  }

  function BlocksOf(ts: seq<Node>): nat
  {
    if ts == [] then 0 else BlocksOf(ts[..|ts| - 1]) + Blocks(ts[|ts| - 1])
  }

  /** Where the blocks of child k of a node whose blocks start at `blk` start. */
  function ChildBlock(t: Node, blk: nat, k: nat): nat
    requires k <= |t.children|
  {
    blk + OwnBlocks(t) + BlocksOf(t.children[..k])
  }

  /** Data block k of a node whose blocks start at `blk`: the indirect block, if any, comes first. */
  function DataBlock(t: Node, blk: nat, k: nat): nat
  {
    blk + (if DataCount(t) > DIRECT_BLOCKS then 1 else 0) + k
  }

  /** No node needs more blocks than an inode can hold. */
  predicate Representable(t: Node)
  {
    DataCount(t) <= MAX_FILE_BLOCKS && forall k :: 0 <= k < |t.children| ==> Representable(t.children[k])
  }
}
