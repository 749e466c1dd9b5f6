/** Directory contents of a volume: the records of a directory block, of a directory, and of all
    directories, and what fsck demands of them (tools/fsck_northstar.c, process_dirent and
    validate_directory). */
module Directories {
  import opened Sequences
  import opened Bytes
  import opened Paths
  import opened OnDisk
  import opened Inodes
  import opened Volumes

  /** A directory record; inode zero is a hole. */
  datatype Record = Record(inode: nat, kind: nat, name: seq<byte>)

  // ---------- the records of a block ----------

  predicate RecordFits(b: Block, offset: nat, limit: nat)
    requires offset <= limit <= BLOCK_SIZE
  {
    && DIRENT_HEADER_SIZE <= limit - offset
    && var d := DirentAt(b, offset);
    && DIRENT_HEADER_SIZE <= d.recLen <= limit - offset && d.recLen % 4 == 0 && DirentMin(d.nameLen) <= d.recLen
  }

  function RecordAt(b: Block, offset: nat, limit: nat): Record
    requires offset <= limit <= BLOCK_SIZE && RecordFits(b, offset, limit)
  {
    var d := DirentAt(b, offset);
    Record(d.inode, d.kind, b[offset + DIRENT_HEADER_SIZE..offset + DIRENT_HEADER_SIZE + d.nameLen])
  }

  function NextOffset(b: Block, offset: nat, limit: nat): (r: nat)
    requires offset <= limit <= BLOCK_SIZE && RecordFits(b, offset, limit)
    ensures offset < r <= limit
  {
    offset + DirentAt(b, offset).recLen
  }

  /** From the offset on, records fill the block up to the limit exactly. */
  predicate Tiles(b: Block, offset: nat, limit: nat)
    requires offset <= limit <= BLOCK_SIZE
    decreases limit - offset
  {
    offset == limit || (RecordFits(b, offset, limit) && Tiles(b, NextOffset(b, offset, limit), limit))
  }

  function Records(b: Block, offset: nat, limit: nat): seq<Record>
    requires offset <= limit <= BLOCK_SIZE && Tiles(b, offset, limit)
    decreases limit - offset
  {
    if offset == limit then []
    else [RecordAt(b, offset, limit)] + Records(b, NextOffset(b, offset, limit), limit)
  }

  // ---------- the records of a directory ----------

  /** inode_data_block: the block number of logical block k, zero when there is none. */
  function LogicalBlock(v: Volume, i: Inode, k: nat): nat
    requires |i.direct| == DIRECT_BLOCKS
  {
    if k < DIRECT_BLOCKS then i.direct[k]
    else if i.indirect == 0 || i.indirect >= |v.image| || k - DIRECT_BLOCKS >= INDIRECT_BLOCKS then 0
    else Entries(v.image[i.indirect])[k - DIRECT_BLOCKS]
  }

  /** How much of logical block k belongs to the inode. */
  function Limit(i: Inode, k: nat): (r: nat)
    requires k < DataBlocks(i)
    ensures 0 < r <= BLOCK_SIZE
  {
    if i.size - k * BLOCK_SIZE < BLOCK_SIZE then i.size - k * BLOCK_SIZE else BLOCK_SIZE
  }

  predicate DirBlockOk(v: Volume, i: Inode, k: nat)
    requires Wf(v) && |i.direct| == DIRECT_BLOCKS && k < DataBlocks(i)
  {
    InDataArea(v, LogicalBlock(v, i, k)) && Tiles(v.image[LogicalBlock(v, i, k)], 0, Limit(i, k))
  }

  predicate DirBlocksOk(v: Volume, i: Inode, n: nat)
    requires Wf(v) && |i.direct| == DIRECT_BLOCKS && n <= DataBlocks(i)
  {
    forall k :: 0 <= k < n ==> DirBlockOk(v, i, k)
  }

  function RecordsUpto(v: Volume, i: Inode, n: nat): seq<Record>
    requires Wf(v) && |i.direct| == DIRECT_BLOCKS && n <= DataBlocks(i) && DirBlocksOk(v, i, n)
  {
    if n == 0 then []
    else
      assert DirBlockOk(v, i, n - 1);
      RecordsUpto(v, i, n - 1) + Records(v.image[LogicalBlock(v, i, n - 1)], 0, Limit(i, n - 1))
  }

  predicate NameOk(name: seq<byte>)
  {
    0 < |name| <= NAME_MAX && forall k :: 0 <= k < |name| ==> name[k] != 0 && name[k] != SLASH
  }

  predicate RecordOk(v: Volume, d: nat, r: Record)
    requires Wf(v)
  {
    if r.inode == 0 then r.name == [] && r.kind == 0
    else
      && NameOk(r.name)
      && r.inode < v.sb.totalInodes && Allocated(v, r.inode)
      && ValidKind(r.kind) && r.kind == v.inodes[r.inode].kind
      && (r.name == DOT ==> r.inode == d && r.kind == INODE_DIRECTORY)
      && (r.name == DOTDOT ==> r.kind == INODE_DIRECTORY)
  }

  predicate RecordsOk(v: Volume, d: nat, rs: seq<Record>)
    requires Wf(v)
  {
    forall k :: 0 <= k < |rs| ==> RecordOk(v, d, rs[k])
  }

  /** The names of the records that are not holes. */
  function NamesOf(rs: seq<Record>): seq<seq<byte>>
  {
    if rs == [] then []
    else NamesOf(rs[..|rs| - 1]) + if rs[|rs| - 1].inode == 0 then [] else [rs[|rs| - 1].name]
  }

  function Occurrences(names: seq<seq<byte>>, x: seq<byte>): nat
  {
    if names == [] then 0
    else Occurrences(names[..|names| - 1], x) + if names[|names| - 1] == x then 1 else 0
  }

  /** What validate_directory demands of directory d. */
  predicate DirectoryOk(v: Volume, d: nat)
    requires Wf(v) && d < v.sb.totalInodes
  {
    var i := v.inodes[d];
    && 0 < i.size <= UINT64_MAX - (BLOCK_SIZE - 1)
    && DirBlocksOk(v, i, DataBlocks(i))
    && var rs := RecordsUpto(v, i, DataBlocks(i));
    && RecordsOk(v, d, rs)
    && Occurrences(NamesOf(rs), DOT) == 1 && Occurrences(NamesOf(rs), DOTDOT) == 1
    && Distinct(NamesOf(rs))
  }

  // ---------- all records ----------

  /** A record and the directory it is in. */
  datatype Entry = Entry(dir: nat, record: Record)

  function EntriesOf(d: nat, rs: seq<Record>): (es: seq<Entry>)
    ensures |es| == |rs|
  {
    seq(|rs|, k requires 0 <= k < |rs| => Entry(d, rs[k]))
  }

  predicate IsDirectory(v: Volume, n: nat)
    requires Wf(v) && n < v.sb.totalInodes
  {
    Allocated(v, n) && v.inodes[n].kind == INODE_DIRECTORY
  }

  predicate DirectoriesOk(v: Volume, n: nat)
    requires Wf(v) && n <= v.sb.totalInodes
  {
    forall m :: 1 <= m < n && IsDirectory(v, m) ==> DirectoryOk(v, m)
  }

  function DirRecords(v: Volume, d: nat): seq<Record>
    requires Wf(v) && d < v.sb.totalInodes && DirectoryOk(v, d)
  {
    RecordsUpto(v, v.inodes[d], DataBlocks(v.inodes[d]))
  }

  /** The records of the directories below n, in order. */
  function EntriesUpto(v: Volume, n: nat): seq<Entry>
    requires Wf(v) && n <= v.sb.totalInodes && DirectoriesOk(v, n)
  {
    if n <= 1 then []
    else EntriesUpto(v, n - 1) + if IsDirectory(v, n - 1) then EntriesOf(n - 1, DirRecords(v, n - 1)) else []
  }

  /** How many records name inode i. */
  function Naming(es: seq<Entry>, i: nat): (c: nat)
    ensures c <= |es|
  {
    if es == [] then 0
    else Naming(es[..|es| - 1], i) + if es[|es| - 1].record.inode == i then 1 else 0
  }

  /** A record that makes its inode a child of the directory. */
  predicate Plain(r: Record)
  {
    r.inode != 0 && r.name != DOT && r.name != DOTDOT
  }

  predicate IsChild(e: Entry, i: nat)
  {
    Plain(e.record) && e.record.inode == i
  }

  /** How many records make inode i a child. */
  function Parents(es: seq<Entry>, i: nat): (c: nat)
    ensures c <= |es|
  {
    if es == [] then 0 else Parents(es[..|es| - 1], i) + if IsChild(es[|es| - 1], i) then 1 else 0
  }

  /** Reference counts of 64 bits can hold the record counts. */
  ghost predicate Countable(es: seq<Entry>)
  {
    forall i: nat :: i > 0 ==> Naming(es, i) <= UINT64_MAX
  }

  /** What validate_directories demands. */
  ghost predicate NamespaceOk(v: Volume)
    requires Wf(v)
  {
    && IsDirectory(v, ROOT_INODE)
    && DirectoriesOk(v, v.sb.totalInodes)
    && Countable(EntriesUpto(v, v.sb.totalInodes))
  }

  /** All records of all directories. */
  ghost function AllEntries(v: Volume): seq<Entry>
    requires Wf(v) && NamespaceOk(v)
  {
    EntriesUpto(v, v.sb.totalInodes)
  }
}
