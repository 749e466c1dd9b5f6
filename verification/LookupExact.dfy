/** What a path leads to (tools/nsfs_inspect.c, lookup_path): on any image a chain of records, and on an
    image mkfs.northstar wrote exactly the node the path names, or nothing if it names none. */
module LookupExact {
  import opened Wrappers
  import opened Bytes
  import opened Paths
  import opened OnDisk
  import opened Inodes
  import opened Superblocks
  import opened Volumes
  import opened Directories
  import opened SourceTree
  import opened TreeImage
  import opened VolumeTree
  import opened MkfsBlocks
  import opened MkfsNames
  import opened MkfsFormat
  import opened Inspect
  import opened RoundTrip
  import FsckSuper

  // ---------- any image ----------

  /** Some block of the directory holds, at some offset, a record with that name for that inode. */
  predicate RecordIn(image: seq<Block>, s: Superblock, i: Inode, k: nat, at: nat, name: seq<byte>, n: nat)
    requires |i.direct| == DIRECT_BLOCKS
  {
    && k < DataBlocks(i) && FileBlock(image, s, i, k).Some?
    && var b := image[FileBlock(image, s, i, k).value];
    && RecordWith(b, at, Limit(i, k), name, n)
  }

  predicate RecordWith(b: Block, at: nat, limit: nat, name: seq<byte>, n: nat)
    requires limit <= BLOCK_SIZE
  {
    && at <= limit && RecordFits(b, at, limit)
    && RecordAt(b, at, limit).name == name && RecordAt(b, at, limit).inode == n
  }

  lemma {:induction false} ScanRecord(b: Block, offset: nat, limit: nat, name: seq<byte>) returns (at: nat)
    requires offset <= limit <= BLOCK_SIZE && Scan(b, offset, limit, Some(name)).status == 1
    ensures var w := Scan(b, offset, limit, Some(name));
      w.visited != [] && RecordWith(b, at, limit, name, w.visited[|w.visited| - 1].inode)
      && w.visited[|w.visited| - 1].inode != 0
    decreases limit - offset
  {
    hide RecordFits, RecordAt, NextOffset, EntryName;
    var r, next := RecordAt(b, offset, limit), NextOffset(b, offset, limit);
    if r.inode != 0 && r.name == name {
      at := offset;
    } else {
      at := ScanRecord(b, next, limit, name);
    }
  }

  lemma {:induction false} WalkRecord(image: seq<Block>, s: Superblock, i: Inode, from: nat, name: seq<byte>)
    returns (k: nat, at: nat)
    requires |i.direct| == DIRECT_BLOCKS && from <= DataBlocks(i) && ScanFrom(image, s, i, from, Some(name)).status == 1
    ensures var w := ScanFrom(image, s, i, from, Some(name));
      w.visited != [] && RecordIn(image, s, i, k, at, name, w.visited[|w.visited| - 1].inode)
      && w.visited[|w.visited| - 1].inode != 0
    decreases DataBlocks(i) - from
  {
    hide DataBlocks, FileBlock, Limit, Scan, RecordWith;
    var b := FileBlock(image, s, i, from).value;
    var w := Scan(image[b], 0, Limit(i, from), Some(name));
    if w.status == 1 {
      at := ScanRecord(image[b], 0, Limit(i, from), name);
      k := from;
    } else {
      k, at := WalkRecord(image, s, i, from + 1, name);
    }
  }

  /** The directory has a record of that name for that inode. */
  ghost predicate Names(image: seq<Block>, s: Superblock, dir: nat, name: seq<byte>, n: nat)
  {
    && FetchInode(image, s, dir).Some?
    && var i := FetchInode(image, s, dir).value;
    && i.kind == INODE_DIRECTORY && n != 0
    && exists k, at :: RecordIn(image, s, i, k, at, name, n)
  }

  /** One step of a lookup follows a record of the directory. */
  lemma DescendNames(image: seq<Block>, s: Superblock, dir: nat, name: seq<byte>)
    requires Descend(image, s, dir, name).Some?
    ensures Names(image, s, dir, name, Descend(image, s, dir, name).value)
  {
    hide FetchInode, ScanFrom, RecordIn, DataBlocks;
    var i := FetchInode(image, s, dir).value;
    var k, at := WalkRecord(image, s, i, 0, name);
  }

  /** The inodes lead from the root along the names: a dot stays, any other name is a record. */
  ghost predicate Leads(image: seq<Block>, s: Superblock, names: seq<seq<byte>>, inodes: seq<nat>)
  {
    && |inodes| == |names| + 1
    && forall k :: 0 <= k < |names| ==> Link(image, s, inodes, names[k], k)
  }

  ghost predicate Link(image: seq<Block>, s: Superblock, inodes: seq<nat>, name: seq<byte>, k: nat)
    requires k + 1 < |inodes|
  {
    if name == DOT then inodes[k + 1] == inodes[k] else Names(image, s, inodes[k], name, inodes[k + 1])
  }

  lemma {:induction false} ResolveLeads(image: seq<Block>, s: Superblock, current: nat, names: seq<seq<byte>>)
    returns (inodes: seq<nat>)
    requires Resolve(image, s, current, names).Some?
    ensures Leads(image, s, names, inodes) && inodes[0] == current
    ensures inodes[|names|] == Resolve(image, s, current, names).value
    decreases |names|
  {
    hide Descend, Names;
    if names == [] {
      inodes := [current];
    } else {
      var next := if names[0] == DOT then current else Descend(image, s, current, names[0]).value;
      if names[0] != DOT { DescendNames(image, s, current, names[0]); }
      var rest := ResolveLeads(image, s, next, names[1..]);
      inodes := [current] + rest;
      forall k | 0 <= k < |names|
        ensures Link(image, s, inodes, names[k], k)
      {
        if k > 0 { assert Link(image, s, rest, names[1..][k - 1], k - 1); }
      }
    }
  }

  /** On any image a successful lookup followed records from the root to an inode that can be read. */
  lemma LookupLeads(image: seq<Block>, s: Superblock, path: seq<byte>) returns (inodes: seq<nat>)
    requires Lookup(image, s, path).Some?
    ensures var n := Lookup(image, s, path).value;
      && Leads(image, s, Tokens(path), inodes) && inodes[0] == ROOT_INODE && inodes[|Tokens(path)|] == n
      && FetchInode(image, s, n).Some?
  {
    hide Resolve, FetchInode, Tokens, Leads;
    inodes := ResolveLeads(image, s, ROOT_INODE, Tokens(path));
  }

  // ---------- whole directories ----------

  /** The records in use. */
  function InUseOnly(rs: seq<Record>): seq<Record>
  {
    if rs == [] then [] else (if rs[0].inode == 0 then [] else [rs[0]]) + InUseOnly(rs[1..])
  }

  predicate Named(rs: seq<Record>)
  {
    forall k :: 0 <= k < |rs| && rs[k].inode != 0 ==> EntryName(rs[k].name)
  }

  lemma {:induction false} DeliverMeans(rs: seq<Record>)
    ensures var w := Deliver(rs, None);
      && (w.status == 0 <==> Named(rs)) && (w.status == 0 ==> w.visited == InUseOnly(rs)) && w.status <= 0
  {
    hide EntryName;
    if rs != [] {
      DeliverMeans(rs[1..]);
      assert Named(rs) <==> (rs[0].inode != 0 ==> EntryName(rs[0].name)) && Named(rs[1..]);
      assert [] + InUseOnly(rs[1..]) == InUseOnly(rs[1..]);
    }
  }

  lemma {:induction false} ScanMeans(b: Block, offset: nat, limit: nat)
    requires offset <= limit <= BLOCK_SIZE
    ensures var w := Scan(b, offset, limit, None);
      && (w.status == 0 ==> Tiles(b, offset, limit)) && w.status <= 0
    decreases limit - offset
  {
    hide RecordFits, RecordAt, NextOffset, EntryName;
    if offset < limit && RecordFits(b, offset, limit) { ScanMeans(b, NextOffset(b, offset, limit), limit); }
  }

  /** The block is one the tool may read, and named records fill it. */
  predicate WholeBlock(image: seq<Block>, s: Superblock, i: Inode, k: nat)
    requires |i.direct| == DIRECT_BLOCKS && k < DataBlocks(i)
  {
    && FileBlock(image, s, i, k).Some?
    && var b := image[FileBlock(image, s, i, k).value];
    && Tiles(b, 0, Limit(i, k)) && Named(Records(b, 0, Limit(i, k)))
  }

  /** The records in use of the blocks from block k on. */
  function ListedFrom(image: seq<Block>, s: Superblock, i: Inode, k: nat): seq<Record>
    requires |i.direct| == DIRECT_BLOCKS && k <= DataBlocks(i)
    requires forall j :: k <= j < DataBlocks(i) ==> WholeBlock(image, s, i, j)
    decreases DataBlocks(i) - k
  {
    if k == DataBlocks(i) then []
    else
      assert WholeBlock(image, s, i, k);
      InUseOnly(Records(image[FileBlock(image, s, i, k).value], 0, Limit(i, k))) + ListedFrom(image, s, i, k + 1)
  }

  lemma BlockMeans(image: seq<Block>, s: Superblock, i: Inode, k: nat)
    requires |i.direct| == DIRECT_BLOCKS && k < DataBlocks(i) && FileBlock(image, s, i, k).Some?
    ensures var b := image[FileBlock(image, s, i, k).value]; var w := Scan(b, 0, Limit(i, k), None);
      && (w.status == 0 <==> WholeBlock(image, s, i, k)) && w.status <= 0
      && (w.status == 0 ==> w.visited == InUseOnly(Records(b, 0, Limit(i, k))))
  {
    hide FileBlock, Limit, DataBlocks, Scan, Tiles, Named;
    var b := image[FileBlock(image, s, i, k).value];
    ScanMeans(b, 0, Limit(i, k));
    if Tiles(b, 0, Limit(i, k)) {
      ScanTiled(b, 0, Limit(i, k), None);
      DeliverMeans(Records(b, 0, Limit(i, k)));
    }
  }

  lemma {:induction false} ScanFromMeans(image: seq<Block>, s: Superblock, i: Inode, k: nat)
    requires |i.direct| == DIRECT_BLOCKS && k <= DataBlocks(i)
    ensures ScanFrom(image, s, i, k, None).status == 0 <==>
      forall j :: k <= j < DataBlocks(i) ==> WholeBlock(image, s, i, j)
    ensures ScanFrom(image, s, i, k, None).status == 0 ==>
      ScanFrom(image, s, i, k, None).visited == ListedFrom(image, s, i, k)
    decreases DataBlocks(i) - k
  {
    hide FileBlock, Limit, DataBlocks, Scan, WholeBlock;
    if k < DataBlocks(i) {
      ScanFromMeans(image, s, i, k + 1);
      if FileBlock(image, s, i, k).Some? {
        BlockMeans(image, s, i, k);
      } else {
        NotWhole(image, s, i, k);
      }
    }
  }

  lemma NotWhole(image: seq<Block>, s: Superblock, i: Inode, k: nat)
    requires |i.direct| == DIRECT_BLOCKS && k < DataBlocks(i) && FileBlock(image, s, i, k).None?
    ensures !WholeBlock(image, s, i, k)
  {
  }

  /** On any image: walking a directory comes to its end exactly when the inode is a directory of
      permitted size and named records fill every block, and then it visits the records in use in order. */
  lemma WalkExactly(image: seq<Block>, s: Superblock, i: Inode)
    requires |i.direct| == DIRECT_BLOCKS
    ensures WalkOf(image, s, i, None).status == 0 <==>
      WalkableKind(i) && forall k :: 0 <= k < DataBlocks(i) ==> WholeBlock(image, s, i, k)
    ensures WalkOf(image, s, i, None).status == 0 ==>
      WalkOf(image, s, i, None).visited == ListedFrom(image, s, i, 0)
  {
    hide DataBlocks, WholeBlock, ScanFrom;
    ScanFromMeans(image, s, i, 0);
  }

  // ---------- the tree of a formatted image ----------

  /** The child of that name, from child k on. */
  function ChildNamed(t: Node, name: seq<byte>, k: nat): (r: Option<nat>)
    requires k <= |t.children|
    ensures r.Some? ==> k <= r.value < |t.children| && t.children[r.value].name == name
    ensures r.None? ==> forall j :: k <= j < |t.children| ==> t.children[j].name != name
    decreases |t.children| - k
  {
    if k == |t.children| then None
    else if t.children[k].name == name then Some(k)
    else ChildNamed(t, name, k + 1)
  }

  /** Where names lead in a tree: a dot stays, two dots go to the directory above and stay at the root, any
      other name goes to the child so called. */
  function Follow(t: Node, place: seq<nat>, names: seq<seq<byte>>): (r: Option<seq<nat>>)
    requires ValidPlace(t, place)
    ensures r.Some? ==> ValidPlace(t, r.value)
    decreases |names|
  {
    if names == [] then Some(place)
    else if names[0] == DOT then Follow(t, place, names[1..])
    else if names[0] == DOTDOT then
      if !NodeOn(t, place).kind.Directory? then None
      else PlaceLess(t, place); Follow(t, Above(place), names[1..])
    else match ChildNamed(NodeOn(t, place), names[0], 0)
      case None => None
      case Some(k) => PlaceMore(t, place, k); Follow(t, place + [k], names[1..])
  }

  /** The inode number of the node there. */
  function Followed(t: Node, place: seq<nat>, names: seq<seq<byte>>): Option<nat>
    requires ValidPlace(t, place)
  {
    match Follow(t, place, names)
    case None => None
    case Some(end) => Some(InodeOn(t, ROOT_INODE, end))
  }

  function Above(place: seq<nat>): seq<nat>
  {
    if place == [] then [] else place[..|place| - 1]
  }

  lemma {:induction false} PlaceLess(t: Node, place: seq<nat>)
    requires ValidPlace(t, place)
    ensures ValidPlace(t, Above(place))
    decreases |place|
  {
    if |place| > 1 {
      PlaceLess(t.children[place[0]], place[1..]);
      assert Above(place)[1..] == Above(place[1..]);
    }
  }

  lemma {:induction false} PlaceMore(t: Node, place: seq<nat>, k: nat)
    requires ValidPlace(t, place) && k < |NodeOn(t, place).children|
    ensures ValidPlace(t, place + [k]) && NodeOn(t, place + [k]) == NodeOn(t, place).children[k]
    ensures NamesOn(t, place + [k]) == NamesOn(t, place) + [NodeOn(t, place).children[k].name]
    decreases |place|
  {
    if place == [] {
      assert (place + [k])[1..] == [];
    } else {
      PlaceMore(t.children[place[0]], place[1..], k);
      assert (place + [k])[1..] == place[1..] + [k];
    }
  }

  lemma {:induction false} InodeMore(t: Node, ino: nat, place: seq<nat>, k: nat)
    requires ValidPlace(t, place) && k < |NodeOn(t, place).children| && ValidPlace(t, place + [k])
    ensures InodeOn(t, ino, place + [k]) == ChildInode(NodeOn(t, place), InodeOn(t, ino, place), k)
    decreases |place|
  {
    hide ChildInode;
    if place == [] {
      assert (place + [k])[1..] == [];
    } else {
      assert (place + [k])[1..] == place[1..] + [k];
      InodeMore(t.children[place[0]], ChildInode(t, ino, place[0]), place[1..], k);
    }
  }

  lemma {:induction false} ParentIs(t: Node, ino: nat, parent: nat, place: seq<nat>)
    requires ValidPlace(t, place) && ValidPlace(t, Above(place))
    ensures ParentOn(t, ino, parent, place) == if place == [] then parent else InodeOn(t, ino, Above(place))
    decreases |place|
  {
    hide ChildInode;
    if |place| == 1 {
      assert place[1..] == [];
    } else if |place| > 1 {
      assert Above(place)[1..] == Above(place[1..]);
      ParentIs(t.children[place[0]], ChildInode(t, ino, place[0]), ino, place[1..]);
    }
  }

  // ---------- one step on a formatted image ----------

  lemma {:induction false} DeliverNone(rs: seq<Record>, name: seq<byte>)
    requires Proper(rs) && forall k :: 0 <= k < |rs| ==> rs[k].name != name
    ensures Deliver(rs, Some(name)).status == 0
  {
    hide EntryName;
    if rs != [] { DeliverNone(rs[1..], name); }
  }

  /** A name that is neither a dot nor a child's is not found. */
  lemma DescendMissing(v: Volume, image: seq<Block>, s: Superblock, t: Node, ino: nat, blk: nat, parent: nat, ns: nat,
                       name: seq<byte>)
    requires Holds(v, image, s, t, ino, blk, parent, ns) && name != DOT && name != DOTDOT
    requires forall k :: 0 <= k < |t.children| ==> t.children[k].name != name
    ensures Descend(image, s, ino, name).None?
  {
    hide OnVolume, InodeFor, WalkOf, Deliver, InodesLoaded, Wf, FetchInode, NodesOf;
    OwnFacts(v, t, ino, blk, parent, ns);
    FetchNode(v, image, s, t, ino, blk, parent, ns);
    KindOf(t, blk, ns);
    if t.kind.Directory? {
      var rs := NodeRecords(t, ino, parent);
      WalkIs(v, image, s, t, ino, blk, parent, ns, Some(name));
      RecordsProper(t, ino, parent);
      DeliverNone(rs, name);
    }
  }

  /** Two dots lead from a directory to the one above it, and from anything else nowhere. */
  lemma DescendUp(v: Volume, image: seq<Block>, s: Superblock, t: Node, ino: nat, blk: nat, parent: nat, ns: nat)
    requires Holds(v, image, s, t, ino, blk, parent, ns)
    ensures Descend(image, s, ino, DOTDOT) == if t.kind.Directory? then Some(parent) else None
  {
    hide OnVolume, InodeFor, WalkOf, Deliver, InodesLoaded, Wf, FetchInode, NodesOf;
    OwnFacts(v, t, ino, blk, parent, ns);
    FetchNode(v, image, s, t, ino, blk, parent, ns);
    KindOf(t, blk, ns);
    if t.kind.Directory? {
      var rs := NodeRecords(t, ino, parent);
      WalkIs(v, image, s, t, ino, blk, parent, ns, Some(DOTDOT));
      RecordsProper(t, ino, parent);
      DeliverFind(rs, 1, DOTDOT);
    }
  }

  /** Resolving names on the image is following them in the tree. */
  lemma {:induction false} ResolveFollows(v: Volume, image: seq<Block>, s: Superblock, t: Node, blk: nat, ns: nat,
                                          place: seq<nat>, names: seq<seq<byte>>)
    requires Holds(v, image, s, t, ROOT_INODE, blk, ROOT_INODE, ns) && ValidPlace(t, place)
    ensures Resolve(image, s, InodeOn(t, ROOT_INODE, place), names) == Followed(t, place, names)
    decreases |names|
  {
    hide Holds, Descend, ChildInode, ChildNamed;
    if names != [] {
      var node, ino, rest := NodeOn(t, place), InodeOn(t, ROOT_INODE, place), names[1..];
      var at, parent := BlockOn(t, blk, place), ParentOn(t, ROOT_INODE, ROOT_INODE, place);
      HoldsOn(v, image, s, t, ROOT_INODE, blk, ROOT_INODE, ns, place);
      if names[0] == DOT {
        ResolveFollows(v, image, s, t, blk, ns, place, rest);
      } else if names[0] == DOTDOT {
        DescendUp(v, image, s, node, ino, at, parent, ns);
        PlaceLess(t, place);
        ParentIs(t, ROOT_INODE, ROOT_INODE, place);
        ResolveFollows(v, image, s, t, blk, ns, Above(place), rest);
      } else {
        match ChildNamed(node, names[0], 0)
        case None =>
          DescendMissing(v, image, s, node, ino, at, parent, ns, names[0]);
        case Some(k) =>
          DescendIs(v, image, s, node, ino, at, parent, ns, k);
          PlaceMore(t, place, k);
          InodeMore(t, ROOT_INODE, place, k);
          ResolveFollows(v, image, s, t, blk, ns, place + [k], rest);
      }
    }
  }

  /** On a formatted image a path of permitted length leads exactly where its components lead in the
      tree, and nowhere if they lead nowhere. */
  lemma LookupExactly(image: seq<Block>, s: Superblock, t: Node, ns: nat, path: seq<byte>)
    requires Formatted(image, s, t, ns) && 0 < |path| <= PATH_MAX
    ensures Lookup(image, s, path) == Followed(t, [], Tokens(path))
  {
    hide Formatted, Resolve, FetchInode, InodeFor, Holds, Tokens, Follow, FsckSuper.Load, LayoutValid;
    FormattedHolds(image, s, t, ns);
    var v := FsckSuper.Load(image, s);
    ResolveFollows(v, image, s, t, s.dataStart, ns, [], Tokens(path));
    var r := Follow(t, [], Tokens(path));
    if r.Some? {
      HoldsOn(v, image, s, t, ROOT_INODE, s.dataStart, ROOT_INODE, ns, r.value);
      FetchNode(v, image, s, NodeOn(t, r.value), InodeOn(t, ROOT_INODE, r.value), BlockOn(t, s.dataStart, r.value),
                ParentOn(t, ROOT_INODE, ROOT_INODE, r.value), ns);
    }
  }

  lemma {:induction false} FollowSpells(t: Node, place: seq<nat>, names: seq<seq<byte>>)
    requires ValidPlace(t, place) && DOT !in names && DOTDOT !in names
    ensures var r := Follow(t, place, names); r.Some? ==> NamesOn(t, r.value) == NamesOn(t, place) + names
    decreases |names|
  {
    hide ChildNamed, NamesOn;
    if names == [] {
      assert NamesOn(t, place) + names == NamesOn(t, place);
    } else {
      assert names[0] in names && forall n :: n in names[1..] ==> n in names;
      match ChildNamed(NodeOn(t, place), names[0], 0)
      case None =>
      case Some(k) =>
        PlaceMore(t, place, k);
        FollowSpells(t, place + [k], names[1..]);
        assert NamesOn(t, place) + [names[0]] + names[1..] == NamesOn(t, place) + names;
    }
  }

  /** So without dot components a path is found exactly when it spells the place of a node. */
  lemma LookupSpells(image: seq<Block>, s: Superblock, t: Node, ns: nat, path: seq<byte>)
    requires Formatted(image, s, t, ns) && 0 < |path| <= PATH_MAX && DOT !in Tokens(path) && DOTDOT !in Tokens(path)
    ensures Lookup(image, s, path).Some? <==> exists place :: ValidPlace(t, place) && NamesOn(t, place) == Tokens(path)
  {
    hide Formatted, Lookup, InodeFor, Tokens, Follow;
    LookupExactly(image, s, t, ns, path);
    FollowSpells(t, [], Tokens(path));
    var r := Follow(t, [], Tokens(path));
    if r.Some? { assert NamesOn(t, r.value) == Tokens(path); }
    if place :| ValidPlace(t, place) && NamesOn(t, place) == Tokens(path) {
      PathRoundTrip(image, s, t, ns, place, path);
    }
  }
}
