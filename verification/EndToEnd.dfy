/** The host tools one after the other: format an image from a source tree, check it, and read a file
    back by its path (tools/mkfs_northstar.c, fsck_northstar.c and nsfs_inspect.c). */
module EndToEnd {
  import opened Wrappers
  import opened Bytes
  import opened Paths
  import opened OnDisk
  import opened Inodes
  import opened HostImage
  import opened SourceTree
  import opened Mkfs
  import opened MkfsFormat
  import opened MkfsAccepted
  import opened FsckRun
  import opened Inspect
  import opened RoundTrip
  import opened TreeImage

  /** Whenever formatting succeeds, the check accepts the image, and any path that spells the place
      of a file or link leads to exactly the bytes it had in the source tree. */
  method FormatCheckRead(ctx: Context, o: Options, t: Node, force: bool, place: seq<nat>, path: seq<byte>)
    returns (ok: bool, status: nat, completed: bool, readable: bool, bytes: seq<byte>)
    requires OptionsOk(o) && SourceTree.Scanned(t) && t.kind.Directory?
    requires ValidPlace(t, place) && Tokens(path) == NamesOn(t, place) && 0 < |path| <= PATH_MAX
    modifies ctx, ctx.inodeBitmap, ctx.blockBitmap
    ensures ok ==> status == 0 && completed
    ensures ok ==> (readable <==> !NodeOn(t, place).kind.Directory?)
    ensures ok && readable ==> bytes == NodeOn(t, place).data
  {
    hide Formatted, Accepts, Scanned, LoadSuper, FetchInode, Tokens, NamesOn, ReadsContent;
    status, completed, readable, bytes := 2, false, false, [];
    ok := Format(ctx, o, t, force);
    if !ok {
      return;
    }
    ghost var ns := o.epochSeconds * NS_PER_SECOND;
    FormattedAccepted(ctx.image, ctx.sb, t, ns);
    var image := new Image(ctx.image);
    status, completed := Fsck(image, false, false);
    PathRoundTrip(ctx.image, ctx.sb, t, ns, place, path);
    ContentRoundTrip(ctx.image, ctx.sb, t, ns, place);
    var s := LoadSuper(ctx.image);
    var found, number := LookupPath(ctx.image, s.value, path);
    var inode := FetchInode(ctx.image, s.value, number);
    readable, bytes := Cat(ctx.image, s.value, inode.value);
    CatIs(ctx.image, ctx.sb, t, ns, place, inode.value, readable, bytes);
  }

  /** What printing the inode of a node yields. */
  lemma CatIs(image: seq<Block>, s: Superblock, t: Node, ns: nat, place: seq<nat>, i: Inode, readable: bool,
              bytes: seq<byte>)
    requires ValidPlace(t, place) && ReadsContent(image, s, t, ns, place) && |i.direct| == DIRECT_BLOCKS
    requires i == InodeFor(NodeOn(t, place), BlockOn(t, s.dataStart, place), ns)
    requires readable <==> Printable(image, s, i)
    requires readable ==> |bytes| == i.size && forall j :: 0 <= j < i.size ==>
      FileBlock(image, s, i, j / BLOCK_SIZE).Some? && bytes[j] == FileByte(image, s, i, j)
    ensures readable <==> !NodeOn(t, place).kind.Directory?
    ensures readable ==> bytes == NodeOn(t, place).data
  {
    hide FileBlock, WalkOf, NodeRecords, InodeFor;
    DirectoryInode(NodeOn(t, place), BlockOn(t, s.dataStart, place), ns);
  }

  lemma DirectoryInode(t: Node, blk: nat, ns: nat)
    ensures t.kind.Directory? ==> InodeFor(t, blk, ns).kind == INODE_DIRECTORY
  {
    hide InodeChecksum, DataCount;
  }
}
