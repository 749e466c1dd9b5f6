/** What a check knows while it runs (tools/fsck_northstar.c, struct fsck_context). */
module FsckContext {
  import opened OnDisk
  import opened Volumes

  const NO_OWNER: nat := UINT32_MAX
  const METADATA_OWNER: nat := UINT32_MAX - 1
  const NO_PARENT: nat := UINT32_MAX

  /** A place in the edge list, or none. */
  datatype Link = NoEdge | At(index: nat)

  datatype Edge = Edge(child: nat, next: Link)

  class Context {
    const volume: Volume
    var blockOwner: seq<nat>
    var linkReferences: seq<nat>
    var declaredParent: seq<nat>
    var entryParent: seq<nat>
    var directoryParentCount: seq<nat>
    var reachable: seq<bool>
    var edgeHeads: seq<Link>
    var edges: seq<Edge>

    /** allocate_state. */
    constructor (volume: Volume)
      ensures this.volume == volume
      ensures blockOwner == seq(volume.sb.totalBlocks, _ => NO_OWNER)
      ensures linkReferences == seq(volume.sb.totalInodes, _ => 0)
      ensures declaredParent == seq(volume.sb.totalInodes, _ => NO_PARENT)
      ensures entryParent == seq(volume.sb.totalInodes, _ => NO_PARENT)
      ensures directoryParentCount == seq(volume.sb.totalInodes, _ => 0)
      ensures reachable == seq(volume.sb.totalInodes, _ => false)
      ensures edgeHeads == seq(volume.sb.totalInodes, _ => NoEdge) && edges == []
    {
      this.volume := volume;
      blockOwner := seq(volume.sb.totalBlocks, _ => NO_OWNER);
      linkReferences := seq(volume.sb.totalInodes, _ => 0);
      declaredParent := seq(volume.sb.totalInodes, _ => NO_PARENT);
      entryParent := seq(volume.sb.totalInodes, _ => NO_PARENT);
      directoryParentCount := seq(volume.sb.totalInodes, _ => 0);
      reachable := seq(volume.sb.totalInodes, _ => false);
      edgeHeads := seq(volume.sb.totalInodes, _ => NoEdge);
      edges := [];
    }
  }
}
