/** What the check records about directory entries: reference counts, parents, and edge lists
    (tools/fsck_northstar.c, append_edge and the context arrays of process_dirent). */
module FsckGraph {
  import opened Paths
  import opened OnDisk
  import opened Volumes
  import opened Directories
  import opened FsckContext

  // ---------- edge lists ----------

  predicate LinkOk(link: Link, bound: nat)
  {
    link.At? ==> link.index < bound
  }

  /** Heads point into the list, every edge points to an earlier one, and children are inodes. */
  predicate EdgesWf(edges: seq<Edge>, heads: seq<Link>, n: nat)
  {
    && |heads| == n
    && (forall p :: 0 <= p < n ==> LinkOk(heads[p], |edges|))
    && (forall e :: 0 <= e < |edges| ==> edges[e].child < n && LinkOk(edges[e].next, e))
  }

  predicate Downward(edges: seq<Edge>)
  {
    forall e :: 0 <= e < |edges| ==> LinkOk(edges[e].next, e)
  }

  /** The children on the list that starts at the link. */
  function Chain(edges: seq<Edge>, link: Link): set<nat>
    requires Downward(edges) && LinkOk(link, |edges|)
    decreases if link.At? then link.index + 1 else 0
  {
    if link.NoEdge? then {} else {edges[link.index].child} + Chain(edges, edges[link.index].next)
  }

  lemma {:induction false} ChainAppend(edges: seq<Edge>, link: Link, e: Edge)
    requires Downward(edges) && LinkOk(link, |edges|) && LinkOk(e.next, |edges|)
    ensures Downward(edges + [e]) && Chain(edges + [e], link) == Chain(edges, link)
    decreases if link.At? then link.index + 1 else 0
  {
    if link.At? {
      ChainAppend(edges, edges[link.index].next, e);
    }
  }

  // ---------- what the context says about the records seen so far ----------

  function Saturated(n: nat): nat
  {
    if n < UINT32_MAX then n else UINT32_MAX
  }

  /** The directory of the first record that makes i a child. */
  function FirstParent(es: seq<Entry>, i: nat): nat
    requires Parents(es, i) > 0
  {
    if Parents(es[..|es| - 1], i) > 0 then FirstParent(es[..|es| - 1], i) else es[|es| - 1].dir
  }

  predicate IsDotDot(e: Entry, d: nat)
  {
    e.dir == d && e.record.inode != 0 && e.record.name == DOTDOT
  }

  /** What the last `..` record of directory d names. */
  function LastDotDot(es: seq<Entry>, d: nat): nat
  {
    if es == [] then NO_PARENT
    else if IsDotDot(es[|es| - 1], d) then es[|es| - 1].record.inode
    else LastDotDot(es[..|es| - 1], d)
  }

  function Children(es: seq<Entry>, p: nat): set<nat>
  {
    if es == [] then {}
    else
      Children(es[..|es| - 1], p)
      + if es[|es| - 1].dir == p && Plain(es[|es| - 1].record) then {es[|es| - 1].record.inode} else {}
  }

  ghost predicate LinksFollow(links: seq<nat>, es: seq<Entry>)
  {
    forall i :: 0 < i < |links| ==> links[i] == Naming(es, i)
  }

  ghost predicate ParentsFollow(v: Volume, counts: seq<nat>, firsts: seq<nat>, es: seq<Entry>)
    requires Wf(v) && |counts| == |firsts| == |v.inodes|
  {
    forall i :: 0 < i < |counts| && v.inodes[i].kind == INODE_DIRECTORY ==>
      && counts[i] == Saturated(Parents(es, i))
      && (Parents(es, i) > 0 ==> firsts[i] == FirstParent(es, i))
  }

  ghost predicate DotDotFollow(declared: seq<nat>, es: seq<Entry>)
  {
    forall d :: 0 < d < |declared| ==> declared[d] == LastDotDot(es, d)
  }

  ghost predicate EdgesFollow(edges: seq<Edge>, heads: seq<Link>, es: seq<Entry>)
  {
    EdgesWf(edges, heads, |heads|) && forall p :: 0 <= p < |heads| ==> Chain(edges, heads[p]) == Children(es, p)
  }

  /** The arrays have one element per inode, and the edge lists are lists. */
  ghost predicate Shaped(ctx: Context)
    reads ctx`linkReferences, ctx`declaredParent, ctx`entryParent, ctx`directoryParentCount, ctx`reachable,
          ctx`edges, ctx`edgeHeads
  {
    var n := |ctx.volume.inodes|;
    && |ctx.linkReferences| == |ctx.declaredParent| == |ctx.entryParent| == n
    && |ctx.directoryParentCount| == |ctx.reachable| == n
    && EdgesWf(ctx.edges, ctx.edgeHeads, n)
  }

  /** The context has recorded exactly the records es, all of them good. */
  ghost predicate Follows(ctx: Context, es: seq<Entry>)
    requires Wf(ctx.volume)
    reads ctx`linkReferences, ctx`declaredParent, ctx`entryParent, ctx`directoryParentCount, ctx`reachable,
          ctx`edges, ctx`edgeHeads
  {
    && Shaped(ctx) && Countable(es)
    && LinksFollow(ctx.linkReferences, es)
    && ParentsFollow(ctx.volume, ctx.directoryParentCount, ctx.entryParent, es)
    && DotDotFollow(ctx.declaredParent, es)
    && EdgesFollow(ctx.edges, ctx.edgeHeads, es)
  }

  lemma Appended<T>(es: seq<T>, e: T)
    ensures (es + [e])[..|es + [e]| - 1] == es && (es + [e])[|es + [e]| - 1] == e
  {
  }

  lemma CountableAppend(es: seq<Entry>, e: Entry)
    ensures Countable(es + [e]) <==> Countable(es) && (e.record.inode != 0 ==> Naming(es, e.record.inode) < UINT64_MAX)
  {
    Appended(es, e);
    forall i: nat
      ensures Naming(es + [e], i) == Naming(es, i) + if e.record.inode == i then 1 else 0
    {
    }
    if Countable(es + [e]) {
      forall i: nat | i > 0
        ensures Naming(es, i) <= UINT64_MAX
      {
        assert Naming(es + [e], i) <= UINT64_MAX;
      }
      assert e.record.inode != 0 ==> Naming(es + [e], e.record.inode) <= UINT64_MAX;
    }
  }

  lemma LinksAppend(links: seq<nat>, es: seq<Entry>, e: Entry)
    requires LinksFollow(links, es) && e.record.inode < |links|
    ensures LinksFollow(if e.record.inode == 0 then links
                        else links[e.record.inode := links[e.record.inode] + 1], es + [e])
  {
    Appended(es, e);
  }

  lemma DotDotAppend(declared: seq<nat>, es: seq<Entry>, e: Entry)
    requires DotDotFollow(declared, es) && 0 < e.dir < |declared|
    ensures DotDotFollow(if IsDotDot(e, e.dir) then declared[e.dir := e.record.inode] else declared, es + [e])
  {
    Appended(es, e);
  }

  lemma ParentsAppend(v: Volume, counts: seq<nat>, firsts: seq<nat>, es: seq<Entry>, e: Entry)
    requires Wf(v) && |counts| == |firsts| == |v.inodes| && ParentsFollow(v, counts, firsts, es)
    requires e.record.inode < |counts|
    ensures var i := e.record.inode;
      var child := Plain(e.record) && v.inodes[i].kind == INODE_DIRECTORY;
      ParentsFollow(v,
                    if child && counts[i] != UINT32_MAX then counts[i := counts[i] + 1] else counts,
                    if child && counts[i] == 0 then firsts[i := e.dir] else firsts, es + [e])
  {
    Appended(es, e);
  }

  lemma EdgesAppendNone(edges: seq<Edge>, heads: seq<Link>, es: seq<Entry>, e: Entry)
    requires EdgesFollow(edges, heads, es) && !Plain(e.record)
    ensures EdgesFollow(edges, heads, es + [e])
  {
    Appended(es, e);
  }

  /** append_edge: the new edge is the head of the parent's list. */
  method AppendEdge(ctx: Context, parent: nat, child: nat, ghost es: seq<Entry>, ghost record: Record)
    requires Shaped(ctx) && parent < |ctx.edgeHeads| && child < |ctx.edgeHeads|
    modifies ctx`edges, ctx`edgeHeads
    ensures Shaped(ctx) && |ctx.edges| == old(|ctx.edges|) + 1
    ensures old(EdgesFollow(ctx.edges, ctx.edgeHeads, es)) && Plain(record) && record.inode == child ==>
      EdgesFollow(ctx.edges, ctx.edgeHeads, es + [Entry(parent, record)])
  {
    ghost var edges, heads := ctx.edges, ctx.edgeHeads;
    var e := Edge(child, ctx.edgeHeads[parent]);
    ctx.edges := ctx.edges + [e];
    ctx.edgeHeads := ctx.edgeHeads[parent := At(|ctx.edges| - 1)];
    assert EdgesWf(ctx.edges, ctx.edgeHeads, |ctx.volume.inodes|);
    if EdgesFollow(edges, heads, es) && Plain(record) && record.inode == child {
      Appended(es, Entry(parent, record));
      forall p | 0 <= p < |heads|
        ensures Chain(ctx.edges, ctx.edgeHeads[p]) == Children(es + [Entry(parent, record)], p)
      {
        ChainAppend(edges, heads[p], e);
        ChainAppend(edges, heads[parent], e);
      }
    }
  }
}
