/** The breadth-first walk of the directory graph and the checks after it
    (tools/fsck_northstar.c, validate_topology). */
module FsckTopology {
  import opened Sequences
  import opened OnDisk
  import opened Volumes
  import opened Directories
  import opened FsckReport
  import opened FsckContext
  import opened FsckGraph
  import opened Topology
  import Bitmap

  /** Distinct numbers below n are at most n. */
  lemma {:induction false} DistinctBelow(s: seq<nat>, n: nat)
    requires Distinct(s) && forall k :: 0 <= k < |s| ==> s[k] < n
    ensures |s| <= n
    decreases n
  {
    if s == [] {
      return;
    }
    assert s[0] < n;
    if exists k :: 0 <= k < |s| && s[k] == n - 1 {
      var k :| 0 <= k < |s| && s[k] == n - 1;
      var rest := s[..k] + s[k + 1..];
      assert forall j :: 0 <= j < |rest| ==> rest[j] == if j < k then s[j] else s[j + 1];
      DistinctBelow(rest, n - 1);
    } else {
      DistinctBelow(s, n - 1);
    }
  }

  /** What the queue holds: distinct inodes, all marked. */
  ghost predicate QueueOk(queue: seq<nat>, marked: seq<bool>)
  {
    Distinct(queue) && forall k :: 0 <= k < |queue| ==> queue[k] < |marked| && marked[queue[k]]
  }

  lemma QueueRoom(queue: seq<nat>, marked: seq<bool>, child: nat)
    requires QueueOk(queue, marked) && child < |marked| && !marked[child]
    ensures |queue| < |marked|
    ensures QueueOk(queue, marked[child := true]) && QueueOk(queue + [child], marked[child := true])
  {
    DistinctBelow(queue + [child], |marked|);
  }

  /** Only reachable inodes are marked, and marked directories are on the queue. */
  ghost predicate WalkOk(v: Volume, es: seq<Entry>, queue: seq<nat>, marked: seq<bool>)
    requires Wf(v) && |marked| == |v.inodes|
  {
    && ROOT_INODE < |marked| && marked[ROOT_INODE] && ROOT_INODE in queue
    && (forall i :: 0 <= i < |marked| && marked[i] ==> Reachable(es, i))
    && (forall i :: 0 <= i < |marked| && marked[i] && v.inodes[i].kind == INODE_DIRECTORY ==> i in queue)
  }

  /** The children of the directories already taken from the queue are marked. */
  ghost predicate Expanded(es: seq<Entry>, taken: seq<nat>, marked: seq<bool>)
  {
    forall k :: 0 <= k < |taken| ==> ChildrenMarked(es, taken[k], marked)
  }

  ghost predicate ChildrenMarked(es: seq<Entry>, p: nat, marked: seq<bool>)
  {
    forall c: nat :: Step(es, p, c) ==> c < |marked| && marked[c]
  }

  /** One list of edges: marks the children and queues the directories among them. */
  method ExpandParent(ctx: Context, queue: array<nat>, tail: nat, parent: nat, ghost es: seq<Entry>, ghost clean: bool)
    returns (tail': nat)
    requires Wf(ctx.volume) && Shaped(ctx) && queue.Length == |ctx.volume.inodes| && parent < |ctx.volume.inodes|
    requires tail <= queue.Length && QueueOk(queue[..tail], ctx.reachable)
    requires clean ==>
      && Reachable(es, parent) && EdgesFollow(ctx.edges, ctx.edgeHeads, es)
      && WalkOk(ctx.volume, es, queue[..tail], ctx.reachable)
    modifies ctx`reachable, queue
    ensures Shaped(ctx) && tail <= tail' <= queue.Length && QueueOk(queue[..tail'], ctx.reachable)
    ensures queue[..tail] == old(queue[..tail])
    ensures forall i :: 0 <= i < |ctx.volume.inodes| && old(ctx.reachable[i]) ==> ctx.reachable[i]
    ensures clean ==>
      && WalkOk(ctx.volume, es, queue[..tail'], ctx.reachable)
      && ChildrenMarked(es, parent, ctx.reachable)
  {
    hide Reachable, QueueOk, WalkOk, Children;
    tail' := tail;
    var edge := ctx.edgeHeads[parent];
    while edge.At?
      invariant LinkOk(edge, |ctx.edges|) && |ctx.reachable| == |ctx.volume.inodes|
      invariant tail <= tail' <= queue.Length && QueueOk(queue[..tail'], ctx.reachable)
      invariant queue[..tail] == old(queue[..tail])
      invariant forall i :: 0 <= i < |ctx.volume.inodes| && old(ctx.reachable[i]) ==> ctx.reachable[i]
      invariant clean ==>
        && WalkOk(ctx.volume, es, queue[..tail'], ctx.reachable)
        && Chain(ctx.edges, edge) <= Children(es, parent)
        && forall c :: c in Children(es, parent) ==>
             c in Chain(ctx.edges, edge) || (c < |ctx.reachable| && ctx.reachable[c])
      decreases if edge.At? then edge.index + 1 else 0
    {
      var child := ctx.edges[edge.index].child;
      if !ctx.reachable[child] {
        ghost var before := queue[..tail'];
        QueueRoom(before, ctx.reachable, child);
        if clean { WalkStep(ctx.volume, es, before, ctx.reachable, parent, child); }
        ctx.reachable := ctx.reachable[child := true];
        if ctx.volume.inodes[child].kind == INODE_DIRECTORY {
          queue[tail'] := child;
          tail' := tail' + 1;
          assert queue[..tail'] == before + [child];
        }
      }
      edge := ctx.edges[edge.index].next;
    }
  }

  lemma WalkStep(v: Volume, es: seq<Entry>, queue: seq<nat>, marked: seq<bool>, parent: nat, child: nat)
    requires Wf(v) && |marked| == |v.inodes| && WalkOk(v, es, queue, marked)
    requires Reachable(es, parent) && Step(es, parent, child) && child < |marked|
    ensures WalkOk(v, es, queue + [child], marked[child := true])
    ensures v.inodes[child].kind != INODE_DIRECTORY ==> WalkOk(v, es, queue, marked[child := true])
  {
    hide Reachable, Step;
    StepReachable(es, parent, child);
  }

  /** The walk: afterwards, with sound edge lists, exactly what can be reached is marked.  The queue
      has room for one entry per inode, and that is always enough. */
  method Walk(ctx: Context, ghost es: seq<Entry>, ghost clean: bool)
    requires Wf(ctx.volume) && Shaped(ctx) && forall i :: 0 <= i < |ctx.reachable| ==> !ctx.reachable[i]
    requires clean ==> EdgesFollow(ctx.edges, ctx.edgeHeads, es) && FromDirectories(ctx.volume, es)
    modifies ctx`reachable
    ensures Shaped(ctx)
    ensures clean ==> forall i :: 0 <= i < |ctx.reachable| ==> (ctx.reachable[i] <==> Reachable(es, i))
  {
    hide Reachable, QueueOk, EdgesFollow, EdgesWf, FromDirectories, Expanded;
    var v := ctx.volume;
    var queue := new nat[|v.inodes|];
    ctx.reachable := ctx.reachable[ROOT_INODE := true];
    queue[0] := ROOT_INODE;
    var head, tail := 0, 1;
    assert queue[..1] == [ROOT_INODE];
    WalkStart(v, es, ctx.reachable);
    while head < tail
      invariant 0 <= head <= tail <= queue.Length && Shaped(ctx) && QueueOk(queue[..tail], ctx.reachable)
      invariant clean ==> WalkOk(v, es, queue[..tail], ctx.reachable) && Expanded(es, queue[..head], ctx.reachable)
      decreases queue.Length - head
    {
      var parent := queue[head];
      assert parent == queue[..tail][head];
      QueueMember(v, es, queue[..tail], ctx.reachable, head, clean);
      ghost var taken, marked := queue[..head], ctx.reachable;
      tail := ExpandParent(ctx, queue, tail, parent, es, clean);
      assert queue[..head] == taken && queue[head] == parent;
      assert queue[..head + 1] == taken + [parent];
      if clean { ExpandedStep(es, taken, parent, marked, ctx.reachable); }
      head := head + 1;
    }
    if clean { WalkComplete(v, es, queue[..tail], ctx.reachable); }
  }

  lemma WalkStart(v: Volume, es: seq<Entry>, marked: seq<bool>)
    requires Wf(v) && |marked| == |v.inodes|
    requires forall i :: 0 <= i < |marked| ==> (marked[i] <==> i == ROOT_INODE)
    ensures QueueOk([ROOT_INODE], marked) && WalkOk(v, es, [ROOT_INODE], marked) && Expanded(es, [], marked)
  {
    hide Reachable;
    RootReachable(es);
  }

  /** Only directories have entries. */
  ghost predicate FromDirectories(v: Volume, es: seq<Entry>)
    requires Wf(v)
  {
    forall p: nat, c: nat :: Step(es, p, c) ==> p < |v.inodes| && v.inodes[p].kind == INODE_DIRECTORY && c < |v.inodes|
  }

  lemma QueueMember(v: Volume, es: seq<Entry>, queue: seq<nat>, marked: seq<bool>, k: nat, clean: bool)
    requires Wf(v) && |marked| == |v.inodes| && QueueOk(queue, marked) && k < |queue|
    requires clean ==> WalkOk(v, es, queue, marked)
    ensures queue[k] < |v.inodes| && (clean ==> Reachable(es, queue[k]))
  {
  }

  lemma ExpandedStep(es: seq<Entry>, taken: seq<nat>, parent: nat, marked: seq<bool>, marked': seq<bool>)
    requires Expanded(es, taken, marked) && |marked| == |marked'|
    requires forall i :: 0 <= i < |marked| && marked[i] ==> marked'[i]
    requires ChildrenMarked(es, parent, marked')
    ensures Expanded(es, taken + [parent], marked')
  {
    hide Children;
    var more := taken + [parent];
    forall k | 0 <= k < |more|
      ensures ChildrenMarked(es, more[k], marked')
    {
      assert k < |taken| ==> ChildrenMarked(es, taken[k], marked);
    }
  }

  lemma WalkComplete(v: Volume, es: seq<Entry>, queue: seq<nat>, marked: seq<bool>)
    requires Wf(v) && |marked| == |v.inodes| && FromDirectories(v, es)
    requires WalkOk(v, es, queue, marked) && Expanded(es, queue, marked)
    ensures forall i :: 0 <= i < |marked| ==> (marked[i] <==> Reachable(es, i))
  {
    hide Step, Path;
    var s := set i | 0 <= i < |marked| && marked[i];
    forall x: nat, c: nat | x in s && Step(es, x, c)
      ensures c in s
    {
      var k :| 0 <= k < |queue| && queue[k] == x;
      assert ChildrenMarked(es, queue[k], marked);
    }
    forall i | 0 <= i < |marked| && Reachable(es, i)
      ensures marked[i]
    {
      PathNonempty(es);
      var p :| Path(es, p) && p[|p| - 1] == i;
      ClosedHolds(es, s, p);
    }
  }

  lemma EntriesFromDirectories(v: Volume)
    requires Wf(v) && NamespaceOk(v)
    ensures FromDirectories(v, AllEntries(v))
  {
    hide DirectoryOk, DirRecords, RecordsOk, Bitmap.Test, Countable, EntriesUpto, Step;
    forall p: nat, c: nat | Step(AllEntries(v), p, c)
      ensures p < |v.inodes| && v.inodes[p].kind == INODE_DIRECTORY && c < |v.inodes|
    {
      var k := ChildEntry(AllEntries(v), p, c);
      var j := EntryRecord(v, v.sb.totalInodes, k);
      NamedInode(v, p, j);
    }
  }

  lemma NamedInode(v: Volume, d: nat, j: nat)
    requires Wf(v) && d < v.sb.totalInodes && DirectoryOk(v, d) && j < |DirRecords(v, d)|
    ensures DirRecords(v, d)[j].inode < |v.inodes|
  {
    hide RecordsUpto, DirBlocksOk, Sequences.Distinct, Occurrences;
    assert RecordOk(v, d, DirRecords(v, d)[j]);
  }

  /** The checks of one allocated inode after the walk. */
  method CheckPlacement(report: Report, ctx: Context, i: nat, ghost es: seq<Entry>, ghost clean: bool)
    requires Wf(ctx.volume) && Shaped(ctx) && 1 <= i < |ctx.volume.inodes|
    requires clean ==> Follows(ctx, es) && (ctx.reachable[i] <==> Reachable(es, i))
    modifies report
    ensures report.errors >= old(report.errors) && report.fatal == old(report.fatal)
    ensures clean ==> (report.errors == old(report.errors) <==> InodePlaced(ctx.volume, es, i))
  {
    hide Reachable, EdgesFollow, Countable, EdgesWf, FirstParent;
    var v := ctx.volume;
    if !ctx.reachable[i] {
      report.Error();
    }
    if v.inodes[i].kind == INODE_DIRECTORY && i != ROOT_INODE {
      if ctx.directoryParentCount[i] != 1 {
        report.Error();
      } else if ctx.declaredParent[i] != ctx.entryParent[i] {
        report.Error();
      }
    }
    if ctx.linkReferences[i] != v.inodes[i].linkCount {
      report.Error();
    }
  }

  /** validate_topology. */
  method ValidateTopology(report: Report, ctx: Context, ghost clean: bool)
    requires Wf(ctx.volume) && Shaped(ctx) && forall i :: 0 <= i < |ctx.reachable| ==> !ctx.reachable[i]
    requires clean ==> NamespaceOk(ctx.volume) && Follows(ctx, AllEntries(ctx.volume))
    modifies report, ctx`reachable
    ensures report.errors >= old(report.errors) && report.fatal == old(report.fatal)
    ensures clean ==> (report.errors == old(report.errors) <==> TopologyOk(ctx.volume))
  {
    hide NamespaceOk, AllEntries, LinksFollow, ParentsFollow, DotDotFollow, EdgesFollow, EdgesWf, Reachable,
      InodePlaced,
      Bitmap.Test, Countable;
    var v := ctx.volume;
    ghost var es := if clean then AllEntries(v) else [];
    if clean {
      EntriesFromDirectories(v);
      RootIsDirectory(v);
      RootFacts(ctx, es);
    }
    if ctx.declaredParent[ROOT_INODE] != ROOT_INODE {
      report.Error();
    }
    if ctx.directoryParentCount[ROOT_INODE] != 0 {
      report.Error();
    }
    ghost var rootOk := report.errors == old(report.errors);
    Walk(ctx, es, clean);
    var i := 1;
    while i < v.sb.totalInodes
      invariant 1 <= i <= v.sb.totalInodes && report.errors >= old(report.errors) && report.fatal == old(report.fatal)
      invariant clean ==>
        (report.errors == old(report.errors) <==>
         rootOk && forall j :: 1 <= j < i && Allocated(v, j) ==> InodePlaced(v, es, j))
      modifies report
    {
      if Allocated(v, i) {
        CheckPlacement(report, ctx, i, es, clean);
      }
      i := i + 1;
    }
  }

  lemma RootIsDirectory(v: Volume)
    requires Wf(v) && NamespaceOk(v)
    ensures v.inodes[ROOT_INODE].kind == INODE_DIRECTORY
  {
  }

  lemma RootFacts(ctx: Context, es: seq<Entry>)
    requires Wf(ctx.volume) && Follows(ctx, es) && ctx.volume.inodes[ROOT_INODE].kind == INODE_DIRECTORY
    ensures ctx.declaredParent[ROOT_INODE] == LastDotDot(es, ROOT_INODE)
    ensures ctx.directoryParentCount[ROOT_INODE] == 0 <==> Parents(es, ROOT_INODE) == 0
  {
  }
}
