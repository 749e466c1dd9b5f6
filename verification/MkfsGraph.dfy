/** The directory graph of a formatted tree meets what fsck demands of it: every node is reached,
    has the parent its `..` names, and is named as often as its link count says. */
module MkfsGraph {
  import opened Inodes
  import opened Volumes
  import opened Directories
  import opened SourceTree
  import opened TreeImage
  import opened FsckGraph
  import opened Topology
  import opened TreeEntries
  import opened VolumeTree

  /** What es says about the inodes between lo and hi is what sub says. */
  ghost predicate Governs(es: seq<Entry>, sub: seq<Entry>, lo: nat, hi: nat)
  {
    && (forall i :: lo < i < hi ==> SameSaid(es, sub, i))
    && (forall k :: 0 <= k < |sub| ==> sub[k] in es)
  }

  ghost predicate SameSaid(es: seq<Entry>, sub: seq<Entry>, i: nat)
  {
    Naming(es, i) == Naming(sub, i) && Parents(es, i) == Parents(sub, i) && LastDotDot(es, i) == LastDotDot(sub, i)
  }

  lemma FirstChild(t: Node, ino: nat)
    ensures ChildInode(t, ino, 0) == ino + 1
  {
    assert t.children[..0] == [];
  }

  lemma {:induction false} FindChild(t: Node, ino: nat, n: nat, i: nat) returns (k: nat)
    requires n <= |t.children| && ino < i < ChildInode(t, ino, n)
    ensures k < n && InChild(t, ino, k, i)
    decreases n
  {
    FirstChild(t, ino);
    ChildRange(t, ino, n - 1);
    if i >= ChildInode(t, ino, n - 1) {
      k := n - 1;
    } else {
      k := FindChild(t, ino, n - 1, i);
    }
  }

  lemma {:induction false} ForestMember(t: Node, ino: nat, n: nat, k: nat, e: Entry)
    requires k < n <= |t.children| && e in TreeRecords(t.children[k], ChildInode(t, ino, k), ino)
    ensures e in ForestRecords(t, ino, n)
    decreases n
  {
    hide TreeRecords;
    if k < n - 1 { ForestMember(t, ino, n - 1, k, e); }
  }

  lemma ChildGoverned(es: seq<Entry>, t: Node, ino: nat, parent: nat, k: nat)
    requires SourceTree.Scanned(t) && t.kind.Directory? && 0 < parent <= ino && k < |t.children|
    requires Governs(es, TreeRecords(t, ino, parent), ino, ino + NodeCount(t))
    ensures Governs(es, TreeRecords(t.children[k], ChildInode(t, ino, k), ino),
                    ChildInode(t, ino, k), ChildInode(t, ino, k) + NodeCount(t.children[k]))
  {
    var all := TreeRecords(t, ino, parent);
    var forest := ForestRecords(t, ino, |t.children|);
    assert all == EntriesOf(ino, NodeRecords(t, ino, parent)) + forest;
    hide TreeRecords, ForestRecords, Naming, Parents, LastDotDot, SourceTree.Scanned, NodesOf;
    var j, sub := ChildInode(t, ino, k), TreeRecords(t.children[k], ChildInode(t, ino, k), ino);
    ChildRange(t, ino, k);
    forall i | j < i < j + NodeCount(t.children[k])
      ensures SameSaid(es, sub, i)
    {
      assert SameSaid(es, all, i);
      TreeAt(t, ino, parent, k, i);
    }
    forall m | 0 <= m < |sub|
      ensures sub[m] in es
    {
      ForestMember(t, ino, |t.children|, k, sub[m]);
      assert sub[m] in all;
    }
  }

  lemma LoadedChild(v: Volume, t: Node, ino: nat, blk: nat, parent: nat, ns: nat, k: nat)
    requires Wf(v) && OnVolume(v, t, ino, blk, parent, ns) && k < |t.children|
    ensures var c, j := t.children[k], ChildInode(t, ino, k);
      && OnVolume(v, c, j, ChildBlock(t, blk, k), ino, ns) && j < v.sb.totalInodes
      && v.inodes[j].linkCount == LinkCount(c) && v.inodes[j].kind == KindCode(c.kind)
  {
    hide InodeChecksum, NodesOf, DataCount, BlockContent, EncodeEntries;
    assert OnVolume(v, t.children[k], ChildInode(t, ino, k), ChildBlock(t, blk, k), ino, ns);
  }

  /** The records make child k a child of its directory and of nothing else. */
  lemma ChildSaid(es: seq<Entry>, t: Node, ino: nat, parent: nat, k: nat)
    requires SourceTree.Scanned(t) && t.kind.Directory? && 0 < parent <= ino && k < |t.children| && Reachable(es, ino)
    requires Governs(es, TreeRecords(t, ino, parent), ino, ino + NodeCount(t))
    ensures var c, j := t.children[k], ChildInode(t, ino, k);
      && Reachable(es, j) && Parents(es, j) == 1 && FirstParent(es, j) == ino
      && (c.kind.Directory? ==> LastDotDot(es, j) == ino)
      && Naming(es, j) == LinkCount(c)
  {
    hide TreeRecords, Naming, Parents, LastDotDot, SourceTree.Scanned, NodesOf, Reachable, FirstParent, ChildRecords,
      Governs;
    ChildCounts(es, t, ino, parent, k);
    ChildEdge(es, t, ino, parent, k);
  }

  lemma ChildCounts(es: seq<Entry>, t: Node, ino: nat, parent: nat, k: nat)
    requires SourceTree.Scanned(t) && t.kind.Directory? && 0 < parent <= ino && k < |t.children|
    requires Governs(es, TreeRecords(t, ino, parent), ino, ino + NodeCount(t))
    ensures var c, j := t.children[k], ChildInode(t, ino, k);
      Parents(es, j) == 1 && (c.kind.Directory? ==> LastDotDot(es, j) == ino) && Naming(es, j) == LinkCount(c)
  {
    hide TreeRecords, Naming, Parents, LastDotDot, SourceTree.Scanned, NodesOf;
    var all, j, c := TreeRecords(t, ino, parent), ChildInode(t, ino, k), t.children[k];
    ChildRange(t, ino, k);
    ChildScanned(t, k);
    assert SameSaid(es, all, j);
    hide Governs;
    TreeAt(t, ino, parent, k, j);
    TreeSelf(c, j, ino);
  }

  lemma ChildEdge(es: seq<Entry>, t: Node, ino: nat, parent: nat, k: nat)
    requires SourceTree.Scanned(t) && t.kind.Directory? && k < |t.children| && Reachable(es, ino)
    requires Governs(es, TreeRecords(t, ino, parent), ino, ino + NodeCount(t))
    ensures var j := ChildInode(t, ino, k);
      Reachable(es, j) && Parents(es, j) > 0 && (Parents(es, j) == 1 ==> FirstParent(es, j) == ino)
  {
    hide TreeRecords, Parents, SourceTree.Scanned, NodesOf, Reachable, FirstParent, SameSaid, Step;
    var all, e := TreeRecords(t, ino, parent), Entry(ino, ChildRecords(t, ino)[k]);
    OwnEntry(t, ino, parent, k);
    var m :| 0 <= m < |all| && all[m] == e;
    assert e in es;
    hide Governs;
    var at :| 0 <= at < |es| && es[at] == e;
    ChildrenMember(es, at);
    StepReachable(es, ino, ChildInode(t, ino, k));
    ParentCounted(es, at, ChildInode(t, ino, k));
  }

  /** The child is placed right under its directory. */
  lemma ChildPlaced(v: Volume, es: seq<Entry>, t: Node, ino: nat, blk: nat, parent: nat, ns: nat, k: nat)
    requires Wf(v) && SourceTree.Scanned(t) && t.kind.Directory? && 0 < parent <= ino && k < |t.children|
    requires OnVolume(v, t, ino, blk, parent, ns) && Reachable(es, ino)
    requires Governs(es, TreeRecords(t, ino, parent), ino, ino + NodeCount(t))
    ensures ChildInode(t, ino, k) < v.sb.totalInodes && InodePlaced(v, es, ChildInode(t, ino, k))
  {
    hide TreeRecords, Naming, Parents, LastDotDot, SourceTree.Scanned, NodesOf, Reachable, OnVolume, FirstParent,
      Governs;
    LoadedChild(v, t, ino, blk, parent, ns, k);
    ChildSaid(es, t, ino, parent, k);
  }

  lemma OwnEntry(t: Node, ino: nat, parent: nat, k: nat)
    requires SourceTree.Scanned(t) && t.kind.Directory? && k < |t.children|
    ensures Entry(ino, ChildRecords(t, ino)[k]) in TreeRecords(t, ino, parent)
    ensures IsChild(Entry(ino, ChildRecords(t, ino)[k]), ChildInode(t, ino, k))
  {
    ChildScanned(t, k);
    var own := EntriesOf(ino, NodeRecords(t, ino, parent));
    assert own[k + 2] == Entry(ino, ChildRecords(t, ino)[k]);
    assert TreeRecords(t, ino, parent)[k + 2] == own[k + 2];
  }

  /** Everything below the root of the subtree is placed. */
  lemma {:induction false} TreePlaced(v: Volume, es: seq<Entry>, t: Node, ino: nat, blk: nat, parent: nat, ns: nat)
    requires Wf(v) && SourceTree.Scanned(t) && 0 < parent <= ino && OnVolume(v, t, ino, blk, parent, ns)
    requires Reachable(es, ino)
    requires Governs(es, TreeRecords(t, ino, parent), ino, ino + NodeCount(t))
    ensures ino + NodeCount(t) <= v.sb.totalInodes
    ensures forall i :: ino < i < ino + NodeCount(t) ==> InodePlaced(v, es, i)
    decreases t
  {
    hide TreeRecords, Naming, Parents, LastDotDot, NodesOf, Reachable, Governs, InodePlaced, OnVolume,
      SourceTree.Scanned;
    RootBounds(v, t, ino, blk, parent, ns);
    forall i | ino < i < ino + NodeCount(t)
      ensures InodePlaced(v, es, i)
    {
      assert t.children[..|t.children|] == t.children;
      var k := FindChild(t, ino, |t.children|, i);
      var c, j := t.children[k], ChildInode(t, ino, k);
      ChildScanned(t, k);
      HasChildren(t, k);
      ChildPlaced(v, es, t, ino, blk, parent, ns, k);
      LoadedChild(v, t, ino, blk, parent, ns, k);
      if i != j {
        PlacedReachable(v, es, j);
        ChildGoverned(es, t, ino, parent, k);
        ChildRange(t, ino, k);
        TreePlaced(v, es, c, j, ChildBlock(t, blk, k), ino, ns);
      }
    }
  }

  lemma RootBounds(v: Volume, t: Node, ino: nat, blk: nat, parent: nat, ns: nat)
    requires Wf(v) && OnVolume(v, t, ino, blk, parent, ns)
    ensures ino + NodeCount(t) <= v.sb.totalInodes
  {
  }

  lemma HasChildren(t: Node, k: nat)
    requires SourceTree.Scanned(t) && k < |t.children|
    ensures t.kind.Directory?
  {
  }

  lemma PlacedReachable(v: Volume, es: seq<Entry>, i: nat)
    requires Wf(v) && i < v.sb.totalInodes && InodePlaced(v, es, i)
    ensures Reachable(es, i)
  {
  }
}
