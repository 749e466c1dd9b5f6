/** The directory graph of a volume: what validate_topology demands (tools/fsck_northstar.c), and
    why a graph that meets it is a tree in which everything can be reached. */
module Topology {
  import opened Paths
  import opened OnDisk
  import opened Volumes
  import opened Directories
  import opened FsckContext
  import opened FsckGraph
  import Bitmap

  // ---------- paths ----------

  predicate Step(es: seq<Entry>, p: nat, c: nat)
  {
    c in Children(es, p)
  }

  /** A path from the root along child records. */
  predicate Path(es: seq<Entry>, p: seq<nat>)
  {
    |p| > 0 && p[0] == ROOT_INODE && forall k :: 0 < k < |p| ==> StepAt(es, p, k)
  }

  predicate StepAt(es: seq<Entry>, p: seq<nat>, k: nat)
    requires 0 < k < |p|
  {
    Step(es, p[k - 1], p[k])
  }

  ghost predicate Reachable(es: seq<Entry>, i: nat)
  {
    exists p :: Path(es, p) && p[|p| - 1] == i
  }

  lemma RootReachable(es: seq<Entry>)
    ensures Reachable(es, ROOT_INODE)
  {
    assert Path(es, [ROOT_INODE]);
  }

  lemma StepReachable(es: seq<Entry>, p: nat, c: nat)
    requires Reachable(es, p) && Step(es, p, c)
    ensures Reachable(es, c)
  {
    var path :| Path(es, path) && path[|path| - 1] == p;
    var longer := path + [c];
    forall k | 0 < k < |longer|
      ensures StepAt(es, longer, k)
    {
      if k < |path| { assert StepAt(es, path, k); }
    }
    assert Path(es, longer);
  }

  /** A set that holds the root and is closed under steps holds everything reachable. */
  lemma {:induction false} ClosedHolds(es: seq<Entry>, s: set<nat>, p: seq<nat>)
    requires Path(es, p) && ROOT_INODE in s
    requires forall x, c :: x in s && Step(es, x, c) ==> c in s
    ensures p[|p| - 1] in s
    decreases |p|
  {
    if |p| > 1 {
      var n := |p| - 1;
      var q := p[..n];
      forall k | 0 < k < |q|
        ensures StepAt(es, q, k)
      {
        assert StepAt(es, p, k);
      }
      ClosedHolds(es, s, q);
      assert StepAt(es, p, n);
    }
  }

  // ---------- the demands ----------

  predicate ParentOk(es: seq<Entry>, d: nat)
  {
    Parents(es, d) == 1 && LastDotDot(es, d) == FirstParent(es, d)
  }

  ghost predicate InodePlaced(v: Volume, es: seq<Entry>, i: nat)
    requires Wf(v) && i < v.sb.totalInodes
  {
    && Reachable(es, i)
    && (v.inodes[i].kind == INODE_DIRECTORY && i != ROOT_INODE ==> ParentOk(es, i))
    && Naming(es, i) == v.inodes[i].linkCount
  }

  ghost predicate GraphOk(v: Volume, es: seq<Entry>)
    requires Wf(v)
  {
    && LastDotDot(es, ROOT_INODE) == ROOT_INODE && Parents(es, ROOT_INODE) == 0
    && forall i :: 1 <= i < v.sb.totalInodes && Allocated(v, i) ==> InodePlaced(v, es, i)
  }

  /** What validate_topology demands on top of validate_directories. */
  ghost predicate TopologyOk(v: Volume)
    requires Wf(v) && NamespaceOk(v)
  {
    GraphOk(v, AllEntries(v))
  }

  // ---------- entries and records ----------

  lemma {:induction false} ChildEntry(es: seq<Entry>, p: nat, c: nat) returns (k: nat)
    requires Step(es, p, c)
    ensures k < |es| && es[k].dir == p && IsChild(es[k], c)
    decreases |es|
  {
    var n := |es| - 1;
    if es[n].dir == p && IsChild(es[n], c) {
      k := n;
    } else {
      k := ChildEntry(es[..n], p, c);
    }
  }

  lemma {:induction false} ParentCounted(es: seq<Entry>, k: nat, c: nat)
    requires k < |es| && IsChild(es[k], c)
    ensures Parents(es, c) > 0
    ensures Parents(es, c) == 1 ==> FirstParent(es, c) == es[k].dir
    decreases |es|
  {
    var n := |es| - 1;
    if k < n {
      ParentCounted(es[..n], k, c);
    }
  }

  /** Entry k of all the entries is a record of its directory. */
  lemma {:induction false} EntryRecord(v: Volume, n: nat, k: nat) returns (j: nat)
    requires Wf(v) && n <= v.sb.totalInodes && DirectoriesOk(v, n) && k < |EntriesUpto(v, n)|
    ensures var e := EntriesUpto(v, n)[k];
      && 1 <= e.dir < n && IsDirectory(v, e.dir) && DirectoryOk(v, e.dir)
      && j < |DirRecords(v, e.dir)| && DirRecords(v, e.dir)[j] == e.record
    decreases n
  {
    hide DirectoryOk, DirRecords, Bitmap.Test;
    assert DirectoriesOk(v, n - 1);
    if k < |EntriesUpto(v, n - 1)| {
      j := EntryRecord(v, n - 1, k);
    } else {
      j := k - |EntriesUpto(v, n - 1)|;
    }
  }

  lemma {:induction false} DotDotEntry(es: seq<Entry>, d: nat) returns (k: nat)
    requires LastDotDot(es, d) != NO_PARENT
    ensures k < |es| && IsDotDot(es[k], d) && es[k].record.inode == LastDotDot(es, d)
    decreases |es|
  {
    var n := |es| - 1;
    if IsDotDot(es[n], d) {
      k := n;
    } else {
      k := DotDotEntry(es[..n], d);
    }
  }

  // ---------- what the demands amount to ----------

  /** Directory d has a `..` record for p. */
  ghost predicate UpRecord(v: Volume, d: nat, p: nat)
    requires Wf(v) && NamespaceOk(v)
  {
    && 1 <= d < v.sb.totalInodes && IsDirectory(v, d) && DirectoryOk(v, d)
    && exists k :: 0 <= k < |DirRecords(v, d)| && DotDotTo(DirRecords(v, d)[k], p)
  }

  predicate DotDotTo(r: Record, p: nat)
  {
    r.name == DOTDOT && r.inode == p && p != 0
  }

  /** Directory d has a record, other than `.` and `..`, for c. */
  ghost predicate DownRecord(v: Volume, d: nat, c: nat)
    requires Wf(v) && NamespaceOk(v)
  {
    && 1 <= d < v.sb.totalInodes && IsDirectory(v, d) && DirectoryOk(v, d)
    && exists k :: 0 <= k < |DirRecords(v, d)| && IsChild(Entry(d, DirRecords(v, d)[k]), c)
  }

  ghost predicate UpAt(v: Volume, u: seq<nat>, k: nat)
    requires Wf(v) && NamespaceOk(v) && 0 < k < |u|
  {
    UpRecord(v, u[k - 1], u[k])
  }

  ghost predicate DownAt(v: Volume, p: seq<nat>, k: nat)
    requires Wf(v) && NamespaceOk(v) && 0 < k < |p|
  {
    DownRecord(v, p[k - 1], p[k])
  }

  /** Following `..` from d along u ends at the root. */
  ghost predicate Ascends(v: Volume, d: nat, u: seq<nat>)
    requires Wf(v) && NamespaceOk(v)
  {
    |u| > 0 && u[0] == d && u[|u| - 1] == ROOT_INODE && forall k :: 0 < k < |u| ==> UpAt(v, u, k)
  }

  /** Following records down along p leads from the root to i. */
  ghost predicate Descends(v: Volume, i: nat, p: seq<nat>)
    requires Wf(v) && NamespaceOk(v)
  {
    |p| > 0 && p[0] == ROOT_INODE && p[|p| - 1] == i && forall k :: 0 < k < |p| ==> DownAt(v, p, k)
  }

  /** The directories form a tree rooted at inode 1, every allocated inode can be reached, and
      every link count is the number of records naming the inode. */
  ghost predicate IsTree(v: Volume)
    requires Wf(v) && NamespaceOk(v)
  {
    && (forall d :: 1 <= d < v.sb.totalInodes && IsDirectory(v, d) ==> exists u :: Ascends(v, d, u))
    && (forall i :: 1 <= i < v.sb.totalInodes && Allocated(v, i) ==> exists p :: Descends(v, i, p))
    && (forall i :: 1 <= i < v.sb.totalInodes && Allocated(v, i) ==>
          v.inodes[i].linkCount == Naming(AllEntries(v), i))
    && (forall d, x, y :: DownRecord(v, x, d) && DownRecord(v, y, d) && DirectoryNode(v, d) ==> x == y)
  }

  predicate DirectoryNode(v: Volume, d: nat)
    requires Wf(v)
  {
    1 <= d < v.sb.totalInodes && IsDirectory(v, d)
  }

  lemma {:induction false} RecordEntry(v: Volume, n: nat, d: nat, j: nat) returns (k: nat)
    requires Wf(v) && n <= v.sb.totalInodes && DirectoriesOk(v, n) && 1 <= d < n && IsDirectory(v, d)
    requires DirectoryOk(v, d) && j < |DirRecords(v, d)|
    ensures k < |EntriesUpto(v, n)| && EntriesUpto(v, n)[k] == Entry(d, DirRecords(v, d)[j])
    decreases n
  {
    hide DirectoryOk, DirRecords, Bitmap.Test;
    assert DirectoriesOk(v, n - 1);
    if d < n - 1 {
      k := RecordEntry(v, n - 1, d, j);
    } else {
      k := |EntriesUpto(v, n - 1)| + j;
    }
  }

  lemma StepDown(v: Volume, x: nat, c: nat)
    requires Wf(v) && NamespaceOk(v) && Step(AllEntries(v), x, c)
    ensures DownRecord(v, x, c)
  {
    hide DirectoryOk, DirRecords, Bitmap.Test, Countable, EntriesUpto;
    var k := ChildEntry(AllEntries(v), x, c);
    var j := EntryRecord(v, v.sb.totalInodes, k);
  }

  lemma PathDescends(v: Volume, p: seq<nat>)
    requires Wf(v) && NamespaceOk(v) && Path(AllEntries(v), p)
    ensures Descends(v, p[|p| - 1], p)
  {
    hide DownRecord, NamespaceOk, AllEntries;
    forall k | 0 < k < |p|
      ensures DownAt(v, p, k)
    {
      assert StepAt(AllEntries(v), p, k);
      StepDown(v, p[k - 1], p[k]);
    }
  }

  /** The parent a record gives a directory is the one its own `..` names. */
  lemma StepUp(v: Volume, x: nat, d: nat)
    requires Wf(v) && NamespaceOk(v) && Step(AllEntries(v), x, d)
    requires ParentOk(AllEntries(v), d)
    ensures UpRecord(v, d, x) && DirectoryNode(v, x)
  {
    hide DirectoryOk, DirRecords, Bitmap.Test, Countable, EntriesUpto;
    var es := AllEntries(v);
    var k := ChildEntry(es, x, d);
    ParentCounted(es, k, d);
    var j := EntryRecord(v, v.sb.totalInodes, k);
    var up := DotDotEntry(es, d);
    var i := EntryRecord(v, v.sb.totalInodes, up);
    assert DotDotTo(DirRecords(v, d)[i], x);
  }

  lemma PathPrefix(es: seq<Entry>, p: seq<nat>)
    requires Path(es, p) && |p| > 1
    ensures Path(es, p[..|p| - 1])
  {
    var q := p[..|p| - 1];
    forall k | 0 < k < |q|
      ensures StepAt(es, q, k)
    {
      assert StepAt(es, p, k);
    }
  }

  lemma PlacedParent(v: Volume, d: nat)
    requires Wf(v) && NamespaceOk(v) && TopologyOk(v) && DirectoryNode(v, d) && d != ROOT_INODE
    ensures ParentOk(AllEntries(v), d)
  {
    hide NamespaceOk, AllEntries, Bitmap.Test, Reachable;
    assert InodePlaced(v, AllEntries(v), d);
  }

  lemma {:induction false} PathAscends(v: Volume, p: seq<nat>) returns (u: seq<nat>)
    requires Wf(v) && NamespaceOk(v) && TopologyOk(v) && Path(AllEntries(v), p)
    requires DirectoryNode(v, p[|p| - 1])
    ensures Ascends(v, p[|p| - 1], u)
    decreases |p|
  {
    hide UpRecord, AllEntries, NamespaceOk, ParentOk, DirectoryNode, Reachable, Bitmap.Test;
    var n := |p| - 1;
    if n == 0 || p[n] == ROOT_INODE {
      u := [ROOT_INODE];
    } else {
      var es := AllEntries(v);
      assert StepAt(es, p, n);
      PlacedParent(v, p[n]);
      StepUp(v, p[n - 1], p[n]);
      PathPrefix(es, p);
      var above := PathAscends(v, p[..n]);
      u := [p[n]] + above;
      forall k | 0 < k < |u|
        ensures UpAt(v, u, k)
      {
        if k > 1 { assert UpAt(v, above, k - 1); }
      }
    }
  }

  lemma OneParent(v: Volume, x: nat, y: nat, d: nat)
    requires Wf(v) && NamespaceOk(v) && TopologyOk(v) && DirectoryNode(v, d)
    requires DownRecord(v, x, d) && DownRecord(v, y, d)
    ensures x == y
  {
    hide DirectoryOk, DirRecords, Bitmap.Test, Countable, EntriesUpto, Reachable;
    var es := AllEntries(v);
    assert InodePlaced(v, es, d);
    var i :| 0 <= i < |DirRecords(v, x)| && IsChild(Entry(x, DirRecords(v, x)[i]), d);
    var j :| 0 <= j < |DirRecords(v, y)| && IsChild(Entry(y, DirRecords(v, y)[j]), d);
    var k := RecordEntry(v, v.sb.totalInodes, x, i);
    var l := RecordEntry(v, v.sb.totalInodes, y, j);
    ParentCounted(es, k, d);
    ParentCounted(es, l, d);
  }

  /** The demands of validate_topology make the volume a tree. */
  lemma TopologySound(v: Volume)
    requires Wf(v) && NamespaceOk(v) && TopologyOk(v)
    ensures IsTree(v)
  {
    hide NamespaceOk, AllEntries, DownRecord, Ascends, Descends, Bitmap.Test, Path;
    var es := AllEntries(v);
    forall i | 1 <= i < v.sb.totalInodes && Allocated(v, i)
      ensures exists p :: Descends(v, i, p)
      ensures v.inodes[i].linkCount == Naming(es, i)
      ensures IsDirectory(v, i) ==> exists u :: Ascends(v, i, u)
    {
      assert InodePlaced(v, es, i);
      PathNonempty(es);
      var p :| Path(es, p) && p[|p| - 1] == i;
      PathDescends(v, p);
      if IsDirectory(v, i) {
        var u := PathAscends(v, p);
      }
    }
    forall d, x, y | DownRecord(v, x, d) && DownRecord(v, y, d) && DirectoryNode(v, d)
      ensures x == y
    {
      OneParent(v, x, y, d);
    }
  }

  lemma PathNonempty(es: seq<Entry>)
    ensures forall p :: Path(es, p) ==> |p| > 0
  {
  }
}
