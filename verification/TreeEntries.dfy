/** All directory records of a source tree in the order fsck meets them, and what they say about
    each node: who names it, who its parent is. */
module TreeEntries {
  import opened Directories
  import opened SourceTree
  import opened TreeImage
  import opened FsckContext
  import opened FsckGraph
  import opened Topology

  /** The records of the tree, preorder. */
  function TreeRecords(t: Node, ino: nat, parent: nat): seq<Entry>
    decreases t, 1
  {
    if t.kind.Directory?
    then EntriesOf(ino, NodeRecords(t, ino, parent)) + ForestRecords(t, ino, |t.children|)
    else []
  }

  function ForestRecords(t: Node, ino: nat, n: nat): seq<Entry>
    requires n <= |t.children|
    decreases t, 0, n
  {
    if n == 0 then []
    else ForestRecords(t, ino, n - 1) + TreeRecords(t.children[n - 1], ChildInode(t, ino, n - 1), ino)
  }

  // ---------- concatenation ----------

  lemma {:induction false} NamingJoin(a: seq<Entry>, b: seq<Entry>, i: nat)
    ensures Naming(a + b, i) == Naming(a, i) + Naming(b, i)
    decreases |b|
  {
    if b == [] {
      assert a + b == a;
    } else {
      assert (a + b)[..|a + b| - 1] == a + b[..|b| - 1];
      NamingJoin(a, b[..|b| - 1], i);
    }
  }

  lemma {:induction false} ParentsJoin(a: seq<Entry>, b: seq<Entry>, i: nat)
    ensures Parents(a + b, i) == Parents(a, i) + Parents(b, i)
    decreases |b|
  {
    if b == [] {
      assert a + b == a;
    } else {
      assert (a + b)[..|a + b| - 1] == a + b[..|b| - 1];
      ParentsJoin(a, b[..|b| - 1], i);
    }
  }

  lemma {:induction false} DotDotJoin(a: seq<Entry>, b: seq<Entry>, d: nat)
    ensures LastDotDot(a + b, d) == if NoDotDot(b, d) then LastDotDot(a, d) else LastDotDot(b, d)
    decreases |b|
  {
    if b == [] {
      assert a + b == a;
    } else {
      var n := |b| - 1;
      assert (a + b)[..|a + b| - 1] == a + b[..n];
      DotDotJoin(a, b[..n], d);
      assert NoDotDot(b, d) <==> NoDotDot(b[..n], d) && !IsDotDot(b[n], d);
    }
  }

  ghost predicate NoDotDot(es: seq<Entry>, d: nat)
  {
    forall k :: 0 <= k < |es| ==> !IsDotDot(es[k], d)
  }

  lemma {:induction false} NoDotDotNone(es: seq<Entry>, d: nat)
    requires NoDotDot(es, d)
    ensures LastDotDot(es, d) == NO_PARENT
  {
    if es != [] { NoDotDotNone(es[..|es| - 1], d); }
  }

  lemma {:induction false} ChildrenMember(es: seq<Entry>, k: nat)
    requires k < |es| && Plain(es[k].record)
    ensures Step(es, es[k].dir, es[k].record.inode)
  {
    if k < |es| - 1 { ChildrenMember(es[..|es| - 1], k); }
  }

  // ---------- what the records of a subtree mention ----------

  /** The records are in directories [lo, hi); they name inodes there or `up`, and make only inodes
      above lo children. */
  predicate Within(e: Entry, lo: nat, hi: nat, up: nat)
  {
    && lo <= e.dir < hi && (lo <= e.record.inode < hi || e.record.inode == up)
    && (Plain(e.record) ==> lo < e.record.inode < hi)
  }

  ghost predicate AllWithin(es: seq<Entry>, lo: nat, hi: nat, up: nat)
  {
    forall k :: 0 <= k < |es| ==> Within(es[k], lo, hi, up)
  }

  lemma {:induction false} NotMentioned(es: seq<Entry>, lo: nat, hi: nat, up: nat, i: nat)
    requires AllWithin(es, lo, hi, up)
    ensures !(lo <= i < hi) && i != up ==> Naming(es, i) == 0
    ensures !(lo < i < hi) ==> Parents(es, i) == 0
    ensures !(lo <= i < hi) ==> NoDotDot(es, i)
  {
    if es != [] { NotMentioned(es[..|es| - 1], lo, hi, up, i); }
  }

  lemma WithinJoin(a: seq<Entry>, b: seq<Entry>, lo: nat, hi: nat, up: nat)
    requires AllWithin(a, lo, hi, up) && AllWithin(b, lo, hi, up)
    ensures AllWithin(a + b, lo, hi, up)
  {
  }

  lemma Widen(es: seq<Entry>, lo: nat, hi: nat, up: nat, lo': nat, hi': nat, up': nat)
    requires AllWithin(es, lo, hi, up) && lo' <= lo && hi <= hi' && (up == up' || lo' <= up < hi')
    ensures AllWithin(es, lo', hi', up')
  {
  }

  lemma OwnWithin(t: Node, ino: nat, parent: nat)
    requires SourceTree.Scanned(t)
    ensures AllWithin(EntriesOf(ino, NodeRecords(t, ino, parent)), ino, ino + NodeCount(t), parent)
  {
    var es := EntriesOf(ino, NodeRecords(t, ino, parent));
    forall k | 0 <= k < |es|
      ensures Within(es[k], ino, ino + NodeCount(t), parent)
    {
      if k >= 2 { PrefixSums(t.children, k - 2); }
    }
  }

  lemma {:induction false} TreeWithin(t: Node, ino: nat, parent: nat)
    requires SourceTree.Scanned(t)
    ensures AllWithin(TreeRecords(t, ino, parent), ino, ino + NodeCount(t), parent)
    decreases t, 1
  {
    hide NodeRecords, NodesOf, AllWithin, EntriesOf;
    NoneWithin(ino, ino + NodeCount(t), parent);
    if t.kind.Directory? {
      OwnWithin(t, ino, parent);
      ForestWithin(t, ino, |t.children|);
      var forest := ForestRecords(t, ino, |t.children|);
      assert t.children[..|t.children|] == t.children;
      Widen(forest, ino, ino + NodeCount(t), ino, ino, ino + NodeCount(t), parent);
      WithinJoin(EntriesOf(ino, NodeRecords(t, ino, parent)), forest, ino, ino + NodeCount(t), parent);
    }
  }

  lemma {:induction false} ForestWithin(t: Node, ino: nat, n: nat)
    requires SourceTree.Scanned(t) && n <= |t.children|
    ensures AllWithin(ForestRecords(t, ino, n), ino, ChildInode(t, ino, n), ino)
    decreases t, 0, n
  {
    hide TreeRecords, AllWithin, NodesOf;
    var rs, hi := ForestRecords(t, ino, n), ChildInode(t, ino, n);
    if n == 0 {
      NoneWithin(ino, hi, ino);
    } else {
      ChildScanned(t, n - 1);
      hide SourceTree.Scanned;
      ForestWithin(t, ino, n - 1);
      PrefixSums(t.children, n - 1);
      var c, i := t.children[n - 1], ChildInode(t, ino, n - 1);
      TreeWithin(c, i, ino);
      Widen(ForestRecords(t, ino, n - 1), ino, i, ino, ino, hi, ino);
      Widen(TreeRecords(c, i, ino), i, i + NodeCount(c), ino, ino, hi, ino);
      WithinJoin(ForestRecords(t, ino, n - 1), TreeRecords(c, i, ino), ino, hi, ino);
    }
  }

  lemma NoneWithin(lo: nat, hi: nat, up: nat)
    ensures AllWithin([], lo, hi, up)
  {
  }

  lemma ChildScanned(t: Node, k: nat)
    requires SourceTree.Scanned(t) && k < |t.children|
    ensures SourceTree.Scanned(t.children[k]) && ChildName(t.children[k].name)
  {
  }

  // ---------- counts ----------

  /** The part of a subtree's records in child k, and the rest. */
  lemma {:induction false} ForestNaming(t: Node, ino: nat, n: nat, i: nat)
    requires SourceTree.Scanned(t) && n <= |t.children|
    ensures i == ino ==> Naming(ForestRecords(t, ino, n), i) == Subdirectories(t.children[..n])
    ensures !(ino <= i < ChildInode(t, ino, n)) ==> Naming(ForestRecords(t, ino, n), i) == 0
    decreases n
  {
    hide TreeRecords, NodesOf, SourceTree.Scanned;
    if n == 0 {
      assert t.children[..0] == [];
    } else {
      hide Naming;
      var c, j := t.children[n - 1], ChildInode(t, ino, n - 1);
      ChildScanned(t, n - 1);
      ForestNaming(t, ino, n - 1, i);
      NamingJoin(ForestRecords(t, ino, n - 1), TreeRecords(c, j, ino), i);
      assert t.children[..n][..n - 1] == t.children[..n - 1];
      PrefixSums(t.children, n - 1);
      if i == ino || !(ino <= i < ChildInode(t, ino, n)) { UpNaming(c, j, ino, i); }
    }
  }

  /** Outside its own range a subtree names only the parent, with the `..` of its root. */
  lemma UpNaming(t: Node, ino: nat, parent: nat, i: nat)
    requires SourceTree.Scanned(t) && parent < ino && !(ino <= i < ino + NodeCount(t))
    ensures Naming(TreeRecords(t, ino, parent), i) == if i == parent && t.kind.Directory? then 1 else 0
  {
    hide NodesOf, Naming, AllWithin, NodeRecords, SourceTree.Scanned, NoDotDot, Parents;
    TreeWithin(t, ino, parent);
    NotMentioned(TreeRecords(t, ino, parent), ino, ino + NodeCount(t), parent, i);
    if i == parent && t.kind.Directory? {
      var own, forest := EntriesOf(ino, NodeRecords(t, ino, parent)), ForestRecords(t, ino, |t.children|);
      NamingJoin(own, forest, i);
      ForestWithin(t, ino, |t.children|);
      assert t.children[..|t.children|] == t.children;
      NotMentioned(forest, ino, ino + NodeCount(t), ino, i);
      OwnNaming(t, ino, parent, i);
      ChildrenNamedNone(t, ino, |t.children|, i);
    }
  }

  /** How often the records of one directory name inode i: once for `.`, once for `..`, once for
      each child so numbered. */
  lemma OwnNaming(t: Node, ino: nat, parent: nat, i: nat)
    requires SourceTree.Scanned(t)
    ensures Naming(EntriesOf(ino, NodeRecords(t, ino, parent)), i)
         == (if i == ino then 1 else 0) + (if i == parent then 1 else 0) + ChildrenNamed(t, ino, |t.children|, i)
  {
    hide NodesOf;
    var dots, rest := EntriesOf(ino, DotRecords(ino, parent)), EntriesOf(ino, ChildRecords(t, ino));
    assert EntriesOf(ino, NodeRecords(t, ino, parent)) == dots + rest;
    NamingJoin(dots, rest, i);
    assert dots[..1][..0] == [] && dots[..|dots| - 1] == dots[..1];
    assert Naming(dots[..1], i) == if ino == i then 1 else 0;
    ChildrenNaming(t, ino, |t.children|, i);
    assert rest[..|t.children|] == rest;
  }

  /** The number of children among the first n with inode number i. */
  function ChildrenNamed(t: Node, ino: nat, n: nat, i: nat): nat
    requires n <= |t.children|
  {
    if n == 0 then 0 else ChildrenNamed(t, ino, n - 1, i) + if ChildInode(t, ino, n - 1) == i then 1 else 0
  }

  lemma {:induction false} ChildrenNaming(t: Node, ino: nat, n: nat, i: nat)
    requires n <= |t.children|
    ensures Naming(EntriesOf(ino, ChildRecords(t, ino))[..n], i) == ChildrenNamed(t, ino, n, i)
    decreases n
  {
    hide NodesOf;
    var es := EntriesOf(ino, ChildRecords(t, ino));
    if n > 0 {
      assert es[..n][..n - 1] == es[..n - 1];
      ChildrenNaming(t, ino, n - 1, i);
    }
  }

  lemma {:induction false} ChildrenNamedNone(t: Node, ino: nat, n: nat, i: nat)
    requires n <= |t.children| && (i <= ino || i >= ChildInode(t, ino, n))
    ensures ChildrenNamed(t, ino, n, i) == 0
    decreases n
  {
    hide NodesOf;
    if n > 0 {
      PrefixSums(t.children, n - 1);
      ChildrenNamedNone(t, ino, n - 1, i);
    }
  }

  lemma {:induction false} ChildrenNamedAt(t: Node, ino: nat, n: nat, k: nat, i: nat)
    requires k < n <= |t.children| && ChildInode(t, ino, k) <= i < ChildInode(t, ino, k + 1)
    ensures ChildrenNamed(t, ino, n, i) == if i == ChildInode(t, ino, k) then 1 else 0
    decreases n
  {
    hide NodesOf;
    PrefixSums(t.children, n - 1);
    if k == n - 1 {
      ChildrenNamedNone(t, ino, n - 1, i);
    } else {
      SumsBelow(t.children, k + 1, n - 1);
      ChildrenNamedAt(t, ino, n - 1, k, i);
    }
  }

  lemma {:induction false} SumsBelow(ts: seq<Node>, k: nat, n: nat)
    requires k <= n <= |ts|
    ensures NodesOf(ts[..k]) <= NodesOf(ts[..n])
    decreases n
  {
    if k < n {
      PrefixSums(ts, n - 1);
      SumsBelow(ts, k, n - 1);
    }
  }

  /** Which child an inode number inside a subtree belongs to. */
  predicate InChild(t: Node, ino: nat, k: nat, i: nat)
    requires k < |t.children|
  {
    ChildInode(t, ino, k) <= i < ChildInode(t, ino, k) + NodeCount(t.children[k])
  }

  lemma ChildRange(t: Node, ino: nat, k: nat)
    requires k < |t.children|
    ensures ino < ChildInode(t, ino, k)
    ensures ChildInode(t, ino, k) + NodeCount(t.children[k]) == ChildInode(t, ino, k + 1) <= ino + NodeCount(t)
  {
    PrefixSums(t.children, k);
  }

  /** The ranges of different children do not meet. */
  lemma OtherChild(t: Node, ino: nat, k: nat, j: nat, i: nat)
    requires k < |t.children| && j < |t.children| && j != k && InChild(t, ino, k, i)
    ensures !InChild(t, ino, j, i)
  {
    hide NodesOf;
    ChildRange(t, ino, k);
    ChildRange(t, ino, j);
    if k < j { SumsBelow(t.children, k + 1, j); } else { SumsBelow(t.children, j + 1, k); }
  }

  /** Within the children's records, only those of its own child say anything about an inode. */
  lemma {:induction false} ForestAt(t: Node, ino: nat, n: nat, k: nat, i: nat)
    requires SourceTree.Scanned(t) && n <= |t.children| && k < |t.children| && InChild(t, ino, k, i)
    ensures var es := TreeRecords(t.children[k], ChildInode(t, ino, k), ino); var all := ForestRecords(t, ino, n);
      if k < n
      then Naming(all, i) == Naming(es, i) && Parents(all, i) == Parents(es, i)
           && LastDotDot(all, i) == LastDotDot(es, i)
      else Naming(all, i) == 0 && Parents(all, i) == 0 && NoDotDot(all, i)
    decreases n
  {
    hide TreeRecords, NodesOf, SourceTree.Scanned;
    if n > 0 {
      hide Naming, Parents, LastDotDot, NoDotDot;
      var c, j := t.children[n - 1], ChildInode(t, ino, n - 1);
      var front, last := ForestRecords(t, ino, n - 1), TreeRecords(c, j, ino);
      ChildScanned(t, n - 1);
      ForestAt(t, ino, n - 1, k, i);
      NamingJoin(front, last, i);
      ParentsJoin(front, last, i);
      DotDotJoin(front, last, i);
      if k != n - 1 {
        OtherChild(t, ino, k, n - 1, i);
        ChildRange(t, ino, k);
        Unmentioned(c, j, ino, i);
      } else {
        NoDotDotNone(front, i);
        if NoDotDot(last, i) { NoDotDotNone(last, i); }
      }
    }
  }

  lemma Unmentioned(t: Node, ino: nat, parent: nat, i: nat)
    requires SourceTree.Scanned(t) && !(ino <= i < ino + NodeCount(t)) && i != parent
    ensures var es := TreeRecords(t, ino, parent); Naming(es, i) == 0 && Parents(es, i) == 0 && NoDotDot(es, i)
  {
    TreeWithin(t, ino, parent);
    NotMentioned(TreeRecords(t, ino, parent), ino, ino + NodeCount(t), parent, i);
  }

  lemma OwnParents(t: Node, ino: nat, parent: nat, i: nat)
    requires SourceTree.Scanned(t)
    ensures Parents(EntriesOf(ino, NodeRecords(t, ino, parent)), i) == ChildrenNamed(t, ino, |t.children|, i)
  {
    hide NodesOf;
    var dots, rest := EntriesOf(ino, DotRecords(ino, parent)), EntriesOf(ino, ChildRecords(t, ino));
    assert EntriesOf(ino, NodeRecords(t, ino, parent)) == dots + rest;
    ParentsJoin(dots, rest, i);
    assert dots[..1][..0] == [] && dots[..|dots| - 1] == dots[..1];
    assert Parents(dots[..1], i) == 0;
    ChildrenParents(t, ino, |t.children|, i);
    assert rest[..|t.children|] == rest;
  }

  lemma {:induction false} ChildrenParents(t: Node, ino: nat, n: nat, i: nat)
    requires SourceTree.Scanned(t) && n <= |t.children|
    ensures Parents(EntriesOf(ino, ChildRecords(t, ino))[..n], i) == ChildrenNamed(t, ino, n, i)
    decreases n
  {
    hide NodesOf;
    var es := EntriesOf(ino, ChildRecords(t, ino));
    if n > 0 {
      assert es[..n][..n - 1] == es[..n - 1];
      ChildrenParents(t, ino, n - 1, i);
      ChildScanned(t, n - 1);
    }
  }

  lemma OwnDotDot(t: Node, ino: nat, parent: nat, d: nat)
    requires SourceTree.Scanned(t) && parent != 0
    ensures d != ino ==> NoDotDot(EntriesOf(ino, NodeRecords(t, ino, parent)), d)
    ensures LastDotDot(EntriesOf(ino, NodeRecords(t, ino, parent)), ino) == parent
    ensures !NoDotDot(EntriesOf(ino, NodeRecords(t, ino, parent)), ino)
  {
    hide NodesOf;
    var dots, rest := EntriesOf(ino, DotRecords(ino, parent)), EntriesOf(ino, ChildRecords(t, ino));
    var own := EntriesOf(ino, NodeRecords(t, ino, parent));
    assert own == dots + rest;
    assert IsDotDot(own[1], ino) && IsDotDot(dots[1], ino);
    forall k | 0 <= k < |rest|
      ensures !IsDotDot(rest[k], ino)
    {
      ChildScanned(t, k);
    }
    DotDotJoin(dots, rest, ino);
  }

  /** What the records of a directory's subtree say about an inode in child k: the directory names
      the child once, the rest is what the child's own subtree says. */
  lemma TreeAt(t: Node, ino: nat, parent: nat, k: nat, i: nat)
    requires SourceTree.Scanned(t) && t.kind.Directory? && 0 < parent <= ino && k < |t.children|
    requires InChild(t, ino, k, i)
    ensures var es, sub := TreeRecords(t, ino, parent), TreeRecords(t.children[k], ChildInode(t, ino, k), ino);
      var first := if i == ChildInode(t, ino, k) then 1 else 0;
      && Naming(es, i) == first + Naming(sub, i) && Parents(es, i) == first + Parents(sub, i)
      && LastDotDot(es, i) == LastDotDot(sub, i)
  {
    var own, forest := EntriesOf(ino, NodeRecords(t, ino, parent)), ForestRecords(t, ino, |t.children|);
    var sub := TreeRecords(t.children[k], ChildInode(t, ino, k), ino);
    assert TreeRecords(t, ino, parent) == own + forest;
    hide NodesOf, SourceTree.Scanned, NodeRecords, Naming, Parents, LastDotDot, TreeRecords, ForestRecords, NoDotDot;
    ChildRange(t, ino, k);
    NamingJoin(own, forest, i);
    ParentsJoin(own, forest, i);
    DotDotJoin(own, forest, i);
    ForestAt(t, ino, |t.children|, k, i);
    OwnNaming(t, ino, parent, i);
    OwnParents(t, ino, parent, i);
    OwnDotDot(t, ino, parent, i);
    NoDotDotNone(own, i);
    if NoDotDot(forest, i) { NoDotDotNone(forest, i); }
    ChildrenNamedAt(t, ino, |t.children|, k, i);
  }

  lemma SelfNotChild(t: Node, ino: nat, parent: nat)
    requires SourceTree.Scanned(t)
    ensures Parents(TreeRecords(t, ino, parent), ino) == 0
  {
    hide TreeRecords, AllWithin;
    TreeWithin(t, ino, parent);
    NotMentioned(TreeRecords(t, ino, parent), ino, ino + NodeCount(t), parent, ino);
  }

  /** What they say about the root of the subtree. */
  lemma TreeSelf(t: Node, ino: nat, parent: nat)
    requires SourceTree.Scanned(t) && 0 < parent <= ino
    ensures var es := TreeRecords(t, ino, parent);
      && Parents(es, ino) == 0
      && Naming(es, ino) == (if t.kind.Directory? then 1 + Subdirectories(t.children) +
                               (if parent == ino then 1 else 0) else 0)
      && (t.kind.Directory? ==> LastDotDot(es, ino) == parent)
  {
    SelfNotChild(t, ino, parent);
    if t.kind.Directory? {
      var own, forest := EntriesOf(ino, NodeRecords(t, ino, parent)), ForestRecords(t, ino, |t.children|);
      assert TreeRecords(t, ino, parent) == own + forest;
      hide NodesOf, SourceTree.Scanned, NodeRecords, Naming, Parents, LastDotDot, TreeRecords, ForestRecords, NoDotDot;
      NamingJoin(own, forest, ino);
      DotDotJoin(own, forest, ino);
      OwnNaming(t, ino, parent, ino);
      OwnDotDot(t, ino, parent, ino);
      ChildrenNamedNone(t, ino, |t.children|, ino);
      ForestNaming(t, ino, |t.children|, ino);
      assert t.children[..|t.children|] == t.children;
      ForestNotSelf(t, ino, |t.children|);
    }
  }

  lemma {:induction false} ForestNotSelf(t: Node, ino: nat, n: nat)
    requires SourceTree.Scanned(t) && n <= |t.children|
    ensures NoDotDot(ForestRecords(t, ino, n), ino)
    decreases n
  {
    hide TreeRecords, NodesOf, SourceTree.Scanned;
    if n > 0 {
      var c, j := t.children[n - 1], ChildInode(t, ino, n - 1);
      ForestNotSelf(t, ino, n - 1);
      ChildScanned(t, n - 1);
      ChildRange(t, ino, n - 1);
      TreeWithin(c, j, ino);
      NotMentioned(TreeRecords(c, j, ino), j, j + NodeCount(c), ino, ino);
    }
  }
}
