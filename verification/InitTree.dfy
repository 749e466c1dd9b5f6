/** The tree the archive parser grows (kernel/fs/initramfs.c): nodes linked to their parents and
    children, addressed by number in the order they were allocated. */
module InitTree {
  import opened Wrappers
  import opened KernelAbi
  import opened Bytes
  import opened Paths

  datatype Kind = Regular | Directory | Character | BlockDevice

  /** What a node says about itself; the data is kept for regular files only. */
  datatype Meta = Meta(kind: Kind, mode: nat, mtime: nat, data: seq<byte>, implied: bool)

  type Path = seq<seq<byte>>

  /** What a tree holds: the node at every path, the root's being empty. */
  type View = map<Path, Meta>

  const IMPLIED: Meta := Meta(Directory, 493, 0, [], true)
  const ROOT: Meta := Meta(Directory, 493, 0, [], false)

  /** archive_type. */
  function TypeOf(mode: nat): Option<Kind>
  {
    var t := mode / 4096 % 16;
    if t == 8 then Some(Regular) else if t == 4 then Some(Directory)
    else if t == 2 then Some(Character) else if t == 6 then Some(BlockDevice) else None
  }

  function MetaFor(kind: Kind, mode: nat, mtime: nat, data: seq<byte>): Meta
  {
    Meta(kind, mode % 4096, mtime, if kind == Regular then data else [], false)
  }

  // ---------- inserting a member, on paths ----------

  /** Going down to a directory, which comes into being if it is not there. */
  function Entered(view: View, path: Path): Result<View>
  {
    if path !in view then Ok(view[path := IMPLIED])
    else if view[path].kind != Directory then Err(ENOTDIR)
    else Ok(view)
  }

  /** Putting a node in place: only a directory that was merely implied may be there already. */
  function Put(view: View, path: Path, meta: Meta): Result<View>
  {
    if path in view && !(view[path].implied && view[path].kind == Directory && meta.kind == Directory) then Err(EEXIST)
    else Ok(view[path := meta])
  }

  /** insert_member from some place in its path on: the directory reached, the text left, and
      whether a component was seen. */
  function Walk(view: View, dir: Path, text: seq<byte>, seen: bool, meta: Meta): Result<View>
    decreases |text|
  {
    if text == [] then
      if seen then Ok(view) else if meta.kind == Directory then Ok(view[[] := meta]) else Err(EINVAL)
    else
      var n := TokenEnd(text);
      var name, last := text[..n], n == |text|;
      var rest := if last then [] else text[n + 1..];
      if n == 0 then Err(EINVAL)
      else if n > NAME_MAX then Err(ENAMETOOLONG)
      else if name == DOT then (if last && seen then Err(EINVAL) else Walk(view, dir, rest, seen, meta))
      else if name == DOTDOT then Err(EINVAL)
      else if last then Put(view, dir + [name], meta)
      else match Entered(view, dir + [name])
        case Err(e) => Err(e)
        case Ok(v) => Walk(v, dir + [name], rest, true, meta)
  }

  /** insert_member. */
  function Inserted(view: View, name: seq<byte>, mode: nat, mtime: nat, data: seq<byte>): Result<View>
  {
    if name == [] || name[0] == SLASH then Err(EINVAL)
    else match TypeOf(mode)
      case None => Err(ENOSYS)
      case Some(kind) => Walk(view, [], name, false, MetaFor(kind, mode, mtime, data))
  }

  /** A text without a slash before n, and one or the end at n, has its first component end there. */
  lemma {:induction false} TokenEndAt(text: seq<byte>, n: nat)
    requires n <= |text| && (forall k :: 0 <= k < n ==> text[k] != SLASH) && (n < |text| ==> text[n] == SLASH)
    ensures TokenEnd(text) == n
  {
    if n > 0 { TokenEndAt(text[1..], n - 1); }
  }

  // ---------- the linked tree ----------

  datatype Node = Node(name: seq<byte>, meta: Meta, parent: nat, children: seq<nat>)

  /** The node's parent came before it, knows it and is a directory; its children came after it and
      know it. */
  predicate NodeOk(nodes: seq<Node>, i: nat)
    requires i < |nodes|
  {
    && (i > 0 ==> nodes[i].parent < i)
    && (i > 0 ==> i in nodes[nodes[i].parent].children && nodes[nodes[i].parent].meta.kind == Directory)
    && forall c :: c in nodes[i].children ==> i < c < |nodes| && nodes[c].parent == i
  }

  predicate Linked(nodes: seq<Node>)
  {
    |nodes| > 0 && nodes[0].meta.kind == Directory && forall i :: 0 <= i < |nodes| ==> NodeOk(nodes, i)
  }

  /** No two children of the node have the same name. */
  predicate TwinFree(nodes: seq<Node>, i: nat)
    requires Linked(nodes) && i < |nodes|
  {
    ChildrenKnown(nodes, i);
    forall c, d :: c in nodes[i].children && d in nodes[i].children && c != d ==> nodes[c].name != nodes[d].name
  }

  lemma ChildrenKnown(nodes: seq<Node>, i: nat)
    requires Linked(nodes) && i < |nodes|
    ensures forall c :: c in nodes[i].children ==> i < c < |nodes| && nodes[c].parent == i
  {
    assert NodeOk(nodes, i);
  }

  /** No directory has two children of the same name. */
  predicate NoTwins(nodes: seq<Node>)
    requires Linked(nodes)
  {
    forall i :: 0 <= i < |nodes| ==> TwinFree(nodes, i)
  }

  lemma Upward(nodes: seq<Node>, i: nat)
    requires Linked(nodes) && 0 < i < |nodes|
    ensures nodes[i].parent < i && i in nodes[nodes[i].parent].children && nodes[nodes[i].parent].meta.kind == Directory
  {
    assert NodeOk(nodes, i);
  }

  /** The path of a node, from the root. */
  function PathOf(nodes: seq<Node>, i: nat): Path
    requires Linked(nodes) && i < |nodes|
    decreases i
  {
    if i == 0 then [] else Upward(nodes, i); PathOf(nodes, nodes[i].parent) + [nodes[i].name]
  }

  /** The linked tree holds exactly what the view says. */
  ghost predicate Shows(nodes: seq<Node>, view: View)
    requires Linked(nodes)
  {
    && (forall i :: 0 <= i < |nodes| ==> PathOf(nodes, i) in view && view[PathOf(nodes, i)] == nodes[i].meta)
    && (forall p :: p in view ==> Reached(nodes, p))
  }

  ghost predicate Reached(nodes: seq<Node>, p: Path)
    requires Linked(nodes)
  {
    exists i :: 0 <= i < |nodes| && PathOf(nodes, i) == p
  }

  lemma SameBirth(nodes: seq<Node>, i: nat, j: nat)
    requires Linked(nodes) && NoTwins(nodes) && 0 < i < |nodes| && 0 < j < |nodes|
    requires nodes[i].parent == nodes[j].parent && nodes[i].name == nodes[j].name
    ensures i == j
  {
    Upward(nodes, i);
    Upward(nodes, j);
    assert TwinFree(nodes, nodes[i].parent);
  }

  /** So a path leads to one node. */
  lemma {:induction false} PathUnique(nodes: seq<Node>, i: nat, j: nat)
    requires Linked(nodes) && NoTwins(nodes) && i < |nodes| && j < |nodes| && PathOf(nodes, i) == PathOf(nodes, j)
    ensures i == j
    decreases i
  {
    hide Linked, NoTwins;
    if i > 0 {
      Upward(nodes, i);
      var a, b := PathOf(nodes, nodes[i].parent), nodes[i].name;
      assert j > 0;
      Upward(nodes, j);
      var c, d := PathOf(nodes, nodes[j].parent), nodes[j].name;
      LastSplit(a, b, c, d);
      PathUnique(nodes, nodes[i].parent, nodes[j].parent);
      SameBirth(nodes, i, j);
    }
  }

  lemma LastSplit(a: Path, b: seq<byte>, c: Path, d: seq<byte>)
    requires a + [b] == c + [d]
    ensures a == c && b == d
  {
    assert |a| == |c|;
    assert a == (a + [b])[..|a|] && c == (c + [d])[..|a|];
    assert b == (a + [b])[|a|] && d == (c + [d])[|a|];
  }

  // ---------- growing and changing it ----------

  function Attached(nodes: seq<Node>, dir: nat, name: seq<byte>, meta: Meta): seq<Node>
    requires dir < |nodes|
  {
    nodes[dir := nodes[dir].(children := [|nodes|] + nodes[dir].children)] + [Node(name, meta, dir, [])]
  }

  function Changed(nodes: seq<Node>, i: nat, meta: Meta): seq<Node>
    requires i < |nodes|
  {
    nodes[i := nodes[i].(meta := meta)]
  }

  lemma AttachedNode(nodes: seq<Node>, dir: nat, name: seq<byte>, meta: Meta, i: nat)
    requires Linked(nodes) && dir < |nodes| && nodes[dir].meta.kind == Directory && i < |nodes|
    ensures NodeOk(Attached(nodes, dir, name, meta), i)
  {
    var r := Attached(nodes, dir, name, meta);
    assert NodeOk(nodes, i);
    if i > 0 { assert i in r[nodes[i].parent].children; }
    forall c | c in r[i].children
      ensures i < c < |r| && r[c].parent == i
    {
      if c != |nodes| { assert c in nodes[i].children; } else { assert i == dir; }
    }
  }

  lemma AttachedLinked(nodes: seq<Node>, dir: nat, name: seq<byte>, meta: Meta)
    requires Linked(nodes) && dir < |nodes| && nodes[dir].meta.kind == Directory
    ensures Linked(Attached(nodes, dir, name, meta))
  {
    var r := Attached(nodes, dir, name, meta);
    forall i | 0 <= i < |r|
      ensures NodeOk(r, i)
    {
      if i < |nodes| {
        AttachedNode(nodes, dir, name, meta, i);
      } else {
        assert r[dir].children[0] == i;
      }
    }
  }

  predicate NoChild(nodes: seq<Node>, dir: nat, name: seq<byte>)
    requires Linked(nodes) && dir < |nodes|
  {
    ChildrenKnown(nodes, dir);
    forall c :: c in nodes[dir].children ==> nodes[c].name != name
  }

  lemma AttachedTwinFree(nodes: seq<Node>, dir: nat, name: seq<byte>, meta: Meta, i: nat)
    requires Linked(nodes) && NoTwins(nodes) && dir < |nodes| && nodes[dir].meta.kind == Directory
    requires NoChild(nodes, dir, name)
    requires Linked(Attached(nodes, dir, name, meta)) && i <= |nodes|
    ensures TwinFree(Attached(nodes, dir, name, meta), i)
  {
    var r := Attached(nodes, dir, name, meta);
    if i < |nodes| {
      assert TwinFree(nodes, i) && NodeOk(nodes, i);
      forall c, d | c in r[i].children && d in r[i].children && c != d
        ensures c < |r| && d < |r| && r[c].name != r[d].name
      {
        assert c == |nodes| || c in nodes[i].children;
        assert d == |nodes| || d in nodes[i].children;
      }
    }
  }

  lemma AttachedNoTwins(nodes: seq<Node>, dir: nat, name: seq<byte>, meta: Meta)
    requires Linked(nodes) && NoTwins(nodes) && dir < |nodes| && nodes[dir].meta.kind == Directory
    requires NoChild(nodes, dir, name)
    ensures Linked(Attached(nodes, dir, name, meta)) && NoTwins(Attached(nodes, dir, name, meta))
  {
    AttachedLinked(nodes, dir, name, meta);
    hide Linked;
    forall i | 0 <= i <= |nodes|
      ensures TwinFree(Attached(nodes, dir, name, meta), i)
    {
      AttachedTwinFree(nodes, dir, name, meta, i);
    }
  }

  lemma {:induction false} AttachedPath(nodes: seq<Node>, dir: nat, name: seq<byte>, meta: Meta, i: nat)
    requires Linked(nodes) && dir < |nodes| && nodes[dir].meta.kind == Directory && i < |nodes|
    ensures Linked(Attached(nodes, dir, name, meta)) && PathOf(Attached(nodes, dir, name, meta), i) == PathOf(nodes, i)
    decreases i
  {
    AttachedLinked(nodes, dir, name, meta);
    hide Linked;
    if i > 0 {
      Upward(nodes, i);
      AttachedPath(nodes, dir, name, meta, nodes[i].parent);
    }
  }

  /** The second tree has the paths of the first, and differs in the node at `at`, which is new or
      changed. */
  predicate Differs(nodes: seq<Node>, r: seq<Node>, path: Path, meta: Meta, at: nat)
    requires Linked(nodes) && Linked(r)
  {
    && |nodes| <= |r| <= |nodes| + 1 && at < |r| && (|r| > |nodes| ==> at == |nodes|)
    && PathOf(r, at) == path && r[at].meta == meta
    && forall i :: 0 <= i < |nodes| ==>
         PathOf(r, i) == PathOf(nodes, i) && (i != at ==> r[i].meta == nodes[i].meta && PathOf(nodes, i) != path)
  }

  lemma ReachedAfter(nodes: seq<Node>, view: View, r: seq<Node>, path: Path, meta: Meta, at: nat, p: Path)
    requires Linked(nodes) && Shows(nodes, view) && Linked(r) && Differs(nodes, r, path, meta, at)
    requires p in view[path := meta]
    ensures Reached(r, p)
  {
    hide Linked, PathOf;
    if p == path {
      assert PathOf(r, at) == p;
    } else {
      assert Reached(nodes, p);
      var i :| 0 <= i < |nodes| && PathOf(nodes, i) == p;
      assert PathOf(r, i) == p;
    }
  }

  lemma ShowsAfter(nodes: seq<Node>, view: View, r: seq<Node>, path: Path, meta: Meta, at: nat)
    requires Linked(nodes) && Shows(nodes, view) && Linked(r) && Differs(nodes, r, path, meta, at)
    ensures Shows(r, view[path := meta])
  {
    hide Linked, PathOf, Reached;
    var after := view[path := meta];
    forall p | p in after
      ensures Reached(r, p)
    {
      ReachedAfter(nodes, view, r, path, meta, at, p);
    }
  }

  /** A new child adds its path to the view. */
  lemma AttachedShows(nodes: seq<Node>, dir: nat, name: seq<byte>, meta: Meta, view: View)
    requires Linked(nodes) && NoTwins(nodes) && Shows(nodes, view)
    requires dir < |nodes| && nodes[dir].meta.kind == Directory && NoChild(nodes, dir, name)
    ensures var r, path := Attached(nodes, dir, name, meta), PathOf(nodes, dir) + [name];
      Linked(r) && NoTwins(r) && Shows(r, view[path := meta]) && PathOf(r, |nodes|) == path
  {
    var r, path := Attached(nodes, dir, name, meta), PathOf(nodes, dir) + [name];
    AttachedNoTwins(nodes, dir, name, meta);
    NoSuchPath(nodes, dir, name);
    hide Linked, NoTwins, Shows, NoChild;
    AttachedPath(nodes, dir, name, meta, dir);
    NewestPath(r, |nodes|);
    hide PathOf;
    forall i | 0 <= i < |nodes|
      ensures PathOf(r, i) == PathOf(nodes, i)
    {
      AttachedPath(nodes, dir, name, meta, i);
    }
    ShowsAfter(nodes, view, r, path, meta, |nodes|);
  }

  lemma NewestPath(nodes: seq<Node>, i: nat)
    requires Linked(nodes) && 0 < i < |nodes|
    ensures nodes[i].parent < |nodes| && PathOf(nodes, i) == PathOf(nodes, nodes[i].parent) + [nodes[i].name]
  {
    Upward(nodes, i);
  }

  /** A directory without a child of that name is the parent of no node at that path. */
  lemma NoSuchPath(nodes: seq<Node>, dir: nat, name: seq<byte>)
    requires Linked(nodes) && NoTwins(nodes) && dir < |nodes| && NoChild(nodes, dir, name)
    ensures forall i :: 0 <= i < |nodes| ==> PathOf(nodes, i) != PathOf(nodes, dir) + [name]
  {
    hide Linked, NoTwins;
    forall i | 0 <= i < |nodes|
      ensures PathOf(nodes, i) != PathOf(nodes, dir) + [name]
    {
      if i > 0 { NotThere(nodes, dir, name, i); }
    }
  }

  lemma NotThere(nodes: seq<Node>, dir: nat, name: seq<byte>, i: nat)
    requires Linked(nodes) && NoTwins(nodes) && dir < |nodes| && NoChild(nodes, dir, name) && 0 < i < |nodes|
    ensures PathOf(nodes, i) != PathOf(nodes, dir) + [name]
  {
    hide Linked, NoTwins;
    Upward(nodes, i);
    var p := nodes[i].parent;
    if PathOf(nodes, p) == PathOf(nodes, dir) { PathUnique(nodes, p, dir); }
    if PathOf(nodes, i) == PathOf(nodes, dir) + [name] {
      LastSplit(PathOf(nodes, p), nodes[i].name, PathOf(nodes, dir), name);
    }
  }

  lemma ChangedLinked(nodes: seq<Node>, i: nat, meta: Meta)
    requires Linked(nodes) && NoTwins(nodes) && i < |nodes|
    requires (nodes[i].meta.kind == Directory ==> meta.kind == Directory)
    ensures Linked(Changed(nodes, i, meta)) && NoTwins(Changed(nodes, i, meta))
  {
    var r := Changed(nodes, i, meta);
    forall j | 0 <= j < |r|
      ensures NodeOk(r, j)
    {
      assert NodeOk(nodes, j);
      if j > 0 { Upward(nodes, j); }
    }
    forall j | 0 <= j < |r|
      ensures TwinFree(r, j)
    {
      ChildrenKnown(nodes, j);
      assert TwinFree(nodes, j);
    }
  }

  lemma {:induction false} ChangedPath(nodes: seq<Node>, i: nat, meta: Meta, j: nat)
    requires i < |nodes| && Linked(nodes) && Linked(Changed(nodes, i, meta)) && j < |nodes|
    ensures PathOf(Changed(nodes, i, meta), j) == PathOf(nodes, j)
    decreases j
  {
    hide Linked;
    if j > 0 {
      Upward(nodes, j);
      ChangedPath(nodes, i, meta, nodes[j].parent);
    }
  }

  lemma ChangedShows(nodes: seq<Node>, i: nat, meta: Meta, view: View)
    requires Linked(nodes) && NoTwins(nodes) && Shows(nodes, view)
    requires i < |nodes| && (nodes[i].meta.kind == Directory ==> meta.kind == Directory)
    ensures var r := Changed(nodes, i, meta); Linked(r) && NoTwins(r) && Shows(r, view[PathOf(nodes, i) := meta])
  {
    var r := Changed(nodes, i, meta);
    ChangedLinked(nodes, i, meta);
    hide Linked, NoTwins, Shows, PathOf, NodeOk, TwinFree;
    forall j | 0 <= j < |nodes|
      ensures PathOf(r, j) == PathOf(nodes, j) && (j != i ==> PathOf(nodes, j) != PathOf(nodes, i))
    {
      ChangedPath(nodes, i, meta, j);
      if PathOf(nodes, j) == PathOf(nodes, i) { PathUnique(nodes, j, i); }
    }
    ShowsAfter(nodes, view, r, PathOf(nodes, i), meta, i);
  }

  class Initfs {
    var nodes: seq<Node>
    ghost var view: View

    ghost predicate Valid()
      reads this
    {
      Linked(nodes) && NoTwins(nodes) && Shows(nodes, view)
    }

    /** The root before any member is read. */
    constructor ()
      ensures Valid() && view == map[[] := ROOT]
    {
      nodes := [Node([], ROOT, 0, [])];
      view := map[[] := ROOT];
      new;
      assert PathOf(nodes, 0) == [];
    }

    /** find_child. */
    method FindChild(dir: nat, name: seq<byte>) returns (found: bool, child: nat)
      requires Valid() && dir < |nodes|
      ensures found <==> PathOf(nodes, dir) + [name] in view
      ensures found ==> dir < child < |nodes| && PathOf(nodes, child) == PathOf(nodes, dir) + [name]
      ensures !found ==> NoChild(nodes, dir, name)
    {
      ChildrenKnown(nodes, dir);
      hide Linked, NoTwins;
      var children := nodes[dir].children;
      var k := 0;
      while k < |children|
        invariant 0 <= k <= |children|
        invariant forall l :: 0 <= l < k ==> children[l] < |nodes| && nodes[children[l]].name != name
      {
        child := children[k];
        assert child in children;
        if nodes[child].name == name {
          NewestPath(nodes, child);
          return true, child;
        }
        k := k + 1;
      }
      NoSuchPath(nodes, dir, name);
      return false, 0;
    }

    /** Links a new node in. */
    method Attach(dir: nat, name: seq<byte>, meta: Meta) returns (child: nat)
      requires Valid() && dir < |nodes| && nodes[dir].meta.kind == Directory && NoChild(nodes, dir, name)
      modifies this
      ensures Valid() && view == old(view)[old(PathOf(nodes, dir)) + [name] := meta]
      ensures child < |nodes| && PathOf(nodes, child) == old(PathOf(nodes, dir)) + [name] && nodes[child].meta == meta
    {
      hide Linked, NoTwins, Shows, PathOf, NoChild;
      AttachedShows(nodes, dir, name, meta, view);
      child := |nodes|;
      view := view[PathOf(nodes, dir) + [name] := meta];
      nodes := Attached(nodes, dir, name, meta);
    }

    /** Writes a node's fields. */
    method SetMeta(i: nat, meta: Meta)
      requires Valid() && i < |nodes| && (nodes[i].meta.kind == Directory ==> meta.kind == Directory)
      modifies this
      ensures Valid() && view == old(view)[old(PathOf(nodes, i)) := meta]
    {
      hide Linked, NoTwins, Shows, PathOf;
      ChangedShows(nodes, i, meta, view);
      view := view[PathOf(nodes, i) := meta];
      nodes := Changed(nodes, i, meta);
    }

    /** get_directory. */
    method GetDirectory(parent: nat, name: seq<byte>) returns (status: int, dir: nat)
      requires Valid() && parent < |nodes| && nodes[parent].meta.kind == Directory
      modifies this
      ensures Valid()
      ensures var r := Entered(old(view), old(PathOf(nodes, parent)) + [name]);
        if r.Err? then status == r.code < 0
        else && status == OK && view == r.value && dir < |nodes| && nodes[dir].meta.kind == Directory
             && PathOf(nodes, dir) == old(PathOf(nodes, parent)) + [name]
    {
      var found, child := FindChild(parent, name);
      if found {
        if nodes[child].meta.kind != Directory {
          return ENOTDIR, 0;
        }
        return OK, child;
      }
      dir := Attach(parent, name, IMPLIED);
      return OK, dir;
    }

    /** The last component. */
    method PutNode(parent: nat, name: seq<byte>, meta: Meta) returns (status: int)
      requires Valid() && parent < |nodes| && nodes[parent].meta.kind == Directory
      modifies this
      ensures Valid()
      ensures var r := Put(old(view), old(PathOf(nodes, parent)) + [name], meta);
        if r.Err? then status == r.code < 0 else status == OK && view == r.value
    {
      var found, child := FindChild(parent, name);
      if found {
        if !(nodes[child].meta.implied && nodes[child].meta.kind == Directory && meta.kind == Directory) {
          return EEXIST;
        }
        SetMeta(child, meta);
        return OK;
      }
      var made := Attach(parent, name, meta);
      return OK;
    }

    /** insert_member. */
    method InsertMember(path: seq<byte>, mode: nat, mtime: nat, data: seq<byte>) returns (status: int)
      requires Valid()
      modifies this
      ensures Valid()
      ensures var r := Inserted(old(view), path, mode, mtime, data);
        if r.Err? then status == r.code < 0 else status == OK && view == r.value
    {
      hide Linked, NoTwins, Shows, PathOf, Walk, TokenEnd, TypeOf;
      if path == [] || path[0] == SLASH {
        return EINVAL;
      }
      var kind := TypeOf(mode);
      if kind.None? {
        return ENOSYS;
      }
      var meta := MetaFor(kind.value, mode, mtime, data);
      ghost var goal := Walk(view, [], path, false, meta);
      RootFacts();
      var dir: nat := 0;
      var cursor, seen := 0, false;
      assert path[0..] == path;
      while cursor < |path|
        invariant 0 <= cursor <= |path| && Valid() && dir < |nodes| && nodes[dir].meta.kind == Directory
        invariant Walk(view, PathOf(nodes, dir), path[cursor..], seen, meta) == goal
        decreases |path| - cursor
      {
        var start := cursor;
        while cursor < |path| && path[cursor] != SLASH
          invariant start <= cursor <= |path| && Valid() && dir < |nodes| && nodes[dir].meta.kind == Directory
          invariant Walk(view, PathOf(nodes, dir), path[start..], seen, meta) == goal
          invariant forall k :: start <= k < cursor ==> path[k] != SLASH
        {
          cursor := cursor + 1;
        }
        var name, last := path[start..cursor], cursor == |path|;
        var next := if last then cursor else cursor + 1;
        WalkStep(view, PathOf(nodes, dir), path, start, cursor, seen, meta);
        if name == [] {
          return EINVAL;
        }
        if |name| > NAME_MAX {
          return ENAMETOOLONG;
        }
        if name == DOT {
          if last && seen {
            return EINVAL;
          }
        } else if name == DOTDOT {
          return EINVAL;
        } else if !last {
          seen := true;
          status, dir := GetDirectory(dir, name);
          if status < 0 {
            return;
          }
        } else {
          seen := true;
          status := PutNode(dir, name, meta);
          if status < 0 {
            return;
          }
          RootFacts();
          dir := 0;
          WalkEnd(view, PathOf(nodes, dir), meta);
          assert path[next..] == [];
        }
        cursor := next;
      }
      WalkEnds(view, PathOf(nodes, dir), path[cursor..], seen, meta);
      if !seen && kind.value == Directory {
        RootFacts();
        SetMeta(0, meta);
        return OK;
      }
      return if seen then OK else EINVAL;
    }

    lemma RootFacts()
      requires Valid()
      ensures |nodes| > 0 && nodes[0].meta.kind == Directory && PathOf(nodes, 0) == []
    {
    }
  }

  /** One turn of the loop. */
  lemma WalkStep(view: View, dir: Path, path: seq<byte>, start: nat, cursor: nat, seen: bool, meta: Meta)
    requires start <= cursor <= |path| && start < |path| && (cursor < |path| ==> path[cursor] == SLASH)
    requires forall k :: start <= k < cursor ==> path[k] != SLASH
    ensures var name, last := path[start..cursor], cursor == |path|;
      var rest := path[if last then cursor else cursor + 1..];
      Walk(view, dir, path[start..], seen, meta) ==
      if name == [] then Err(EINVAL)
      else if |name| > NAME_MAX then Err(ENAMETOOLONG)
      else if name == DOT then (if last && seen then Err(EINVAL) else Walk(view, dir, rest, seen, meta))
      else if name == DOTDOT then Err(EINVAL)
      else if last then Put(view, dir + [name], meta)
      else match Entered(view, dir + [name])
        case Err(e) => Err(e)
        case Ok(v) => Walk(v, dir + [name], rest, true, meta)
  {
    var text, n := path[start..], cursor - start;
    TokenEndAt(text, n);
    assert text[..n] == path[start..cursor];
    if cursor < |path| {
      assert text[n + 1..] == path[cursor + 1..];
    } else {
      assert path[cursor..] == [];
    }
    hide TokenEnd, Entered, Put;
  }

  lemma WalkEnd(view: View, dir: Path, meta: Meta)
    ensures Walk(view, dir, [], true, meta) == Ok(view)
  {
  }

  lemma WalkEnds(view: View, dir: Path, text: seq<byte>, seen: bool, meta: Meta)
    requires text == []
    ensures Walk(view, dir, text, seen, meta) ==
      if seen then Ok(view) else if meta.kind == Directory then Ok(view[[] := meta]) else Err(EINVAL)
  {
  }
}
