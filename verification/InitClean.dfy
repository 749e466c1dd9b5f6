/** What any archive that parses adds up to (kernel/fs/initramfs.c): a tree whose names are names, and
    in which only directories have anything below them. */
module InitClean {
  import opened KernelAbi
  import opened Bytes
  import opened Paths
  import opened Newc
  import opened InitTree
  import opened Initramfs

  /** Components without NUL and slash, of one to 255 bytes, and no dots. */
  predicate NamesOk(p: Path)
  {
    forall k :: 0 <= k < |p| ==> Clean(p[k]) && |p[k]| <= NAME_MAX
  }

  /** The root is there, every other node lies in a directory that is there, and every path is made of
      names. */
  ghost predicate Grown(view: View)
  {
    && [] in view && view[[]].kind == Directory
    && forall p :: p in view && p != [] ==> NamesOk(p) && InDirectory(view, p)
  }

  predicate InDirectory(view: View, p: Path)
    requires p != []
  {
    var above := p[..|p| - 1];
    above in view && view[above].kind == Directory
  }

  lemma PutGrown(view: View, dir: Path, name: seq<byte>, meta: Meta)
    requires Grown(view) && dir in view && view[dir].kind == Directory && Clean(name) && |name| <= NAME_MAX
    requires dir + [name] !in view || (view[dir + [name]].kind == Directory && meta.kind == Directory)
    ensures Grown(view[dir + [name] := meta])
  {
    var path := dir + [name];
    var r := view[path := meta];
    assert path[..|path| - 1] == dir;
    assert NamesOk(dir) by { if dir != [] { assert dir in view; } }
    assert NamesOk(path);
    forall p | p in r && p != []
      ensures NamesOk(p) && InDirectory(r, p)
    {
      if p != path { assert p in view; }
    }
  }

  lemma RootGrown(view: View, meta: Meta)
    requires Grown(view) && meta.kind == Directory
    ensures Grown(view[[] := meta])
  {
    var r := view[[] := meta];
    forall p | p in r && p != []
      ensures NamesOk(p) && InDirectory(r, p)
    {
      assert p in view;
    }
  }

  /** One turn of a walk that goes on: the node or directory is put in place. */
  lemma StepGrown(view: View, dir: Path, name: seq<byte>, meta: Meta)
    requires Grown(view) && dir in view && view[dir].kind == Directory && Clean(name) && |name| <= NAME_MAX
    ensures var r := Put(view, dir + [name], meta); r.Ok? ==> Grown(r.value)
    ensures var r := Entered(view, dir + [name]);
      r.Ok? ==> Grown(r.value) && dir + [name] in r.value && r.value[dir + [name]].kind == Directory
  {
    hide Grown;
    if Put(view, dir + [name], meta).Ok? { PutGrown(view, dir, name, meta); }
    if dir + [name] !in view { PutGrown(view, dir, name, IMPLIED); }
  }

  lemma {:induction false} WalkGrown(view: View, dir: Path, text: seq<byte>, seen: bool, meta: Meta)
    requires Grown(view) && dir in view && view[dir].kind == Directory && NoNul(text)
    ensures var r := Walk(view, dir, text, seen, meta); r.Ok? ==> Grown(r.value)
    decreases |text|
  {
    hide Grown, TokenEnd, Put, Entered;
    if text == [] {
      if meta.kind == Directory { RootGrown(view, meta); }
    } else if 0 < TokenEnd(text) <= NAME_MAX {
      var n := TokenEnd(text);
      var name, rest := text[..n], if n == |text| then [] else text[n + 1..];
      TokenIsName(text);
      if name == DOT {
        WalkGrown(view, dir, rest, seen, meta);
      } else if name != DOTDOT {
        StepGrown(view, dir, name, meta);
        var next := Entered(view, dir + [name]);
        if n < |text| && next.Ok? { WalkGrown(next.value, dir + [name], rest, true, meta); }
      }
    }
  }

  /** No name that gets in goes up. */
  lemma {:induction false} NeverUp(view: View, dir: Path, text: seq<byte>, seen: bool, meta: Meta)
    requires Walk(view, dir, text, seen, meta).Ok?
    ensures DOTDOT !in Tokens(text)
    decreases |text|
  {
    hide TokenEnd, Put, Entered, Tokens;
    NoTokensLeft([]);
    if text != [] {
      var n := TokenEnd(text);
      var name, rest := text[..n], if n == |text| then [] else text[n + 1..];
      TokenLater(text);
      if name == DOT {
        NeverUp(view, dir, rest, seen, meta);
      } else if n < |text| {
        NeverUp(Entered(view, dir + [name]).value, dir + [name], rest, true, meta);
      }
    } else {
      NoTokensLeft(text);
    }
  }

  lemma NoTokensLeft(p: seq<byte>)
    requires p == []
    ensures Tokens(p) == []
  {
  }

  lemma TokenLater(text: seq<byte>)
    requires TokenEnd(text) > 0
    ensures var n := TokenEnd(text);
      Tokens(text) == [text[..n]] + Tokens(if n == |text| then [] else text[n + 1..])
  {
    TokenStops(text);
    var n := TokenEnd(text);
    if n < |text| { assert text[n..][1..] == text[n + 1..]; } else { assert text[n..] == []; }
  }

  lemma RecordNoNul(a: seq<byte>, at: nat)
    ensures ReadRecord(a, at).Ok? ==> NoNul(ReadRecord(a, at).value.name)
  {
    hide FieldsOk, FieldValue, CheckOk, Align4;
  }

  /** Whatever the bytes are, the tree is well grown. */
  lemma {:induction false} ParsedGrown(view: View, a: seq<byte>, at: nat)
    requires Grown(view)
    ensures Parsed(view, a, at).Ok? ==> Grown(Parsed(view, a, at).value)
    decreases |a| - at
  {
    hide ReadRecord, Walk, Grown;
    if at < |a| && ReadRecord(a, at).Ok? {
      RecordAdvances(a, at);
      RecordNoNul(a, at);
      var r := ReadRecord(a, at).value;
      var kind := TypeOf(r.mode);
      if r.name != TRAILER && kind.Some? {
        RootThere(view);
        WalkGrown(view, [], r.name, false, MetaFor(kind.value, r.mode, r.mtime * NANOSECONDS, r.data));
        var v := Inserted(view, r.name, r.mode, r.mtime * NANOSECONDS, r.data);
        if v.Ok? { ParsedGrown(v.value, a, r.next); }
      }
    }
  }

  lemma RootThere(view: View)
    requires Grown(view)
    ensures [] in view && view[[]].kind == Directory
  {
  }
}
