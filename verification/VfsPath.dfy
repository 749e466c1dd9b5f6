/** Canonical paths (kernel/fs/vfs.c): a path is resolved by editing a buffer in place, and the
    buffer always spells a stack of components. */
module VfsPath {
  import opened KernelAbi
  import opened Bytes
  import opened Paths

  // ---------- the component stack ----------

  /** A stack as an absolute path. */
  function Render(stack: seq<seq<byte>>): seq<byte>
  {
    if stack == [] then [SLASH] else Spell(stack)
  }

  /** One component: a dot stays, two dots go up and stop at the root, a name goes down. */
  function Step(stack: seq<seq<byte>>, name: seq<byte>): seq<seq<byte>>
  {
    if name == DOT then stack
    else if name == DOTDOT then (if stack == [] then [] else stack[..|stack| - 1])
    else stack + [name]
  }

  /** The normal form of a stack followed by components. */
  function Normal(stack: seq<seq<byte>>, names: seq<seq<byte>>): seq<seq<byte>>
    decreases |names|
  {
    if names == [] then stack else Normal(Step(stack, names[0]), names[1..])
  }

  /** The component is no longer than a name may be, and the path so far fits with its terminator. */
  predicate StepFits(stack: seq<seq<byte>>, name: seq<byte>, size: nat)
  {
    name == DOT || name == DOTDOT
    || (|name| <= NAME_MAX && |Render(stack + [name])| + 1 <= size && |Render(stack + [name])| + 1 <= PATH_MAX)
  }

  predicate Fits(stack: seq<seq<byte>>, names: seq<seq<byte>>, size: nat)
    decreases |names|
  {
    names == [] || (StepFits(stack, names[0], size) && Fits(Step(stack, names[0]), names[1..], size))
  }

  /** The components a path names: those of the working directory first, unless it is absolute. */
  function Named(cwd: seq<byte>, path: seq<byte>): seq<seq<byte>>
    requires path != []
  {
    (if path[0] == SLASH then [] else Tokens(cwd)) + Tokens(path)
  }

  function Canonical(cwd: seq<byte>, path: seq<byte>): seq<seq<byte>>
    requires path != []
  {
    Normal([], Named(cwd, path))
  }

  lemma {:induction false} NormalConcat(stack: seq<seq<byte>>, a: seq<seq<byte>>, b: seq<seq<byte>>, size: nat)
    ensures Normal(stack, a + b) == Normal(Normal(stack, a), b)
    ensures Fits(stack, a + b, size) <==> Fits(stack, a, size) && Fits(Normal(stack, a), b, size)
    decreases |a|
  {
    hide Step, StepFits;
    if a == [] {
      assert a + b == b;
    } else {
      assert (a + b)[1..] == a[1..] + b && (a + b)[0] == a[0];
      NormalConcat(Step(stack, a[0]), a[1..], b, size);
    }
  }

  lemma StepClean(stack: seq<seq<byte>>, name: seq<byte>)
    requires CleanStack(stack) && EntryName(name)
    ensures CleanStack(Step(stack, name))
  {
  }

  /** The normal form has no empty component and no dots. */
  lemma {:induction false} NormalClean(stack: seq<seq<byte>>, names: seq<seq<byte>>)
    requires CleanStack(stack) && forall k :: 0 <= k < |names| ==> EntryName(names[k])
    ensures CleanStack(Normal(stack, names))
    decreases |names|
  {
    hide CleanStack, EntryName, Step;
    if names != [] {
      StepClean(stack, names[0]);
      NormalClean(Step(stack, names[0]), names[1..]);
    }
  }

  lemma {:induction false} NormalOfClean(stack: seq<seq<byte>>, names: seq<seq<byte>>)
    requires CleanStack(names)
    ensures Normal(stack, names) == stack + names
    decreases |names|
  {
    if names == [] {
      assert stack + names == stack;
    } else {
      assert Step(stack, names[0]) == stack + [names[0]];
      NormalOfClean(stack + [names[0]], names[1..]);
      assert stack + [names[0]] + names[1..] == stack + names;
    }
  }

  /** What canonicalisation yields is already canonical. */
  lemma CanonicalFixed(cwd: seq<byte>, path: seq<byte>, other: seq<byte>)
    requires path != [] && NoNul(cwd) && NoNul(path)
    ensures CleanStack(Canonical(cwd, path))
    ensures Render(Canonical(cwd, path)) != [] && Canonical(other, Render(Canonical(cwd, path))) == Canonical(cwd, path)
  {
    TokensAreNames(cwd);
    TokensAreNames(path);
    NormalClean([], Named(cwd, path));
    var stack := Canonical(cwd, path);
    TokensSpell(stack);
    RenderTokens(stack);
    NormalOfClean([], stack);
    assert [] + stack == stack;
  }

  lemma RenderTokens(stack: seq<seq<byte>>)
    requires CleanStack(stack)
    ensures Render(stack) != [] && Render(stack)[0] == SLASH && Tokens(Render(stack)) == stack
  {
    TokensSpell(stack);
    if stack == [] {
      assert [SLASH][1..] == [];
    }
  }

  // ---------- lengths ----------

  lemma SpellPush(stack: seq<seq<byte>>, name: seq<byte>)
    ensures Spell(stack + [name]) == Spell(stack) + [SLASH] + name
  {
    SpellConcat(stack, [name]);
    assert [name][1..] == [];
    assert Spell([name]) == [SLASH] + name;
  }

  predicate ShortNames(names: seq<seq<byte>>)
  {
    forall k :: 0 <= k < |names| ==> |names[k]| <= NAME_MAX
  }

  lemma {:induction false} FitsWhen(stack: seq<seq<byte>>, names: seq<seq<byte>>, size: nat)
    requires |Spell(stack)| + |Spell(names)| < size && |Spell(stack)| + |Spell(names)| < PATH_MAX
    ensures Fits(stack, names, size) <==> ShortNames(names)
    decreases |names|
  {
    if names != [] {
      var name, rest := names[0], names[1..];
      SpellPush(stack, name);
      if name == DOTDOT && stack != [] {
        var n := |stack| - 1;
        SpellPush(stack[..n], stack[n]);
        assert stack[..n] + [stack[n]] == stack;
      }
      assert |Spell(Step(stack, name))| <= |Spell(stack)| + 1 + |name|;
      FitsWhen(Step(stack, name), rest, size);
      assert ShortNames(names) <==> |name| <= NAME_MAX && ShortNames(rest);
    }
  }

  /** With a buffer of full size, an absolute path of permitted length is refused exactly when one
      of its components is too long. */
  lemma AbsoluteFits(path: seq<byte>, size: nat)
    requires 0 < |path| < PATH_MAX <= size && path[0] == SLASH
    ensures Fits([], Tokens(path), size) <==> ShortNames(Tokens(path))
  {
    TokensLength(path);
    FitsWhen([], Tokens(path), size);
  }

  /** The stack has short names and its path fits. */
  predicate Room(stack: seq<seq<byte>>, size: nat)
  {
    ShortNames(stack) && |Render(stack)| < size && |Render(stack)| < PATH_MAX
  }

  lemma StepRoom(stack: seq<seq<byte>>, name: seq<byte>, size: nat)
    requires CleanStack(stack) && EntryName(name) && Room(stack, size) && StepFits(stack, name, size)
    ensures Room(Step(stack, name), size)
  {
    if name == DOTDOT && stack != [] {
      var n := |stack| - 1;
      SpellPush(stack[..n], stack[n]);
      assert stack[..n] + [stack[n]] == stack && ShortNames(stack[..n]);
    }
  }

  lemma {:induction false} NormalRoom(stack: seq<seq<byte>>, names: seq<seq<byte>>, size: nat)
    requires CleanStack(stack) && (forall k :: 0 <= k < |names| ==> EntryName(names[k]))
    requires Room(stack, size) && Fits(stack, names, size)
    ensures Room(Normal(stack, names), size)
    decreases |names|
  {
    hide CleanStack, EntryName, Step, StepFits, Room;
    if names != [] {
      StepClean(stack, names[0]);
      StepRoom(stack, names[0], size);
      NormalRoom(Step(stack, names[0]), names[1..], size);
    }
  }

  /** A path that was canonicalised can be again, in the same space, from any directory. */
  lemma FitsAgain(cwd: seq<byte>, path: seq<byte>, other: seq<byte>, size: nat)
    requires path != [] && NoNul(cwd) && NoNul(path) && size >= 2 && Fits([], Named(cwd, path), size)
    ensures var again := Render(Canonical(cwd, path));
      0 < |again| < PATH_MAX && Fits([], Named(other, again), size)
  {
    TokensAreNames(cwd);
    TokensAreNames(path);
    NormalClean([], Named(cwd, path));
    var stack := Canonical(cwd, path);
    NormalRoom([], Named(cwd, path), size);
    RenderTokens(stack);
    FitsWhen([], stack, size);
    assert [] + stack == stack;
  }

  // ---------- the buffer ----------

  /** The buffer spells the stack and is terminated. */
  predicate Holds(buffer: seq<byte>, used: nat, stack: seq<seq<byte>>)
  {
    CleanStack(stack) && used < |buffer| && used <= PATH_MAX && buffer[..used] == Render(stack) && buffer[used] == 0
  }

  lemma {:induction false} SpellLong(stack: seq<seq<byte>>)
    requires CleanStack(stack) && stack != []
    ensures |Spell(stack)| > 1 && Spell(stack)[0] == SLASH
  {
  }

  /** The length a push arrives at. */
  lemma PushLength(buffer: seq<byte>, used: nat, stack: seq<seq<byte>>, name: seq<byte>)
    requires Holds(buffer, used, stack)
    ensures used >= 1 && (used > 1 <==> stack != [])
    ensures |Render(stack + [name])| == used + (if used > 1 then 1 else 0) + |name|
    ensures Render(stack + [name]) == buffer[..used] + (if used > 1 then [SLASH] else []) + name
  {
    SpellPush(stack, name);
    if stack != [] { SpellLong(stack); }
  }

  /** copy_bytes. */
  method CopyBytes(result: array<byte>, at: nat, bytes: seq<byte>)
    requires at + |bytes| <= result.Length
    modifies result
    ensures result[..] == old(result[..at]) + bytes + old(result[at + |bytes|..])
  {
    var i := 0;
    while i < |bytes|
      invariant 0 <= i <= |bytes|
      invariant forall k :: 0 <= k < result.Length ==>
        result[k] == if at <= k < at + i then bytes[k - at] else old(result[k])
    {
      result[at + i] := bytes[i];
      i := i + 1;
    }
  }

  /** append_component. */
  method AppendComponent(result: array<byte>, used: nat, name: seq<byte>,
                         ghost stack: seq<seq<byte>>)
    returns (status: int, length: nat)
    requires Holds(result[..], used, stack) && Clean(name)
    modifies result
    ensures status == if StepFits(stack, name, result.Length) then OK else ENAMETOOLONG
    ensures status == OK ==> Holds(result[..], length, stack + [name])
    ensures status != OK ==> length == used && unchanged(result)
  {
    hide Render, CleanStack;
    PushLength(result[..], used, stack, name);
    CleanMore(stack, name);
    if |name| > NAME_MAX {
      return ENAMETOOLONG, used;
    }
    var required := used + (if used > 1 then 1 else 0) + |name| + 1;
    if required > result.Length || required > PATH_MAX {
      return ENAMETOOLONG, used;
    }
    length := used;
    if used > 1 {
      result[length] := SLASH;
      length := length + 1;
    }
    ghost var front := result[..length];
    assert front == old(result[..used]) + (if used > 1 then [SLASH] else []);
    CopyBytes(result, length, name);
    length := length + |name|;
    assert result[..length] == front + name;
    result[length] := 0;
    assert result[..length] == front + name;
    return OK, length;
  }

  lemma CleanMore(stack: seq<seq<byte>>, name: seq<byte>)
    requires CleanStack(stack) && Clean(name)
    ensures CleanStack(stack + [name])
  {
  }

  /** The last component of a stack, in its path. */
  lemma TopComponent(buffer: seq<byte>, used: nat, stack: seq<seq<byte>>)
    requires Holds(buffer, used, stack) && stack != []
    ensures var n := |stack| - 1; var cut := |Spell(stack[..n])|;
      && used == cut + 1 + |stack[n]| && 1 < used && buffer[cut] == SLASH && buffer[..cut] == Spell(stack[..n])
      && forall k :: cut < k < used ==> buffer[k] != SLASH
  {
    var n := |stack| - 1;
    var top, cut := stack[n], |Spell(stack[..n])|;
    SpellPush(stack[..n], top);
    assert stack[..n] + [top] == stack && Clean(top);
    var path := buffer[..used];
    assert path == Spell(stack[..n]) + [SLASH] + top;
    assert buffer[cut] == path[cut];
    assert buffer[..cut] == path[..cut];
    forall k | cut < k < used
      ensures buffer[k] != SLASH
    {
      assert buffer[k] == path[k] == top[k - cut - 1];
    }
  }

  lemma CleanLess(stack: seq<seq<byte>>)
    requires CleanStack(stack) && stack != []
    ensures CleanStack(stack[..|stack| - 1])
    ensures Render(stack[..|stack| - 1]) == if |stack| == 1 then [SLASH] else Spell(stack[..|stack| - 1])
    ensures |stack| > 1 ==> |Spell(stack[..|stack| - 1])| > 1
    ensures |stack| == 1 ==> Spell(stack[..|stack| - 1]) == []
  {
    if |stack| > 1 { SpellLong(stack[..|stack| - 1]); }
  }

  /** pop_component. */
  method PopComponent(result: array<byte>, used: nat, ghost stack: seq<seq<byte>>) returns (length: nat)
    requires Holds(result[..], used, stack)
    modifies result
    ensures Holds(result[..], length, Step(stack, DOTDOT))
  {
    hide CleanStack, Clean;
    PushLength(result[..], used, stack, DOT);
    if used <= 1 {
      result[1] := 0;
      assert result[..1] == old(result[..])[..1];
      return 1;
    }
    ghost var n := |stack| - 1;
    ghost var cut := |Spell(stack[..n])|;
    TopComponent(result[..], used, stack);
    CleanLess(stack);
    length := used;
    while length > 1 && result[length - 1] != SLASH
      invariant 1 <= length && cut + 1 <= length <= used
    {
      length := length - 1;
    }
    assert length == cut + 1;
    if length > 1 {
      length := length - 1;
    }
    assert result[..length] == result[..][..length];
    assert result[..length] == Render(stack[..n]);
    result[length] := 0;
    assert result[..length] == Render(stack[..n]);
  }

  // ---------- reading a path ----------

  lemma SkipSlash(path: seq<byte>, cursor: nat)
    requires cursor < |path| && path[cursor] == SLASH
    ensures Tokens(path[cursor..]) == Tokens(path[cursor + 1..])
  {
    assert path[cursor..][1..] == path[cursor + 1..];
  }

  lemma NextToken(path: seq<byte>, start: nat, cursor: nat)
    requires NoNul(path) && start < cursor <= |path|
    requires (forall k :: start <= k < cursor ==> path[k] != SLASH) && (cursor < |path| ==> path[cursor] == SLASH)
    ensures EntryName(path[start..cursor])
    ensures Tokens(path[start..]) == [path[start..cursor]] + Tokens(path[cursor..])
  {
    var name, rest := path[start..cursor], path[cursor..];
    assert path[start..] == name + rest;
    TokenEndIs(name, rest);
    assert (name + rest)[..|name|] == name && (name + rest)[|name|..] == rest;
  }

  lemma ReadStep(stack: seq<seq<byte>>, name: seq<byte>, rest: seq<seq<byte>>, size: nat)
    ensures Normal(stack, [name] + rest) == Normal(Step(stack, name), rest)
    ensures Fits(stack, [name] + rest, size) <==> StepFits(stack, name, size) && Fits(Step(stack, name), rest, size)
  {
    assert ([name] + rest)[1..] == rest;
  }

  /** consume_path. */
  method ConsumePath(path: seq<byte>, result: array<byte>, used: nat, ghost stack: seq<seq<byte>>)
    returns (status: int, length: nat)
    requires Holds(result[..], used, stack) && NoNul(path)
    modifies result
    ensures status == if Fits(stack, Tokens(path), result.Length) then OK else ENAMETOOLONG
    ensures status == OK ==> Holds(result[..], length, Normal(stack, Tokens(path)))
  {
    hide Fits, Normal, StepFits, Holds, Tokens, EntryName;
    length := used;
    ghost var now := stack;
    var cursor := 0;
    assert path[0..] == path;
    while cursor < |path|
      invariant 0 <= cursor <= |path| && Holds(result[..], length, now)
      invariant Normal(now, Tokens(path[cursor..])) == Normal(stack, Tokens(path))
      invariant Fits(now, Tokens(path[cursor..]), result.Length) <==> Fits(stack, Tokens(path), result.Length)
      decreases |path| - cursor
    {
      ghost var rest := Tokens(path[cursor..]);
      ghost var before := cursor;
      while cursor < |path| && path[cursor] == SLASH
        invariant before <= cursor <= |path| && Tokens(path[cursor..]) == rest && Holds(result[..], length, now)
      {
        SkipSlash(path, cursor);
        cursor := cursor + 1;
      }
      if cursor == |path| {
        break;
      }
      var start := cursor;
      while cursor < |path| && path[cursor] != SLASH
        invariant start <= cursor <= |path| && (cursor == start ==> path[cursor] != SLASH)
        invariant (forall k :: start <= k < cursor ==> path[k] != SLASH) && Holds(result[..], length, now)
      {
        cursor := cursor + 1;
      }
      var name := path[start..cursor];
      NextToken(path, start, cursor);
      ReadStep(now, name, Tokens(path[cursor..]), result.Length);
      status, length := ConsumeComponent(result, length, name, now);
      if status < 0 {
        return;
      }
      now := Step(now, name);
    }
    NothingLeft(path[|path|..], now, result.Length);
    return OK, length;
  }

  lemma NothingLeft(p: seq<byte>, stack: seq<seq<byte>>, size: nat)
    requires p == []
    ensures Tokens(p) == [] && Normal(stack, Tokens(p)) == stack && Fits(stack, Tokens(p), size)
  {
  }

  /** What consume_path does with one component. */
  method ConsumeComponent(result: array<byte>, used: nat, name: seq<byte>,
                          ghost stack: seq<seq<byte>>)
    returns (status: int, length: nat)
    requires Holds(result[..], used, stack) && EntryName(name)
    modifies result
    ensures status == if StepFits(stack, name, result.Length) then OK else ENAMETOOLONG
    ensures status == OK ==> Holds(result[..], length, Step(stack, name))
  {
    hide Holds;
    if |name| == 1 && name[0] == 46 {
      assert name == DOT;
      return OK, used;
    }
    if |name| == 2 && name[0] == 46 && name[1] == 46 {
      assert name == DOTDOT;
      length := PopComponent(result, used, stack);
      return OK, length;
    }
    status, length := AppendComponent(result, used, name, stack);
  }

  /** ns_vfs_canonicalize. */
  method Canonicalize(cwd: seq<byte>, path: seq<byte>, result: array<byte>) returns (status: int, ghost length: nat)
    requires NoNul(cwd) && NoNul(path)
    modifies result
    ensures status == if result.Length < 2 then EINVAL
                      else if path == [] then ENOENT
                      else if |path| >= PATH_MAX || |cwd| >= PATH_MAX then ENAMETOOLONG
                      else if cwd == [] || cwd[0] != SLASH then EINVAL
                      else if Fits([], Named(cwd, path), result.Length) then OK else ENAMETOOLONG
    ensures status == OK ==> Holds(result[..], length, Canonical(cwd, path))
  {
    hide Fits, Normal, Tokens, Holds;
    length := 0;
    if result.Length < 2 {
      return EINVAL, 0;
    }
    if path == [] {
      return ENOENT, 0;
    }
    if |path| >= PATH_MAX || |cwd| >= PATH_MAX {
      return ENAMETOOLONG, 0;
    }
    if cwd == [] || cwd[0] != SLASH {
      return EINVAL, 0;
    }
    result[0] := SLASH;
    result[1] := 0;
    RootHolds(result[..]);
    var used := 1;
    ghost var stack: seq<seq<byte>> := [];
    ghost var first := if path[0] == SLASH then [] else Tokens(cwd);
    NormalConcat([], first, Tokens(path), result.Length);
    NothingLeft([], [], result.Length);
    NoNames([], result.Length);
    if path[0] != SLASH {
      status, used := ConsumePath(cwd, result, used, []);
      if status < 0 {
        return;
      }
    }
    status, used := ConsumePath(path, result, used, Normal([], first));
    if status < 0 {
      return;
    }
    return OK, used;
  }

  lemma RootHolds(buffer: seq<byte>)
    requires |buffer| >= 2 && buffer[0] == SLASH && buffer[1] == 0
    ensures Holds(buffer, 1, [])
  {
  }

  lemma NoNames(stack: seq<seq<byte>>, size: nat)
    ensures Normal(stack, []) == stack && Fits(stack, [], size)
  {
  }
}
