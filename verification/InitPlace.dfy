/** Where a member goes: the parser's walk over the text of a name, against inserting at the path the
    name stands for. */
module InitPlace {
  import opened Wrappers
  import opened KernelAbi
  import opened Paths
  import opened InitTree
  import opened MkInitramfs

  // ---------- joined paths ----------

  /** A path the parser takes: clean components of permitted length. */
  predicate PathOk(path: Path)
  {
    path != [] && forall k :: 0 <= k < |path| ==> Clean(path[k]) && |path[k]| <= NAME_MAX
  }

  lemma JoinSplit(path: Path)
    requires path != []
    ensures Join(path) == if |path| == 1 then path[0] else path[0] + [SLASH] + Join(path[1..])
  {
    assert Spell(path) == [SLASH] + path[0] + Spell(path[1..]);
    if |path| > 1 {
      assert Spell(path[1..]) == [SLASH] + Join(path[1..]);
    }
  }

  lemma JoinTokens(path: Path)
    requires path != [] && forall k :: 0 <= k < |path| ==> EntryName(path[k])
    ensures Tokens(Join(path)) == path
  {
    TokensSpell(path);
    assert Spell(path)[0] == SLASH && Spell(path)[1..] == Join(path);
  }

  // ---------- names and the paths they stand for ----------

  /** The path of a name, dots left out. */
  function FilePath(name: Name): Path
  {
    Parts(Tokens(name))
  }

  /** A text the parser can walk to a file: single slashes between components of permitted length, the
      last of which is not a dot. */
  predicate Walkable(text: Name)
  {
    var tokens := Tokens(text);
    && tokens != [] && text == Join(tokens) && tokens[|tokens| - 1] != DOT
    && forall k :: 0 <= k < |tokens| ==> |tokens[k]| <= NAME_MAX
  }

  /** Components the parser can walk along. */
  predicate TokensOk(tokens: Path)
  {
    && tokens != [] && tokens[|tokens| - 1] != DOT
    && forall k :: 0 <= k < |tokens| ==> EntryName(tokens[k]) && tokens[k] != DOTDOT && |tokens[k]| <= NAME_MAX
  }

  lemma TokensOkRest(tokens: Path)
    requires TokensOk(tokens) && |tokens| > 1
    ensures TokensOk(tokens[1..])
  {
    var rest := tokens[1..];
    assert rest[|rest| - 1] == tokens[|tokens| - 1];
  }

  /** Leaving the dots out leaves a path. */
  lemma {:induction false} PartsOk(tokens: Path)
    requires TokensOk(tokens)
    ensures PathOk(Parts(tokens))
    decreases |tokens|
  {
    assert EntryName(tokens[0]);
    if |tokens| > 1 {
      TokensOkRest(tokens);
      PartsOk(tokens[1..]);
    } else {
      assert Parts(tokens[1..]) == [];
    }
  }

  /** A path has itself for its parts, so its spelling stands for it. */
  lemma FilePathOfJoin(path: Path)
    requires PathOk(path)
    ensures FilePath(Join(path)) == path
  {
    hide Tokens, Join;
    assert forall k :: 0 <= k < |path| ==> Clean(path[k]);
    JoinTokens(path);
    PartsOfClean(path);
  }

  lemma AcceptedTokens(name: Name)
    requires Accepted(name) && NoNul(name) && Walkable(name)
    ensures TokensOk(Tokens(name))
  {
    TokensAreNames(name);
    hide Tokens, Join;
  }

  // ---------- the walk ----------

  /** Inserting at a path of components. */
  function Placed(view: View, dir: Path, path: Path, meta: Meta): Result<View>
    requires path != []
    decreases |path|
  {
    if |path| == 1 then Put(view, dir + [path[0]], meta)
    else match Entered(view, dir + [path[0]])
      case Err(e) => Err(e)
      case Ok(v) => Placed(v, dir + [path[0]], path[1..], meta)
  }

  /** Walking along components is inserting at their parts. */
  lemma {:induction false} WalkIsPlaced(view: View, dir: Path, tokens: Path, seen: bool, meta: Meta)
    requires TokensOk(tokens)
    ensures Parts(tokens) != [] && Walk(view, dir, Join(tokens), seen, meta) == Placed(view, dir, Parts(tokens), meta)
    decreases |tokens|
  {
    hide Walk, TokenEnd, Join, Entered, Put, Spell;
    var text, name, n := Join(tokens), tokens[0], |tokens[0]|;
    JoinSplit(tokens);
    assert EntryName(name);
    assert text[..n] == name;
    assert text[0..] == text && text[0..n] == text[..n];
    WalkStep(view, dir, text, 0, n, seen, meta);
    if |tokens| > 1 {
      var rest := tokens[1..];
      TokensOkRest(tokens);
      assert text[n + 1..] == Join(rest);
      WalkIsPlaced(view, dir, rest, seen, meta);
      if name == DOT {
        assert Parts(tokens) == Parts(rest);
      } else {
        var next := Entered(view, dir + [name]);
        if next.Ok? { WalkIsPlaced(next.value, dir + [name], rest, true, meta); }
        assert Parts(tokens)[0] == name && Parts(tokens)[1..] == Parts(rest);
      }
    } else {
      assert Parts(tokens[1..]) == [];
      assert Parts(tokens) == [name];
    }
  }

  /** The first turn of such a walk. */
  lemma WalkedOn(view: View, dir: Path, text: Name, seen: bool, meta: Meta) returns (v: View, d: Path, s: bool)
    requires text != [] && meta.kind == Regular && Walk(view, dir, text, seen, meta).Ok?
    ensures var n := TokenEnd(text);
      && 0 < n <= NAME_MAX && (n == |text| ==> text != DOT)
      && (n < |text| ==> Walk(v, d, text[n + 1..], s, meta).Ok?)
  {
    hide TokenEnd, Entered, Put;
    var n := TokenEnd(text);
    var name := text[..n];
    assert n == |text| ==> name == text;
    if n == |text| || name == DOT {
      v, d, s := view, dir, seen;
    } else {
      v, d, s := Entered(view, dir + [name]).value, dir + [name], true;
    }
  }

  lemma TokenSplit(text: Name)
    requires TokenEnd(text) > 0
    ensures var n := TokenEnd(text);
      && (n < |text| ==> text[n] == SLASH)
      && Tokens(text) == [text[..n]] + (if n < |text| then Tokens(text[n + 1..]) else [])
  {
    TokenStops(text);
    var rest := text[TokenEnd(text)..];
    if rest != [] { assert rest[1..] == text[TokenEnd(text) + 1..]; }
  }

  /** A text is walkable if its first component is short and what follows is walkable. */
  lemma WalkableOn(name: Name, rest: Name, text: Name)
    requires text == name + [SLASH] + rest && Tokens(text) == [name] + Tokens(rest)
    requires |name| <= NAME_MAX && Walkable(rest)
    ensures Walkable(text)
  {
    hide Tokens, Join;
    JoinSplit(Tokens(text));
    assert Tokens(text)[1..] == Tokens(rest);
  }

  /** A text the parser walks to a file without an error is walkable. */
  lemma {:induction false} WalkedText(view: View, dir: Path, text: Name, seen: bool, meta: Meta)
    requires text != [] && text[|text| - 1] != SLASH && meta.kind == Regular && Walk(view, dir, text, seen, meta).Ok?
    ensures Walkable(text)
    decreases |text|
  {
    hide Walk, TokenEnd, Tokens, Join;
    var n := TokenEnd(text);
    var name := text[..n];
    var v, d, s := WalkedOn(view, dir, text, seen, meta);
    TokenSplit(text);
    if n == |text| {
      assert name == text && Tokens(text) == [text];
      JoinSplit([text]);
    } else {
      var rest := text[n + 1..];
      assert rest != [] && rest[|rest| - 1] == text[|text| - 1];
      WalkedText(v, d, rest, s, meta);
      assert name + [SLASH] + rest == text;
      WalkableOn(name, rest, text);
    }
  }

  /** Nothing on the way is anything but a directory, and the place is free or only implied. */
  predicate Ready(view: View, q: Path, down: nat, meta: Meta)
  {
    && (forall k :: down < k < |q| && q[..k] in view ==> view[q[..k]].kind == Directory)
    && Put(view, q, meta).Ok?
  }

  /** The path is on the way to q, below the first `down` components. */
  predicate OnTheWay(p: Path, q: Path, down: nat)
  {
    p <= q && |p| > down
  }

  /** What an insertion does to a tree: the path and the directories on the way to it are there,
      and nothing else changed. */
  ghost predicate Became(view: View, v: View, q: Path, down: nat, meta: Meta)
  {
    && (forall p :: p in v <==> p in view || OnTheWay(p, q, down))
    && (forall p :: p in v ==> v[p] == if p == q then meta else if p in view then view[p] else IMPLIED)
  }

  lemma {:induction false} PlacedExactly(view: View, dir: Path, path: Path, meta: Meta)
    requires path != []
    ensures var r, q := Placed(view, dir, path, meta), dir + path;
      (r.Ok? <==> Ready(view, q, |dir|, meta)) && (r.Ok? ==> Became(view, r.value, q, |dir|, meta))
    decreases |path|
  {
    var q, step := dir + path, dir + [path[0]];
    if |path| == 1 {
      assert q == step;
      forall p
        ensures OnTheWay(p, q, |dir|) <==> p == q
      {
        if OnTheWay(p, q, |dir|) { assert p == q[..|p|] == q; }
      }
    } else {
      assert q[..|dir| + 1] == step;
      var next := Entered(view, step);
      if next.Ok? {
        assert step + path[1..] == q;
        PlacedExactly(next.value, step, path[1..], meta);
        EnteredReady(view, next.value, q, |dir|, meta);
        var r := Placed(view, dir, path, meta);
        if r.Ok? {
          EnteredBecame(view, next.value, r.value, q, |dir|, meta);
        }
      }
    }
  }

  /** Entering a directory leaves the rest of the way as ready as it was. */
  lemma EnteredReady(view: View, next: View, q: Path, down: nat, meta: Meta)
    requires down + 1 < |q| && Entered(view, q[..down + 1]) == Ok(next)
    ensures Ready(view, q, down, meta) <==> Ready(next, q, down + 1, meta)
  {
    var step := q[..down + 1];
    assert step != q;
    forall k | down + 1 < k < |q|
      ensures q[..k] != step
    {
      assert |q[..k]| != |step|;
    }
  }

  lemma EnteredBecame(view: View, next: View, v: View, q: Path, down: nat, meta: Meta)
    requires down + 1 < |q| && Entered(view, q[..down + 1]) == Ok(next) && Became(next, v, q, down + 1, meta)
    ensures Became(view, v, q, down, meta)
  {
    var step := q[..down + 1];
    assert step != q;
    forall p
      ensures OnTheWay(p, q, down) <==> p == step || OnTheWay(p, q, down + 1)
    {
      if OnTheWay(p, q, down) && |p| == down + 1 { assert p == q[..|p|]; }
    }
  }
}
