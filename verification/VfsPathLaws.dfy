/** What canonical paths mean (kernel/fs/vfs.c): laws about the text of a path that fix its canonical
    form, from the root upwards. */
module VfsPathLaws {
  import opened Bytes
  import opened Paths
  import opened VfsPath

  /** What follows a slash, or nothing, is split on its own. */
  lemma {:induction false} TokensThen(p: seq<byte>, rest: seq<byte>)
    requires rest == [] || rest[0] == SLASH
    ensures Tokens(p + rest) == Tokens(p) + Tokens(rest)
    decreases |p|
  {
    if p == [] {
      assert p + rest == rest;
    } else if p[0] == SLASH {
      assert (p + rest)[1..] == p[1..] + rest;
      TokensThen(p[1..], rest);
    } else {
      var n := TokenEnd(p);
      TokenEndThen(p, rest);
      assert (p + rest)[..n] == p[..n] && (p + rest)[n..] == p[n..] + rest;
      TokensThen(p[n..], rest);
    }
  }

  lemma {:induction false} TokenEndThen(p: seq<byte>, rest: seq<byte>)
    requires rest == [] || rest[0] == SLASH
    ensures TokenEnd(p + rest) == TokenEnd(p)
  {
    if p == [] {
      assert p + rest == rest;
    } else if p[0] != SLASH {
      assert (p + rest)[1..] == p[1..] + rest;
      TokenEndThen(p[1..], rest);
    }
  }

  lemma TokensOne(name: seq<byte>)
    requires EntryName(name)
    ensures Tokens([SLASH] + name) == [name]
  {
    TokensHead(name, []);
    assert [SLASH] + name + [] == [SLASH] + name;
  }

  /** The canonical form of a path with one more component. */
  lemma OneMore(cwd: seq<byte>, path: seq<byte>, name: seq<byte>)
    requires path != [] && EntryName(name)
    ensures Canonical(cwd, path + [SLASH] + name) == Step(Canonical(cwd, path), name)
  {
    hide Tokens, Step;
    TokensThen(path, [SLASH] + name);
    TokensOne(name);
    assert path + [SLASH] + name == path + ([SLASH] + name);
    var before := Named(cwd, path);
    assert Named(cwd, path + [SLASH] + name) == before + [name];
    NormalConcat([], before, [name], 0);
    assert [name][1..] == [];
  }

  /** A name goes down one directory. */
  lemma NameAdds(cwd: seq<byte>, path: seq<byte>, name: seq<byte>)
    requires path != [] && Clean(name)
    ensures Canonical(cwd, path + [SLASH] + name) == Canonical(cwd, path) + [name]
  {
    OneMore(cwd, path, name);
  }

  /** A dot stays. */
  lemma DotStays(cwd: seq<byte>, path: seq<byte>)
    requires path != []
    ensures Canonical(cwd, path + [SLASH] + DOT) == Canonical(cwd, path)
  {
    OneMore(cwd, path, DOT);
  }

  /** Two dots take a name back. */
  lemma DotDotUndoes(cwd: seq<byte>, path: seq<byte>, name: seq<byte>)
    requires path != [] && Clean(name)
    ensures Canonical(cwd, path + [SLASH] + name + [SLASH] + DOTDOT) == Canonical(cwd, path)
  {
    OneMore(cwd, path, name);
    OneMore(cwd, path + [SLASH] + name, DOTDOT);
  }

  /** So two dots at the end take the last component off, and at the root there is none. */
  lemma DotDotPops(cwd: seq<byte>, path: seq<byte>)
    requires path != []
    ensures var was := Canonical(cwd, path);
      Canonical(cwd, path + [SLASH] + DOTDOT) == if was == [] then [] else was[..|was| - 1]
  {
    OneMore(cwd, path, DOTDOT);
  }

  /** The root is the empty path, and going up from it leads nowhere, whatever follows. */
  lemma RootStops(cwd: seq<byte>, rest: seq<byte>)
    requires rest == [] || rest[0] == SLASH
    ensures Canonical(cwd, [SLASH]) == []
    ensures Canonical(cwd, [SLASH] + DOTDOT + rest) == Canonical(cwd, [SLASH] + rest)
  {
    TokensOne(DOTDOT);
    TokensThen([SLASH] + DOTDOT, rest);
    TokensThen([SLASH], rest);
    assert [SLASH][1..] == [];
    assert Tokens([SLASH]) == [];
    hide Tokens;
    var names := Tokens(rest);
    assert [DOTDOT] + names == Named(cwd, [SLASH] + DOTDOT + rest);
    assert names == Named(cwd, [SLASH] + rest);
    ReadStep([], DOTDOT, names, 0);
  }

  /** Slashes may be doubled. */
  lemma SlashesMerge(cwd: seq<byte>, path: seq<byte>, rest: seq<byte>)
    ensures Canonical(cwd, path + [SLASH, SLASH] + rest) == Canonical(cwd, path + [SLASH] + rest)
  {
    var one, two := [SLASH] + rest, [SLASH, SLASH] + rest;
    TokensThen(path, one);
    TokensThen(path, two);
    assert two[1..] == one;
    assert Tokens(two) == Tokens(one);
    hide Tokens, Normal;
    assert path + [SLASH, SLASH] + rest == path + two && path + [SLASH] + rest == path + one;
    assert (path + two)[0] == SLASH <==> (path + one)[0] == SLASH;
  }

  /** One at the end means nothing. */
  lemma SlashEnds(cwd: seq<byte>, path: seq<byte>)
    requires path != []
    ensures Canonical(cwd, path + [SLASH]) == Canonical(cwd, path)
  {
    TokensThen(path, [SLASH]);
    assert [SLASH][1..] == [];
    assert Tokens([SLASH]) == [];
    hide Tokens, Normal;
    assert Tokens(path) + [] == Tokens(path);
  }

  /** A relative path starts at the working directory. */
  lemma RelativeStarts(cwd: seq<byte>, other: seq<byte>, path: seq<byte>)
    requires cwd != [] && cwd[0] == SLASH && path != [] && path[0] != SLASH
    ensures Canonical(cwd, path) == Canonical(other, cwd + [SLASH] + path)
  {
    var rest := [SLASH] + path;
    TokensThen(cwd, rest);
    assert rest[1..] == path;
    assert Tokens(rest) == Tokens(path);
    assert cwd + [SLASH] + path == cwd + rest;
    hide Tokens;
    assert [] + (Tokens(cwd) + Tokens(path)) == Tokens(cwd) + Tokens(path);
  }

  /** Single slashes, and none at the end unless it is the root. */
  predicate Tidy(text: seq<byte>)
  {
    && (forall i :: 0 < i < |text| ==> !(text[i - 1] == SLASH && text[i] == SLASH))
    && (|text| > 1 ==> text[|text| - 1] != SLASH)
  }

  lemma {:induction false} SpellTidy(names: seq<seq<byte>>)
    requires CleanStack(names)
    ensures Tidy(Spell(names)) && (names != [] ==> |Spell(names)| > 1)
    decreases |names|
  {
    if names != [] {
      var n := |names| - 1;
      assert names[..n] + [names[n]] == names && Clean(names[n]);
      SpellTidy(names[..n]);
      SpellPush(names[..n], names[n]);
      if n == 0 { assert Spell(names[..n]) == []; }
    }
  }

  /** The text of a canonical path begins with a slash and is tidy. */
  lemma CanonicalText(cwd: seq<byte>, path: seq<byte>)
    requires path != [] && NoNul(cwd) && NoNul(path)
    ensures var text := Render(Canonical(cwd, path)); text != [] && text[0] == SLASH && Tidy(text)
    ensures Tokens(Render(Canonical(cwd, path))) == Canonical(cwd, path)
  {
    hide Tokens, Normal, Named;
    CanonicalFixed(cwd, path, path);
    RenderTokens(Canonical(cwd, path));
    SpellTidy(Canonical(cwd, path));
  }
}
