/** Files the builder takes and makes an archive of that the kernel does not mount, one example for
    each way to fail. */
module InitRefused {
  import opened Bytes
  import opened Paths
  import opened KernelAbi
  import opened Newc
  import opened InitTree
  import opened MkInitramfs
  import opened InitPlace
  import opened InitRoundTrip

  const A: Name := [97]
  const B: Name := [98]

  predicate Components(tokens: Path)
  {
    tokens != [] && forall k :: 0 <= k < |tokens| ==> EntryName(tokens[k]) && tokens[k] != DOTDOT
  }

  lemma {:induction false} JoinEnds(tokens: Path)
    requires Components(tokens)
    ensures var name := Join(tokens); name != [] && name[0] != SLASH && name[|name| - 1] != SLASH
    decreases |tokens|
  {
    hide Join;
    JoinSplit(tokens);
    assert EntryName(tokens[0]);
    if |tokens| > 1 { JoinEnds(tokens[1..]); }
  }

  lemma LetterTokens(c: byte)
    requires c != SLASH
    ensures Tokens([c]) == [[c]]
  {
    assert TokenEnd([c]) == 1 by { assert [c][1..] == []; }
    assert [c][..1] == [c] && [c][1..] == [];
  }

  /** The builder takes any components joined, but for a lone dot. */
  lemma JoinedGiven(tokens: Path)
    requires Components(tokens) && tokens != [DOT]
    ensures Given(Join(tokens)) && Tokens(Join(tokens)) == tokens
  {
    JoinEnds(tokens);
    JoinTokens(tokens);
    LetterTokens(46);
    SpellNoNul(tokens);
    hide Tokens, Spell;
    var name := Join(tokens);
    forall k | 0 <= k < |name|
      ensures name[k] != 0
    {
      assert name[k] == Spell(tokens)[k + 1];
    }
  }

  lemma JoinOne(a: Name)
    ensures Join([a]) == a
  {
    JoinSplit([a]);
  }

  lemma JoinTwo(a: Name, b: Name)
    ensures Join([a, b]) == a + [SLASH] + b
  {
    JoinSplit([a, b]);
    assert [a, b][1..] == [b];
    JoinOne(b);
  }

  lemma PartsTwo(a: Name, b: Name)
    ensures Parts([a]) == if a == DOT then [] else [a]
    ensures Parts([a, b]) == (if a == DOT then [] else [a]) + Parts([b])
  {
    assert [a][1..] == [] && [a, b][1..] == [b];
  }

  /** A file named like the directory above another: a and a/b. */
  lemma NestedFiles(x: seq<byte>, y: seq<byte>)
    requires |x| < UINT32 && |y| < UINT32
    ensures var files := map[[97] := x, [97, 47, 98] := y]; Good(files) && !Mountable(files)
  {
    hide Tokens, Parts, Join, Given;
    var files := map[[97] := x, [97, 47, 98] := y];
    JoinOne(A);
    JoinTwo(A, B);
    assert A + [SLASH] + B == [97, 47, 98];
    JoinedGiven([A]);
    JoinedGiven([A, B]);
    PartsTwo(A, B);
    PartsTwo(B, B);
    assert FilePath([97]) <= FilePath([97, 47, 98]);
    assert [97] in files && [97, 47, 98] in files && |[97]| != |[97, 47, 98]|;
  }

  /** Two names for one place: a and ./a. */
  lemma SamePlace(x: seq<byte>, y: seq<byte>)
    requires |x| < UINT32 && |y| < UINT32
    ensures var files := map[[97] := x, [46, 47, 97] := y]; Good(files) && !Mountable(files)
  {
    hide Tokens, Parts, Join, Given;
    var files := map[[97] := x, [46, 47, 97] := y];
    JoinOne(A);
    JoinTwo(DOT, A);
    assert DOT + [SLASH] + A == [46, 47, 97];
    JoinedGiven([A]);
    JoinedGiven([DOT, A]);
    PartsTwo(A, A);
    PartsTwo(DOT, A);
    assert FilePath([97]) <= FilePath([46, 47, 97]);
    assert [97] in files && [46, 47, 97] in files && |[97]| != |[46, 47, 97]|;
  }

  /** A file named like the trailer. */
  lemma TrailerFile(x: seq<byte>)
    requires |x| < UINT32
    ensures Good(map[TRAILER := x]) && !Mountable(map[TRAILER := x])
  {
    hide Tokens, Join, Given;
    JoinOne(TRAILER);
    JoinedGiven([TRAILER]);
    assert TRAILER in map[TRAILER := x];
  }

  /** A name with a dot for its last component: a/. */
  lemma DotFile(x: seq<byte>)
    requires |x| < UINT32
    ensures Good(map[[97, 47, 46] := x]) && !Mountable(map[[97, 47, 46] := x])
  {
    hide Tokens, Join, Given;
    JoinTwo(A, DOT);
    assert A + [SLASH] + DOT == [97, 47, 46];
    JoinedGiven([A, DOT]);
    assert [97, 47, 46] in map[[97, 47, 46] := x] && !Walkable([97, 47, 46]);
  }

  /** A component longer than a name may be. */
  lemma LongComponent(name: Name, x: seq<byte>)
    requires |x| < UINT32 && EntryName(name) && NAME_MAX < |name|
    ensures Good(map[name := x]) && !Mountable(map[name := x])
  {
    hide Tokens, Join, Given;
    JoinOne(name);
    JoinedGiven([name]);
    assert name in map[name := x] && !Walkable(name) by { assert Tokens(name)[0] == name; }
  }

  /** A whole name longer than a path may be. */
  lemma LongName(name: Name, x: seq<byte>)
    requires |x| < UINT32 && Given(name) && PATH_MAX <= |name|
    ensures Good(map[name := x]) && !Mountable(map[name := x])
  {
    hide Given, Walkable;
    assert name in map[name := x];
  }

  /** An empty component: a//b. */
  lemma EmptyComponent(x: seq<byte>)
    requires |x| < UINT32
    ensures Good(map[[97, 47, 47, 98] := x]) && !Mountable(map[[97, 47, 47, 98] := x])
  {
    var name: Name := [97, 47, 47, 98];
    hide Tokens, Join, TokenEnd;
    TokenEndAt(name, 1);
    TokenSplit(name);
    assert name[2..] == [47, 98] && [47, 98][1..] == B && name[..1] == A;
    TokensSkip([47, 98]);
    LetterTokens(98);
    assert Tokens(name) == [A, B];
    JoinTwo(A, B);
    assert name in map[name := x] && !Walkable(name);
  }
}
