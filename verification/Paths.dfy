/** Paths as byte strings and as lists of components. */
module Paths {
  import opened Bytes

  const DOT: seq<byte> := [46]
  const DOTDOT: seq<byte> := [46, 46]
  const SLASH: byte := 47

  predicate EntryName(name: seq<byte>)
  {
    name != [] && forall k :: 0 <= k < |name| ==> name[k] != 0 && name[k] != SLASH
  }

  /** A name that stands for itself. */
  predicate Clean(name: seq<byte>)
  {
    EntryName(name) && name != DOT && name != DOTDOT
  }

  predicate CleanStack(stack: seq<seq<byte>>)
  {
    forall k :: 0 <= k < |stack| ==> Clean(stack[k])
  }

  function TokenEnd(p: seq<byte>): (n: nat)
    ensures n <= |p|
  {
    if p == [] || p[0] == SLASH then 0 else 1 + TokenEnd(p[1..])
  }

  /** The pieces between slashes, empty ones left out. */
  function Tokens(p: seq<byte>): seq<seq<byte>>
    decreases |p|
  {
    if p == [] then []
    else if p[0] == SLASH then Tokens(p[1..])
    else [p[..TokenEnd(p)]] + Tokens(p[TokenEnd(p)..])
  }

  /** A slash before each name. */
  function Spell(names: seq<seq<byte>>): seq<byte>
  {
    if names == [] then [] else [SLASH] + names[0] + Spell(names[1..])
  }

  lemma {:induction false} TokenEndIs(name: seq<byte>, rest: seq<byte>)
    requires EntryName(name) || name == []
    requires rest == [] || rest[0] == SLASH
    ensures TokenEnd(name + rest) == |name|
  {
    if name == [] {
      assert name + rest == rest;
    } else {
      assert (name + rest)[1..] == name[1..] + rest;
      if |name| > 1 { assert EntryName(name[1..]); }
      TokenEndIs(name[1..], rest);
    }
  }

  /** Splitting a spelled path gives the names, and then those of what follows. */
  lemma {:induction false} TokensSpellThen(names: seq<seq<byte>>, rest: seq<byte>)
    requires (forall k :: 0 <= k < |names| ==> EntryName(names[k])) && (rest == [] || rest[0] == SLASH)
    ensures Tokens(Spell(names) + rest) == names + Tokens(rest)
  {
    hide EntryName, Tokens, Spell;
    if names == [] {
      NoTokens(rest);
    } else {
      var tail := Spell(names[1..]) + rest;
      TokensSpellThen(names[1..], rest);
      SpellStarts(names[1..], rest);
      TokensHead(names[0], tail);
      SpellHead(names);
      Regroup([SLASH] + names[0], Spell(names[1..]), rest);
      Regroup([names[0]], names[1..], Tokens(rest));
    }
  }

  lemma NoTokens(rest: seq<byte>)
    ensures [] + Tokens(rest) == Tokens(rest) && Spell([]) + rest == rest
  {
    hide Tokens;
  }

  lemma SpellHead(names: seq<seq<byte>>)
    requires names != []
    ensures Spell(names) == [SLASH] + names[0] + Spell(names[1..]) && [names[0]] + names[1..] == names
  {
  }

  lemma Regroup<T>(a: seq<T>, b: seq<T>, c: seq<T>)
    ensures a + b + c == a + (b + c)
  {
  }

  lemma SpellStarts(names: seq<seq<byte>>, rest: seq<byte>)
    requires rest == [] || rest[0] == SLASH
    ensures Spell(names) + rest == [] || (Spell(names) + rest)[0] == SLASH
  {
  }

  lemma TokensHead(name: seq<byte>, tail: seq<byte>)
    requires EntryName(name) && (tail == [] || tail[0] == SLASH)
    ensures Tokens([SLASH] + name + tail) == [name] + Tokens(tail)
  {
    hide EntryName, TokenEnd;
    var p := name + tail;
    assert [SLASH] + name + tail == [SLASH] + p && ([SLASH] + p)[1..] == p;
    TokenEndIs(name, tail);
    NameStarts(name);
    assert p[..|name|] == name && p[|name|..] == tail;
  }

  lemma TokensSpell(names: seq<seq<byte>>)
    requires forall k :: 0 <= k < |names| ==> EntryName(names[k])
    ensures Tokens(Spell(names)) == names
  {
    TokensSpellThen(names, []);
    assert Spell(names) + [] == Spell(names) && names + Tokens([]) == names;
  }

  lemma NameStarts(name: seq<byte>)
    requires EntryName(name)
    ensures name != [] && name[0] != SLASH
  {
  }

  lemma {:induction false} SpellConcat(a: seq<seq<byte>>, b: seq<seq<byte>>)
    ensures Spell(a + b) == Spell(a) + Spell(b)
  {
    if a == [] {
      assert a + b == b;
    } else {
      assert (a + b)[1..] == a[1..] + b && (a + b)[0] == a[0];
      SpellConcat(a[1..], b);
    }
  }

  predicate NoNul(text: seq<byte>)
  {
    forall k :: 0 <= k < |text| ==> text[k] != 0
  }

  lemma {:induction false} TokenIsName(p: seq<byte>)
    requires NoNul(p)
    ensures forall k :: 0 <= k < TokenEnd(p) ==> p[k] != 0 && p[k] != SLASH
    ensures p != [] && p[0] != SLASH ==> TokenEnd(p) > 0
    ensures TokenEnd(p) < |p| ==> p[TokenEnd(p)] == SLASH
  {
    if p != [] && p[0] != SLASH {
      TokenIsName(p[1..]);
      forall k | 0 <= k < TokenEnd(p)
        ensures p[k] != 0 && p[k] != SLASH
      {
        if k > 0 { assert p[k] == p[1..][k - 1]; }
      }
    }
  }

  lemma {:induction false} TokensAreNames(p: seq<byte>)
    requires NoNul(p)
    ensures forall k :: 0 <= k < |Tokens(p)| ==> EntryName(Tokens(p)[k])
    decreases |p|
  {
    hide TokenEnd;
    if p != [] {
      if p[0] == SLASH {
        TokensAreNames(p[1..]);
      } else {
        TokenIsName(p);
        TokensAreNames(p[TokenEnd(p)..]);
      }
    }
  }

  /** Splitting into components loses only slashes. */
  lemma {:induction false} TokensLength(p: seq<byte>)
    ensures |Spell(Tokens(p))| <= |p| + (if p == [] || p[0] == SLASH then 0 else 1)
    decreases |p|
  {
    if p != [] {
      if p[0] == SLASH {
        TokensLength(p[1..]);
      } else {
        var n := TokenEnd(p);
        TokenStops(p);
        TokensLength(p[n..]);
        assert Spell(Tokens(p)) == [SLASH] + p[..n] + Spell(Tokens(p[n..]));
      }
    }
  }

  lemma {:induction false} TokenStops(p: seq<byte>)
    ensures TokenEnd(p) < |p| ==> p[TokenEnd(p)] == SLASH
  {
    if p != [] && p[0] != SLASH { TokenStops(p[1..]); }
  }
}
