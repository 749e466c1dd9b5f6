/** The mount list (kernel/fs/vfs.c): a path belongs to the mount whose target is its longest
    component prefix. */
module VfsMounts {
  import opened Wrappers
  import opened KernelAbi
  import opened Bytes
  import opened Paths
  import opened VfsPath

  /** A mount: its canonical target and the file system behind it. */
  datatype Mount = Mount(target: seq<byte>, fs: nat)

  ghost predicate CanonicalText(text: seq<byte>)
  {
    exists stack :: CleanStack(stack) && text == Render(stack)
  }

  lemma CanonicalStack(text: seq<byte>)
    requires CanonicalText(text)
    ensures CleanStack(Tokens(text)) && Render(Tokens(text)) == text
  {
    var stack :| CleanStack(stack) && text == Render(stack);
    RenderTokens(stack);
  }

  /** mount_matches. */
  predicate Matches(mount: Mount, canonical: seq<byte>)
  {
    if |mount.target| == 1 then canonical != [] && canonical[0] == SLASH
    else mount.target <= canonical && (|canonical| == |mount.target| || canonical[|mount.target|] == SLASH)
  }

  lemma SpellPrefix(a: seq<seq<byte>>, b: seq<seq<byte>>)
    requires CleanStack(a) && CleanStack(b)
    requires Spell(a) <= Spell(b) && (|Spell(b)| == |Spell(a)| || Spell(b)[|Spell(a)|] == SLASH)
    ensures a <= b
  {
    hide Spell, Tokens;
    var rest := Spell(b)[|Spell(a)|..];
    assert Spell(b) == Spell(a) + rest;
    TokensSpellThen(a, rest);
    TokensSpell(b);
  }

  lemma PrefixSpells(a: seq<seq<byte>>, b: seq<seq<byte>>)
    requires a <= b
    ensures Spell(a) <= Spell(b) && (|Spell(b)| == |Spell(a)| || Spell(b)[|Spell(a)|] == SLASH)
  {
    assert b == a + b[|a|..];
    SpellConcat(a, b[|a|..]);
    SpellStarts(b[|a|..], []);
    assert Spell(b[|a|..]) + [] == Spell(b[|a|..]);
  }

  /** Matching compares bytes; what it decides is whether the target's components begin the path's. */
  lemma MatchesExactly(mount: Mount, canonical: seq<byte>)
    requires CanonicalText(mount.target) && CanonicalText(canonical)
    ensures Matches(mount, canonical) <==> Tokens(mount.target) <= Tokens(canonical)
  {
    CanonicalStack(mount.target);
    CanonicalStack(canonical);
    var a, b := Tokens(mount.target), Tokens(canonical);
    if a == [] {
      RenderTokens(b);
    } else {
      SpellLong(a);
      if b == [] {
        assert canonical == [SLASH];
      } else if Matches(mount, canonical) {
        SpellPrefix(a, b);
      } else if a <= b {
        PrefixSpells(a, b);
      }
    }
  }

  /** A longer matching target has more components. */
  lemma LongerIsDeeper(a: seq<byte>, b: seq<byte>, canonical: seq<byte>)
    requires CanonicalText(a) && CanonicalText(b) && CanonicalText(canonical)
    requires Tokens(a) <= Tokens(canonical) && Tokens(b) <= Tokens(canonical)
    ensures |a| < |b| <==> |Tokens(a)| < |Tokens(b)|
    ensures |a| == |b| ==> a == b
  {
    hide Tokens, Render, CanonicalText, CleanStack;
    CanonicalStack(a);
    CanonicalStack(b);
    var s, t := Tokens(a), Tokens(b);
    if |s| < |t| {
      DeeperIsLonger(s, t);
    } else if |t| < |s| {
      DeeperIsLonger(t, s);
    } else {
      assert s == Tokens(canonical)[..|s|] == t;
    }
  }

  lemma DeeperIsLonger(s: seq<seq<byte>>, t: seq<seq<byte>>)
    requires CleanStack(s) && CleanStack(t) && s <= t && |s| < |t|
    ensures |Render(s)| < |Render(t)|
  {
    SpellLong(t);
    assert t == s + t[|s|..];
    SpellConcat(s, t[|s|..]);
    SpellLong(t[|s|..]);
  }

  class Vfs {
    var mounts: seq<Mount>

    /** Targets are canonical, no two are the same, and the root is mounted. */
    ghost predicate Valid()
      reads this
    {
      && (forall i :: 0 <= i < |mounts| ==> CanonicalText(mounts[i].target))
      && (forall i, j :: 0 <= i < j < |mounts| ==> mounts[i].target != mounts[j].target)
      && exists m :: m in mounts && m.target == [SLASH]
    }

    constructor (root: nat)
      ensures Valid() && mounts == [Mount([SLASH], root)]
    {
      mounts := [Mount([SLASH], root)];
      new;
      assert Mount([SLASH], root) in mounts;
      assert CleanStack([]) && [SLASH] == Render([]);
    }

    /** The locked part of ns_vfs_mount. */
    method Insert(mount: Mount) returns (status: int)
      requires Valid() && CanonicalText(mount.target)
      modifies this
      ensures Valid()
      ensures status == if exists i ::
        0 <= i < |old(mounts)| && old(mounts)[i].target == mount.target then EBUSY else OK
      ensures mounts == if status == OK then [mount] + old(mounts) else old(mounts)
    {
      var i := 0;
      while i < |mounts|
        invariant 0 <= i <= |mounts| && mounts == old(mounts)
        invariant forall k :: 0 <= k < i ==> mounts[k].target != mount.target
      {
        if mounts[i].target == mount.target {
          return EBUSY;
        }
        i := i + 1;
      }
      ghost var root :| root in mounts && root.target == [SLASH];
      mounts := [mount] + mounts;
      assert root in mounts;
      return OK;
    }

    /** select_mount: the one mount whose target is the longest component prefix of the path. */
    method SelectMount(canonical: seq<byte>) returns (best: Option<Mount>)
      requires Valid() && CanonicalText(canonical)
      ensures best.Some?
        && best.value in mounts && Tokens(best.value.target) <= Tokens(canonical)
        && forall m :: m in mounts && Tokens(m.target) <= Tokens(canonical) && m != best.value ==>
          |Tokens(m.target)| < |Tokens(best.value.target)|
    {
      RootCatches(canonical);
      hide Tokens, CanonicalText, Matches;
      best := None;
      var i := 0;
      while i < |mounts|
        invariant 0 <= i <= |mounts|
        invariant best.None? ==> forall k :: 0 <= k < i ==> !(Tokens(mounts[k].target) <= Tokens(canonical))
        invariant best.Some? ==> best.value in mounts[..i] && Tokens(best.value.target) <= Tokens(canonical)
        invariant best.Some? ==>
          forall k :: 0 <= k < i && Tokens(mounts[k].target) <= Tokens(canonical) && mounts[k] != best.value ==>
          |Tokens(mounts[k].target)| < |Tokens(best.value.target)|
      {
        MatchesExactly(mounts[i], canonical);
        if best.Some? && Matches(mounts[i], canonical) {
          LongerIsDeeper(best.value.target, mounts[i].target, canonical);
          LongerIsDeeper(mounts[i].target, best.value.target, canonical);
        }
        if Matches(mounts[i], canonical) && (best.None? || |mounts[i].target| > |best.value.target|) {
          best := Some(mounts[i]);
        }
        i := i + 1;
      }
    }

    /** With the root mounted every path has a mount. */
    lemma RootCatches(canonical: seq<byte>)
      requires Valid() && CanonicalText(canonical)
      ensures exists m :: m in mounts && Tokens(m.target) <= Tokens(canonical)
    {
      var m :| m in mounts && m.target == [SLASH];
      assert Tokens([SLASH][1..]) == [];
      assert Tokens(m.target) == [];
    }
  }
}
