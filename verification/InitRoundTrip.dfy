/** What the builder writes, the kernel mounts: for all names the builder takes, the archive is
    accepted exactly when the parser can walk each name, no file lies where another does or above it,
    and nothing is named like the trailer.  The tree is then those files and their directories. */
module InitRoundTrip {
  import opened Sequences
  import opened Wrappers
  import opened KernelAbi
  import opened Bytes
  import opened Paths
  import opened Newc
  import opened InitTree
  import opened Initramfs
  import opened MkInitramfs
  import opened InitPlace
  import opened InitMembers
  import NameOrder

  // ---------- the directories ----------

  function DirMeta(mtime: nat): Meta
  {
    Meta(Directory, 493, mtime * NANOSECONDS, [], false)
  }

  function FileMeta(mtime: nat, data: seq<byte>): Meta
  {
    Meta(Regular, 493, mtime * NANOSECONDS, data, false)
  }

  lemma DirIsPlaced(view: View, path: Path, mtime: nat)
    requires PathOk(path)
    ensures InsertedMember(view, Member(Join(path), DIRECTORY_MODE, []), mtime)
         == Placed(view, [], path, DirMeta(mtime))
  {
    hide Walk, Join, Placed;
    JoinSplit(path);
    assert Clean(path[0]);
    NameStarts(path[0]);
    assert Join(path) != [] && Join(path)[0] == path[0][0];
    assert forall k :: 0 <= k < |path| ==> Clean(path[k]);
    PartsOfClean(path);
    WalkIsPlaced(view, [], path, false, DirMeta(mtime));
    Modes();
  }

  lemma Modes()
    ensures TypeOf(DIRECTORY_MODE) == Some(Directory) && TypeOf(REGULAR_MODE) == Some(Regular)
    ensures DIRECTORY_MODE % 4096 == REGULAR_MODE % 4096 == 493
  {
  }

  lemma RootInserted(view: View, mtime: nat)
    ensures InsertedMember(view, Member(DOT, DIRECTORY_MODE, []), mtime) == Ok(view[[] := DirMeta(mtime)])
  {
    Modes();
    assert DOT[0..] == DOT && DOT[0..1] == DOT && DOT[1..] == [];
    WalkStep(view, [], DOT, 0, 1, false, DirMeta(mtime));
    WalkEnds(view, [], [], false, DirMeta(mtime));
  }

  /** The tree holds these directories and those above them, which are implied if not listed. */
  ghost predicate DirsIn(view: View, dirs: set<Path>, meta: Meta)
  {
    && (forall p :: p in view <==> p == [] || exists d :: d in dirs && p <= d)
    && (forall p :: p in view ==> view[p] == if p == [] || p in dirs then meta else IMPLIED)
  }

  lemma DirStep(view: View, dirs: set<Path>, d: Path, meta: Meta)
    requires DirsIn(view, dirs, meta) && d !in dirs && d != [] && meta.kind == Directory && !meta.implied
    ensures Placed(view, [], d, meta).Ok? && DirsIn(Placed(view, [], d, meta).value, dirs + {d}, meta)
  {
    hide Placed;
    PlacedExactly(view, [], d, meta);
    assert [] + d == d;
    assert Ready(view, d, 0, meta);
    var v := Placed(view, [], d, meta).value;
    forall p
      ensures p in v <==> p == [] || exists e :: e in dirs + {d} && p <= e
    {
      if p != [] && p <= d { assert d in dirs + {d} && OnTheWay(p, d, 0); }
      if p in view && p != [] {
        var e :| e in dirs && p <= e;
        assert e in dirs + {d};
      }
    }
  }

  function DirMembers(paths: seq<Path>): (m: seq<Member>)
    requires forall k :: 0 <= k < |paths| ==> paths[k] != []
    ensures |m| == |paths|
  {
    seq(|paths|, k requires 0 <= k < |paths| => Member(Join(paths[k]), DIRECTORY_MODE, []))
  }

  function SetOf(paths: seq<Path>): set<Path>
  {
    set p | p in paths
  }

  lemma SetOfSplit(paths: seq<Path>)
    requires paths != []
    ensures SetOf(paths) == {paths[0]} + SetOf(paths[1..])
  {
    assert paths == [paths[0]] + paths[1..];
  }

  /** In whatever order the directories come, all of them get in. */
  lemma {:induction false} DirsGetIn(view: View, dirs: set<Path>, paths: seq<Path>, mtime: nat)
    requires DirsIn(view, dirs, DirMeta(mtime)) && Distinct(paths)
    requires forall k :: 0 <= k < |paths| ==> PathOk(paths[k]) && paths[k] != [] && paths[k] !in dirs
    ensures var r := InsertAll(view, DirMembers(paths), mtime);
      r.Ok? && DirsIn(r.value, dirs + SetOf(paths), DirMeta(mtime))
    decreases |paths|
  {
    hide DirsIn, InsertedMember, Join, Placed, Clean;
    if paths == [] {
      assert dirs + SetOf(paths) == dirs;
    } else {
      var d, rest := paths[0], paths[1..];
      DirStep(view, dirs, d, DirMeta(mtime));
      DirIsPlaced(view, d, mtime);
      assert DirMembers(paths)[1..] == DirMembers(rest);
      DirsGetIn(Placed(view, [], d, DirMeta(mtime)).value, dirs + {d}, rest, mtime);
      SetOfSplit(paths);
      assert dirs + {d} + SetOf(rest) == dirs + SetOf(paths);
    }
  }

  // ---------- the files ----------

  /** A name the builder takes. */
  predicate Given(name: Name)
  {
    Accepted(name) && NoNul(name)
  }

  /** A name the parser can walk to a file, wherever it ends up. */
  predicate Fine(name: Name)
  {
    Given(name) && Walkable(name)
  }

  lemma FileIsPlaced(view: View, name: Name, mtime: nat, data: seq<byte>)
    requires Fine(name)
    ensures PathOk(FilePath(name))
    ensures InsertedMember(view, Member(name, REGULAR_MODE, data), mtime)
         == Placed(view, [], FilePath(name), FileMeta(mtime, data))
  {
    hide Walk, Join, Placed, Tokens, Parts;
    AcceptedTokens(name);
    PartsOk(Tokens(name));
    WalkIsPlaced(view, [], Tokens(name), false, FileMeta(mtime, data));
    Modes();
  }

  /** No other name gets in as a file. */
  lemma OtherRefused(view: View, name: Name, mtime: nat, data: seq<byte>)
    requires Given(name) && !Walkable(name)
    ensures InsertedMember(view, Member(name, REGULAR_MODE, data), mtime).Err?
  {
    hide Walk, Walkable, Tokens;
    Modes();
    if Walk(view, [], name, false, FileMeta(mtime, data)).Ok? {
      WalkedText(view, [], name, false, FileMeta(mtime, data));
    }
  }

  /** The tree holds the root, these directories and these files, and nothing is implied. */
  ghost predicate FilesIn(view: View, dirs: set<Path>, files: map<Path, seq<byte>>, mtime: nat)
  {
    && (forall p :: p in view <==> p == [] || p in dirs || p in files)
    && (forall p :: p in view ==> view[p] == if p in files then FileMeta(mtime, files[p]) else DirMeta(mtime))
  }

  lemma FileStep(view: View, dirs: set<Path>, files: map<Path, seq<byte>>, f: Path, data: seq<byte>, mtime: nat)
    requires FilesIn(view, dirs, files, mtime) && f != [] && f !in files && f !in dirs
    requires forall k :: 0 < k < |f| ==> f[..k] in dirs && f[..k] !in files
    ensures var r := Placed(view, [], f, FileMeta(mtime, data));
      r.Ok? && FilesIn(r.value, dirs, files[f := data], mtime)
  {
    hide Placed;
    var meta := FileMeta(mtime, data);
    PlacedExactly(view, [], f, meta);
    assert [] + f == f;
    assert Ready(view, f, 0, meta);
    var v := Placed(view, [], f, meta).value;
    forall p
      ensures OnTheWay(p, f, 0) ==> p == f || p in dirs
    {
      if OnTheWay(p, f, 0) { assert p == f[..|p|]; }
    }
  }
  function FileMembers(names: seq<Name>, files: map<Name, seq<byte>>): (m: seq<Member>)
    requires forall n :: n in names ==> n in files
    ensures |m| == |names|
  {
    seq(|names|, i requires 0 <= i < |names| && names[i] in files => Member(names[i], REGULAR_MODE, files[names[i]]))
  }

  lemma FileMembersSplit(names: seq<Name>, files: map<Name, seq<byte>>)
    requires names != [] && forall n :: n in names ==> n in files
    ensures names[0] in files && FileMembers(names, files)[0] == Member(names[0], REGULAR_MODE, files[names[0]])
    ensures forall n :: n in names[1..] ==> n in names
    ensures FileMembers(names, files)[1..] == FileMembers(names[1..], files)
  {
  }

  /** The paths of a list of names. */
  function AllPaths(names: seq<Name>): (paths: seq<Path>)
    ensures |paths| == |names|
  {
    seq(|names|, i requires 0 <= i < |names| => FilePath(names[i]))
  }

  lemma AllPathsSplit(names: seq<Name>)
    requires names != []
    ensures AllPaths(names)[0] == FilePath(names[0]) && AllPaths(names)[1..] == AllPaths(names[1..])
    ensures AllPaths(names) == [FilePath(names[0])] + AllPaths(names[1..])
  {
    hide FilePath;
  }

  /** All proper prefixes are listed directories, and the path itself is not one. */
  predicate Housed(f: Path, dirs: set<Path>)
  {
    f !in dirs && forall k :: 0 < k < |f| ==> f[..k] in dirs
  }

  /** The files added to those already there. */
  function Taken(got: map<Path, seq<byte>>, names: seq<Name>, files: map<Name, seq<byte>>): map<Path, seq<byte>>
    requires forall n :: n in names ==> n in files
    decreases |names|
  {
    if names == [] then got else
      assert names[0] in names && forall n :: n in names[1..] ==> n in names;
      Taken(got[FilePath(names[0]) := files[names[0]]], names[1..], files)
  }

  /** A list of files that are fine, each in directories that are there and in no other's place. */
  ghost predicate Settled(names: seq<Name>, files: map<Name, seq<byte>>, dirs: set<Path>, got: map<Path, seq<byte>>)
  {
    && (forall n :: n in names ==> n in files && Fine(n)) && Distinct(AllPaths(names)) && got.Keys !! dirs
    && forall i :: 0 <= i < |names| ==> AllPaths(names)[i] !in got && Housed(AllPaths(names)[i], dirs)
  }

  lemma SettledRest(names: seq<Name>, files: map<Name, seq<byte>>, dirs: set<Path>, got: map<Path, seq<byte>>)
    requires names != [] && Settled(names, files, dirs, got)
    ensures names[0] in files && Fine(names[0]) && FilePath(names[0]) !in got && Housed(FilePath(names[0]), dirs)
    ensures Settled(names[1..], files, dirs, got[FilePath(names[0]) := files[names[0]]])
  {
    hide FilePath, Fine, Housed;
    AllPathsSplit(names);
    var paths, rest := AllPaths(names), AllPaths(names[1..]);
    assert names[0] in names && Housed(paths[0], dirs);
    forall i | 0 <= i < |rest|
      ensures rest[i] == paths[i + 1] && rest[i] != paths[0] && Housed(rest[i], dirs)
    {
    }
    assert paths[0] !in dirs by { HousedOut(paths[0], dirs); }
  }

  lemma HousedOut(f: Path, dirs: set<Path>)
    requires Housed(f, dirs)
    ensures f !in dirs
  {
  }

  lemma {:induction false} FilesGetIn(view: View, dirs: set<Path>, got: map<Path, seq<byte>>, names: seq<Name>,
                                      files: map<Name, seq<byte>>, mtime: nat)
    requires FilesIn(view, dirs, got, mtime) && Settled(names, files, dirs, got)
    ensures var r := InsertAll(view, FileMembers(names, files), mtime);
      r.Ok? && FilesIn(r.value, dirs, Taken(got, names, files), mtime)
    decreases |names|
  {
    hide FilesIn, InsertedMember, Placed, Fine, FilePath, FileMembers;
    if names != [] {
      var n, rest := names[0], names[1..];
      var f := FilePath(n);
      SettledRest(names, files, dirs, got);
      FileIsPlaced(view, n, mtime, files[n]);
      FileStep(view, dirs, got, f, files[n], mtime);
      FileMembersSplit(names, files);
      FilesGetIn(Placed(view, [], f, FileMeta(mtime, files[n])).value, dirs, got[f := files[n]], rest, files, mtime);
    }
  }

  predicate Took(got: map<Path, seq<byte>>, name: Name, files: map<Name, seq<byte>>)
  {
    name in files && FilePath(name) in got && got[FilePath(name)] == files[name]
  }

  /** What was taken is what was given. */
  lemma {:induction false} TakenAll(got: map<Path, seq<byte>>, names: seq<Name>, files: map<Name, seq<byte>>)
    requires (forall n :: n in names ==> n in files) && Distinct(AllPaths(names))
    ensures forall p :: p in Taken(got, names, files) <==> p in got || p in AllPaths(names)
    ensures forall p :: p in got && p !in AllPaths(names) ==> Taken(got, names, files)[p] == got[p]
    ensures forall i :: 0 <= i < |names| ==> Took(Taken(got, names, files), names[i], files)
    decreases |names|
  {
    hide FilePath;
    if names != [] {
      AllPathsSplit(names);
      FileMembersSplit(names, files);
      var rest, f := names[1..], FilePath(names[0]);
      assert f !in AllPaths(rest);
      TakenAll(got[f := files[names[0]]], rest, files);
      forall i | 0 <= i < |names|
        ensures Took(Taken(got, names, files), names[i], files)
      {
        assert names[i] in names;
        if i > 0 { assert rest[i - 1] == names[i]; }
      }
    }
  }

  // ---------- files that are refused ----------

  /** A name that cannot be walked is refused, whatever the tree. */
  lemma {:induction false} OtherBlocks(view: View, names: seq<Name>, files: map<Name, seq<byte>>, n: Name, mtime: nat)
    requires (forall m :: m in names ==> m in files && Given(m)) && n in names && !Walkable(n)
    ensures InsertAll(view, FileMembers(names, files), mtime).Err?
    decreases |names|
  {
    hide InsertedMember, Given, Walkable, FileMembers;
    FileMembersSplit(names, files);
    assert names[0] in names;
    if n == names[0] {
      OtherRefused(view, n, mtime, files[n]);
    } else {
      assert n in names[1..];
      var r := InsertedMember(view, FileMembers(names, files)[0], mtime);
      if r.Ok? { OtherBlocks(r.value, names[1..], files, n, mtime); }
    }
  }

  /** A node that is there and not merely implied. */
  predicate Explicit(view: View, p: Path)
  {
    p in view && !view[p].implied
  }

  /** What one file does to the tree: it was not there, now it is, and what was explicit stays. */
  lemma FileEffect(view: View, name: Name, mtime: nat, data: seq<byte>, p: Path)
    requires Fine(name)
    ensures var r := InsertedMember(view, Member(name, REGULAR_MODE, data), mtime);
      r.Ok? ==> && !Explicit(view, FilePath(name)) && Explicit(r.value, FilePath(name))
                && (Explicit(view, p) ==> Explicit(r.value, p))
  {
    hide InsertedMember, Placed, FilePath, Fine;
    var f, meta := FilePath(name), FileMeta(mtime, data);
    FileIsPlaced(view, name, mtime, data);
    PlacedExactly(view, [], f, meta);
    assert [] + f == f;
    assert OnTheWay(f, f, 0);
  }

  /** It stays, so a file in that place is refused. */
  lemma {:induction false} ExplicitBlocks(view: View, names: seq<Name>, files: map<Name, seq<byte>>, p: Path,
                                          mtime: nat)
    requires Explicit(view, p) && p in AllPaths(names) && forall n :: n in names ==> n in files && Fine(n)
    ensures InsertAll(view, FileMembers(names, files), mtime).Err?
    decreases |names|
  {
    hide InsertedMember, FilePath, Fine, FileMembers, Explicit;
    FileMembersSplit(names, files);
    AllPathsSplit(names);
    assert names[0] in names;
    FileEffect(view, names[0], mtime, files[names[0]], p);
    var r := InsertedMember(view, FileMembers(names, files)[0], mtime);
    if r.Ok? { ExplicitBlocks(r.value, names[1..], files, p, mtime); }
  }

  /** So of two files in one place the second is refused. */
  lemma {:induction false} RepeatBlocks(view: View, names: seq<Name>, files: map<Name, seq<byte>>, mtime: nat)
    requires !Distinct(AllPaths(names)) && forall n :: n in names ==> n in files && Fine(n)
    ensures InsertAll(view, FileMembers(names, files), mtime).Err?
    decreases |names|
  {
    hide InsertedMember, FilePath, Fine, FileMembers, Explicit;
    FileMembersSplit(names, files);
    AllPathsSplit(names);
    assert names[0] in names;
    var f, rest := FilePath(names[0]), names[1..];
    FileEffect(view, names[0], mtime, files[names[0]], f);
    var r := InsertedMember(view, FileMembers(names, files)[0], mtime);
    if r.Ok? {
      if f in AllPaths(rest) {
        ExplicitBlocks(r.value, rest, files, f, mtime);
      } else {
        if Distinct(AllPaths(rest)) { DistinctMore(f, AllPaths(rest)); }
        RepeatBlocks(r.value, rest, files, mtime);
      }
    }
  }

  lemma DistinctMore(f: Path, rest: seq<Path>)
    requires f !in rest && Distinct(rest)
    ensures Distinct([f] + rest)
  {
  }

  // ---------- from names to paths ----------

  /** Names the builder takes. */
  predicate AllGiven(files: map<Name, seq<byte>>)
  {
    forall n :: n in files ==> Given(n)
  }

  /** Sizes that fit their field. */
  predicate SizesFit(files: map<Name, seq<byte>>)
  {
    forall n :: n in files ==> |files[n]| < UINT32
  }

  predicate Good(files: map<Name, seq<byte>>)
  {
    AllGiven(files) && SizesFit(files)
  }

  /** The paths of the files. */
  function PathsOf(files: map<Name, seq<byte>>): set<Path>
  {
    set n | n in files :: FilePath(n)
  }

  /** The paths of the directories above them, the root left out. */
  function ParentPaths(files: map<Name, seq<byte>>): set<Path>
  {
    set n, k | n in files && 0 < k < |FilePath(n)| :: FilePath(n)[..k]
  }

  /** The parents of a name are its path cut short. */
  lemma ParentPath(dir: Name, name: Name)
    requires Fine(name) && IsParent(dir, name)
    ensures exists k :: 0 < k < |FilePath(name)| && FilePath(dir) == FilePath(name)[..k]
    ensures FaithfulName(dir)
  {
    AcceptedTokens(name);
    PartsOk(Tokens(name));
    hide Tokens, Join, Parts, TokensOk, Walkable;
    var path := FilePath(name);
    var k :| 0 < k < |path| && dir == Join(path[..k]);
    assert PathOk(path[..k]);
    FilePathOfJoin(path[..k]);
  }

  lemma CutIsParent(name: Name, k: nat)
    requires Fine(name) && 0 < k < |FilePath(name)|
    ensures IsParent(Join(FilePath(name)[..k]), name) && FilePath(Join(FilePath(name)[..k])) == FilePath(name)[..k]
  {
    AcceptedTokens(name);
    PartsOk(Tokens(name));
    hide Tokens, Join, Parts, TokensOk, Walkable;
    assert PathOk(FilePath(name)[..k]);
    FilePathOfJoin(FilePath(name)[..k]);
  }

  /** The name is that of its path, which the parser takes. */
  predicate FaithfulName(name: Name)
  {
    PathOk(FilePath(name)) && name == Join(FilePath(name))
  }

  predicate Faithful(names: seq<Name>)
  {
    forall i :: 0 <= i < |names| ==> FaithfulName(names[i])
  }

  /** Such names have distinct paths. */
  lemma DistinctPaths(names: seq<Name>)
    requires Faithful(names) && Distinct(names)
    ensures Distinct(AllPaths(names))
  {
    hide FilePath, Join, PathOk;
    forall i, j | 0 <= i < j < |names|
      ensures AllPaths(names)[i] != AllPaths(names)[j]
    {
      assert FaithfulName(names[i]) && FaithfulName(names[j]) && names[i] != names[j];
    }
  }

  ghost predicate AllFine(files: map<Name, seq<byte>>)
  {
    forall n :: n in files ==> Fine(n)
  }

  lemma ListedParents(dirs: seq<Name>, names: seq<Name>, files: map<Name, seq<byte>>)
    requires Listed(dirs, names, files)
    ensures forall d :: d in dirs <==> exists n :: n in files && IsParent(d, n)
  {
    hide IsParent, NameOrder.Sorted;
    forall d
      ensures d in dirs <==> exists n :: n in files && IsParent(d, n)
    {
      assert d in dirs <==> multiset(dirs)[d] > 0;
    }
  }

  lemma ListedDirs(dirs: seq<Name>, names: seq<Name>, files: map<Name, seq<byte>>)
    requires AllFine(files) && Listed(dirs, names, files)
    ensures Faithful(dirs) && Distinct(AllPaths(dirs)) && SetOf(AllPaths(dirs)) == ParentPaths(files)
  {
    hide FilePath, Join, IsParent, Fine, FaithfulName, NameOrder.Sorted;
    ListedParents(dirs, names, files);
    forall i | 0 <= i < |dirs|
      ensures FaithfulName(dirs[i]) && FilePath(dirs[i]) in ParentPaths(files)
    {
      assert dirs[i] in dirs;
      var n :| n in files && IsParent(dirs[i], n);
      ParentPath(dirs[i], n);
      var k :| 0 < k < |FilePath(n)| && FilePath(dirs[i]) == FilePath(n)[..k];
    }
    NameOrder.DistinctCounts(dirs);
    DistinctPaths(dirs);
    forall p | p in ParentPaths(files)
      ensures p in AllPaths(dirs)
    {
      var n, k :| n in files && 0 < k < |FilePath(n)| && p == FilePath(n)[..k];
      CutIsParent(n, k);
      var d := Join(p);
      assert d in dirs;
      var i :| 0 <= i < |dirs| && dirs[i] == d;
      assert AllPaths(dirs)[i] == p;
    }
  }

  // ---------- what the builder lists ----------

  lemma DirsCover(dirs: seq<Name>)
    requires Faithful(dirs)
    ensures forall i :: 0 <= i < |dirs| ==>
      PathOk(AllPaths(dirs)[i]) && AllPaths(dirs)[i] != [] && Join(AllPaths(dirs)[i]) == dirs[i]
  {
    hide FilePath, Join, Clean;
    forall i | 0 <= i < |dirs|
      ensures PathOk(AllPaths(dirs)[i]) && AllPaths(dirs)[i] != [] && Join(AllPaths(dirs)[i]) == dirs[i]
    {
      assert FaithfulName(dirs[i]);
    }
  }

  const ROOT_MEMBER: Member := Member(DOT, DIRECTORY_MODE, [])

  /** The builder's list, by paths. */
  lemma MembersByPath(dirs: seq<Name>, names: seq<Name>, files: map<Name, seq<byte>>)
    requires Faithful(dirs) && forall n :: n in names ==> n in files
    requires forall i :: 0 <= i < |dirs| ==> AllPaths(dirs)[i] != []
    ensures MembersOf(dirs, names, files)
         == [ROOT_MEMBER] + DirMembers(AllPaths(dirs)) + FileMembers(names, files)
  {
    hide FilePath, Join, Faithful;
    DirsCover(dirs);
    var d := seq(|dirs|, i requires 0 <= i < |dirs| => Member(dirs[i], DIRECTORY_MODE, []));
    assert d == DirMembers(AllPaths(dirs));
  }

  lemma {:induction false} SpellNoNul(path: Path)
    requires forall k :: 0 <= k < |path| ==> EntryName(path[k])
    ensures forall i :: 0 <= i < |Spell(path)| ==> Spell(path)[i] != 0
  {
    if path != [] {
      SpellNoNul(path[1..]);
      SpellHead(path);
      assert EntryName(path[0]);
    }
  }

  /** A parent's name is made of the name's own components, so it is no longer and holds no NUL. */
  lemma ParentSpelling(dir: Name, name: Name)
    requires IsParent(dir, name) && NoNul(name)
    ensures |dir| <= |name| && NoNul(dir)
  {
    var tokens, parts := Tokens(name), Parts(Tokens(name));
    TokensAreNames(name);
    TokensLength(name);
    hide Tokens;
    PartsAmong(tokens);
    var k :| 0 < k < |parts| && dir == Join(parts[..k]);
    var cut := parts[..k];
    assert parts == cut + parts[k..];
    SpellConcat(cut, parts[k..]);
    assert forall i :: 0 <= i < |cut| ==> cut[i] == parts[i];
    SpellNoNul(cut);
    SpellHead(cut);
    hide Spell;
    forall i | 0 <= i < |dir|
      ensures dir[i] != 0
    {
      assert dir[i] == Spell(cut)[i + 1];
    }
  }

  lemma {:induction false} PartsAmong(tokens: Path)
    requires forall k :: 0 <= k < |tokens| ==> EntryName(tokens[k])
    ensures forall k :: 0 <= k < |Parts(tokens)| ==> EntryName(Parts(tokens)[k])
    ensures |Spell(Parts(tokens))| <= |Spell(tokens)|
  {
    if tokens != [] {
      PartsAmong(tokens[1..]);
      SpellHead(tokens);
      var rest := Parts(tokens[1..]);
      if tokens[0] == DOT {
        assert Parts(tokens) == rest;
      } else {
        assert Parts(tokens) == [tokens[0]] + rest && Parts(tokens)[1..] == rest;
        SpellHead(Parts(tokens));
      }
    }
  }

  lemma AllWritable(dirs: seq<Name>, names: seq<Name>, files: map<Name, seq<byte>>)
    requires Good(files) && Listed(dirs, names, files) && forall n :: n in names ==> n in files
    ensures MembersOk(MembersOf(dirs, names, files))
  {
    hide Accepted, IsParent, Listed;
    ListedParents(dirs, names, files);
    var members := MembersOf(dirs, names, files);
    forall k | 0 <= k < |members|
      ensures MemberOk(members[k])
    {
      if k == 0 {
        RootOk();
      } else if k <= |dirs| {
        assert members[k] == Member(dirs[k - 1], DIRECTORY_MODE, []);
        assert dirs[k - 1] in dirs;
        var n :| n in files && IsParent(dirs[k - 1], n);
        ParentSpelling(dirs[k - 1], n);
      } else {
        var n := names[k - 1 - |dirs|];
        assert n in names;
        assert members[k] == Member(n, REGULAR_MODE, files[n]);
      }
    }
  }

  lemma RootOk()
    ensures MemberOk(ROOT_MEMBER) && PlainName(DOT)
  {
    assert |DOT| != |TRAILER|;
  }

  lemma PlainListed(dirs: seq<Name>, names: seq<Name>, files: map<Name, seq<byte>>)
    requires forall n :: n in names ==> n in files
    ensures Plain(MembersOf(dirs, names, files)) <==>
      (forall d :: d in dirs ==> PlainName(d)) && (forall n :: n in names ==> PlainName(n))
  {
    RootOk();
    hide PlainName;
    var members := MembersOf(dirs, names, files);
    forall k | 0 <= k < |dirs|
      ensures members[1 + k].name == dirs[k]
    {
    }
    forall k | 0 <= k < |names|
      ensures members[1 + |dirs| + k].name == names[k]
    {
      assert names[k] in names;
    }
    if (forall d :: d in dirs ==> PlainName(d)) && (forall n :: n in names ==> PlainName(n)) {
      forall k | 0 <= k < |members|
        ensures PlainName(members[k].name)
      {
        if k > |dirs| {
          assert members[1 + |dirs| + (k - 1 - |dirs|)].name == names[k - 1 - |dirs|];
        } else if k > 0 {
          assert members[1 + (k - 1)].name == dirs[k - 1];
        }
      }
    }
    if Plain(members) {
      forall d | d in dirs
        ensures PlainName(d)
      {
        var k :| 0 <= k < |dirs| && dirs[k] == d;
        assert members[1 + k].name == d;
      }
      forall n | n in names
        ensures PlainName(n)
      {
        var k :| 0 <= k < |names| && names[k] == n;
        assert members[1 + |dirs| + k].name == n;
      }
    }
  }

  // ---------- the round trip ----------

  /** Each name can be walked and is short enough. */
  ghost predicate AllTakeable(files: map<Name, seq<byte>>)
  {
    forall n :: n in files ==> Walkable(n) && |n| < PATH_MAX
  }

  /** No file lies where another does, or above it. */
  ghost predicate Apart(files: map<Name, seq<byte>>)
  {
    forall n, m :: n in files && m in files && n != m ==> !(FilePath(n) <= FilePath(m))
  }

  ghost predicate NoTrailer(files: map<Name, seq<byte>>)
  {
    TRAILER !in files && forall n :: n in files ==> !IsParent(TRAILER, n)
  }

  /** When the kernel takes the archive of some files. */
  ghost predicate Mountable(files: map<Name, seq<byte>>)
  {
    AllTakeable(files) && Apart(files) && NoTrailer(files)
  }

  /** The tree holds the files with their bytes, the directories above them and the root, and nothing
      else. */
  ghost predicate Mounted(view: View, files: map<Name, seq<byte>>, mtime: nat)
  {
    && (forall p :: p in view <==> p == [] || p in ParentPaths(files) || p in PathsOf(files))
    && (forall n :: n in files ==> FilePath(n) in view && view[FilePath(n)] == FileMeta(mtime, files[n]))
    && (forall p :: p in view && p !in PathsOf(files) ==> view[p] == DirMeta(mtime))
  }

  lemma RootIn(mtime: nat)
    ensures DirsIn(map[[] := DirMeta(mtime)], {}, DirMeta(mtime))
  {
  }

  /** Once all parents are listed, nothing is merely implied. */
  lemma DirsComplete(view: View, files: map<Name, seq<byte>>, mtime: nat)
    requires DirsIn(view, ParentPaths(files), DirMeta(mtime))
    ensures FilesIn(view, ParentPaths(files), map[], mtime)
  {
    hide FilePath;
    var dirs := ParentPaths(files);
    forall p | p in view && p != []
      ensures p in dirs
    {
      var d :| d in dirs && p <= d;
      var n, k :| n in files && 0 < k < |FilePath(n)| && d == FilePath(n)[..k];
      assert p == FilePath(n)[..|p|] && 0 < |p| < |FilePath(n)|;
    }
  }

  /** Root and directories first. */
  lemma DirsFirst(dirs: seq<Name>, files: map<Name, seq<byte>>, mtime: nat)
    requires Faithful(dirs) && Distinct(AllPaths(dirs)) && SetOf(AllPaths(dirs)) == ParentPaths(files)
    requires forall i :: 0 <= i < |dirs| ==> AllPaths(dirs)[i] != []
    ensures var r := InsertAll(map[[] := ROOT], [ROOT_MEMBER] + DirMembers(AllPaths(dirs)), mtime);
      r.Ok? && FilesIn(r.value, ParentPaths(files), map[], mtime)
  {
    hide FilePath, Join, DirsIn, FilesIn, ParentPaths, InsertedMember, Faithful;
    var start, more: View := map[[] := DirMeta(mtime)], map[[] := ROOT];
    assert more[[] := DirMeta(mtime)] == start;
    DirsCover(dirs);
    RootInserted(more, mtime);
    RootIn(mtime);
    DirsGetIn(start, {}, AllPaths(dirs), mtime);
    assert {} + SetOf(AllPaths(dirs)) == ParentPaths(files);
    InsertAllConcat(more, [ROOT_MEMBER], DirMembers(AllPaths(dirs)), mtime);
    assert [ROOT_MEMBER][1..] == [];
    DirsComplete(InsertAll(start, DirMembers(AllPaths(dirs)), mtime).value, files, mtime);
  }

  /** The names list the files, each once. */
  ghost predicate Lists(names: seq<Name>, files: map<Name, seq<byte>>)
  {
    Distinct(names) && forall n :: n in names <==> n in files
  }

  lemma ApartDistinct(names: seq<Name>, files: map<Name, seq<byte>>)
    requires Lists(names, files) && Apart(files)
    ensures Distinct(AllPaths(names))
  {
    hide FilePath;
    forall i, j | 0 <= i < j < |names|
      ensures AllPaths(names)[i] != AllPaths(names)[j]
    {
      assert names[i] in names && names[j] in names && names[i] != names[j];
    }
  }

  lemma NotAbove(n: Name, files: map<Name, seq<byte>>)
    requires Apart(files) && n in files
    ensures FilePath(n) !in ParentPaths(files)
  {
    hide FilePath;
    forall m, k | m in files && 0 < k < |FilePath(m)|
      ensures FilePath(n) != FilePath(m)[..k]
    {
      assert FilePath(m)[..k] <= FilePath(m);
    }
  }

  lemma ApartHoused(names: seq<Name>, files: map<Name, seq<byte>>)
    requires Lists(names, files) && Apart(files)
    ensures forall i :: 0 <= i < |names| ==> Housed(AllPaths(names)[i], ParentPaths(files))
  {
    hide FilePath;
    forall i | 0 <= i < |names|
      ensures Housed(AllPaths(names)[i], ParentPaths(files))
    {
      var n := names[i];
      assert n in names;
      NotAbove(n, files);
      forall k | 0 < k < |FilePath(n)|
        ensures FilePath(n)[..k] in ParentPaths(files)
      {
      }
    }
  }

  /** If the files are apart, all get in. */
  lemma FilesNext(view: View, names: seq<Name>, files: map<Name, seq<byte>>, mtime: nat)
    requires Lists(names, files) && AllFine(files) && FilesIn(view, ParentPaths(files), map[], mtime) && Apart(files)
    ensures var r := InsertAll(view, FileMembers(names, files), mtime);
      r.Ok? && Mounted(r.value, files, mtime)
  {
    hide FilePath, Fine, FilesIn, ParentPaths, InsertAll, FileMembers, Taken, Apart, Housed, AllPaths, Mounted;
    ApartDistinct(names, files);
    ApartHoused(names, files);
    assert Settled(names, files, ParentPaths(files), map[]);
    FilesGetIn(view, ParentPaths(files), map[], names, files, mtime);
    TakenMounted(InsertAll(view, FileMembers(names, files), mtime).value, names, files, mtime);
  }

  /** The files taken are those at the paths of the names. */
  lemma TakenPaths(names: seq<Name>, files: map<Name, seq<byte>>)
    requires Lists(names, files) && Distinct(AllPaths(names))
    ensures Taken(map[], names, files).Keys == PathsOf(files)
    ensures forall n :: n in files ==> Took(Taken(map[], names, files), n, files)
  {
    hide FilePath, Taken, Took;
    TakenAll(map[], names, files);
    forall n | n in files
      ensures Took(Taken(map[], names, files), n, files) && FilePath(n) in AllPaths(names)
    {
      var i :| 0 <= i < |names| && names[i] == n;
      assert AllPaths(names)[i] == FilePath(n);
    }
    forall p | p in AllPaths(names)
      ensures p in PathsOf(files)
    {
      var i :| 0 <= i < |names| && AllPaths(names)[i] == p;
      assert names[i] in names;
    }
  }

  lemma TakenMounted(view: View, names: seq<Name>, files: map<Name, seq<byte>>, mtime: nat)
    requires Lists(names, files) && Distinct(AllPaths(names))
    requires FilesIn(view, ParentPaths(files), Taken(map[], names, files), mtime)
    ensures Mounted(view, files, mtime)
  {
    hide FilePath, Taken, ParentPaths, PathsOf;
    TakenPaths(names, files);
    var got := Taken(map[], names, files);
    forall n | n in files
      ensures FilePath(n) in view && view[FilePath(n)] == FileMeta(mtime, files[n])
    {
      assert Took(got, n, files);
    }
  }

  /** Otherwise one is refused. */
  lemma FilesRefused(view: View, names: seq<Name>, files: map<Name, seq<byte>>, mtime: nat)
    requires Lists(names, files) && AllFine(files) && FilesIn(view, ParentPaths(files), map[], mtime) && !Apart(files)
    ensures InsertAll(view, FileMembers(names, files), mtime).Err?
  {
    hide FilePath, Fine, FilesIn, ParentPaths, InsertAll, FileMembers;
    var n, m :| n in files && m in files && n != m && FilePath(n) <= FilePath(m);
    var i :| 0 <= i < |names| && names[i] == n;
    var j :| 0 <= j < |names| && names[j] == m;
    var f := FilePath(n);
    assert AllPaths(names)[i] == f && AllPaths(names)[j] == FilePath(m);
    if f == FilePath(m) {
      RepeatBlocks(view, names, files, mtime);
    } else {
      AboveExplicit(view, n, m, files, mtime);
      ExplicitBlocks(view, names, files, f, mtime);
    }
  }

  lemma AboveExplicit(view: View, n: Name, m: Name, files: map<Name, seq<byte>>, mtime: nat)
    requires FilesIn(view, ParentPaths(files), map[], mtime) && m in files && Fine(n) && FilePath(n) < FilePath(m)
    ensures Explicit(view, FilePath(n))
  {
    hide FilePath, Walkable;
    var f := FilePath(n);
    FileIsPlaced(view, n, mtime, []);
    assert f == FilePath(m)[..|f|] && f in ParentPaths(files);
  }

  lemma ListedFiles(dirs: seq<Name>, names: seq<Name>, files: map<Name, seq<byte>>)
    requires Listed(dirs, names, files)
    ensures Lists(names, files)
  {
    hide NameOrder.Sorted, IsParent;
    ListedNames(names, files);
    NameOrder.DistinctCounts(names);
  }

  /** Inserting the builder's list when every name can be walked. */
  lemma FineInserts(files: map<Name, seq<byte>>, epoch: nat, dirs: seq<Name>, names: seq<Name>)
    requires AllFine(files) && Listed(dirs, names, files) && forall n :: n in names ==> n in files
    ensures var r := InsertAll(map[[] := ROOT], MembersOf(dirs, names, files), epoch);
      (r.Ok? <==> Apart(files)) && (r.Ok? ==> Mounted(r.value, files, epoch))
  {
    hide FilePath, Join, Fine, IsParent, FilesIn, MembersOf, Listed, InsertAll, ParentPaths, Faithful, Apart, AllPaths,
      Mounted, FileMembers, DirMembers, PathOk;
    ListedFiles(dirs, names, files);
    ListedDirs(dirs, names, files);
    DirsCover(dirs);
    MembersByPath(dirs, names, files);
    DirsFirst(dirs, files, epoch);
    var first, last := [ROOT_MEMBER] + DirMembers(AllPaths(dirs)), FileMembers(names, files);
    InsertAllConcat(map[[] := ROOT], first, last, epoch);
    var v := InsertAll(map[[] := ROOT], first, epoch).value;
    if Apart(files) {
      FilesNext(v, names, files, epoch);
    } else {
      FilesRefused(v, names, files, epoch);
    }
  }

  /** And when some name cannot. */
  lemma OtherInserts(files: map<Name, seq<byte>>, epoch: nat, dirs: seq<Name>, names: seq<Name>, n: Name)
    requires Good(files) && n in files && !Walkable(n)
    requires Listed(dirs, names, files) && forall m :: m in names ==> m in files
    ensures InsertAll(map[[] := ROOT], MembersOf(dirs, names, files), epoch).Err?
  {
    hide Given, Walkable, Listed, InsertAll, IsParent;
    ListedFiles(dirs, names, files);
    var members, last := MembersOf(dirs, names, files), FileMembers(names, files);
    var first := members[..1 + |dirs|];
    assert members == first + last;
    InsertAllConcat(map[[] := ROOT], first, last, epoch);
    var r := InsertAll(map[[] := ROOT], first, epoch);
    if r.Ok? { OtherBlocks(r.value, names, files, n, epoch); }
  }

  /** Which lists have only plain names. */
  lemma PlainExactly(dirs: seq<Name>, names: seq<Name>, files: map<Name, seq<byte>>)
    requires Good(files) && Listed(dirs, names, files) && forall n :: n in names ==> n in files
    ensures Plain(MembersOf(dirs, names, files)) <==> NoTrailer(files) && forall n :: n in files ==> |n| < PATH_MAX
  {
    hide Accepted, Listed, IsParent, MembersOf, Plain;
    ListedFiles(dirs, names, files);
    ListedParents(dirs, names, files);
    PlainListed(dirs, names, files);
    if NoTrailer(files) && forall n :: n in files ==> |n| < PATH_MAX {
      forall d | d in dirs
        ensures PlainName(d)
      {
        var n :| n in files && IsParent(d, n);
        ParentSpelling(d, n);
      }
    }
    assert (exists n :: n in files && IsParent(TRAILER, n)) <==> TRAILER in dirs;
    assert !PlainName(TRAILER);
  }

  /** The archive of a set of files parses exactly when they are mountable, and then the tree is
      theirs. */
  lemma BuiltParses(files: map<Name, seq<byte>>, epoch: nat, dirs: seq<Name>, names: seq<Name>)
    requires Good(files) && epoch < UINT32 && Listed(dirs, names, files) && forall n :: n in names ==> n in files
    ensures var r := Parsed(map[[] := ROOT], ArchiveOf(MembersOf(dirs, names, files), epoch), 0);
      (r.Ok? <==> Mountable(files)) && (r.Ok? ==> Mounted(r.value, files, epoch))
  {
    hide Mounted, Parsed, ArchiveOf, MembersOf, Listed, InsertAll, NoTrailer, MembersOk, Plain, Apart, Walkable, Given;
    AllWritable(dirs, names, files);
    ParsedArchive(map[[] := ROOT], MembersOf(dirs, names, files), epoch);
    PlainExactly(dirs, names, files);
    if n :| n in files && !Walkable(n) {
      OtherInserts(files, epoch, dirs, names, n);
    } else {
      FineInserts(files, epoch, dirs, names);
    }
  }

  /** What comes out of an archive fits the size field. */
  ghost predicate Small(view: View)
  {
    forall p :: p in view ==> |view[p].data| < UINT32
  }

  lemma {:induction false} WalkSmall(view: View, dir: Path, text: Name, seen: bool, meta: Meta)
    requires Small(view) && |meta.data| < UINT32
    ensures var r := Walk(view, dir, text, seen, meta); r.Ok? ==> Small(r.value)
    decreases |text|
  {
    if text != [] && 0 < TokenEnd(text) <= NAME_MAX {
      var n := TokenEnd(text);
      var name, rest := text[..n], if n == |text| then [] else text[n + 1..];
      if name == DOT {
        WalkSmall(view, dir, rest, seen, meta);
      } else if n < |text| {
        var next := Entered(view, dir + [name]);
        if next.Ok? { WalkSmall(next.value, dir + [name], rest, true, meta); }
      }
    }
  }

  lemma {:induction false} ParsedSmall(view: View, a: seq<byte>, at: nat)
    requires Small(view)
    ensures Parsed(view, a, at).Ok? ==> Small(Parsed(view, a, at).value)
    decreases |a| - at
  {
    hide ReadRecord, Walk, Small;
    if at < |a| && ReadRecord(a, at).Ok? {
      RecordAdvances(a, at);
      RecordSmall(a, at);
      var r := ReadRecord(a, at).value;
      var kind := TypeOf(r.mode);
      if r.name != TRAILER && kind.Some? {
        var meta := MetaFor(kind.value, r.mode, r.mtime * NANOSECONDS, r.data);
        WalkSmall(view, [], r.name, false, meta);
        var v := Inserted(view, r.name, r.mode, r.mtime * NANOSECONDS, r.data);
        if v.Ok? { ParsedSmall(v.value, a, r.next); }
      }
    }
  }

  /** Whatever the files, their tree comes out exactly when they are mountable and each fits its size
      field. */
  lemma BuiltExactly(files: map<Name, seq<byte>>, epoch: nat, dirs: seq<Name>, names: seq<Name>)
    requires AllGiven(files) && epoch < UINT32 && Listed(dirs, names, files) && forall n :: n in names ==> n in files
    ensures var r := Parsed(map[[] := ROOT], ArchiveOf(MembersOf(dirs, names, files), epoch), 0);
      r.Ok? && Mounted(r.value, files, epoch) <==> Mountable(files) && SizesFit(files)
  {
    hide Parsed, ArchiveOf, MembersOf, Listed, Mountable, AllGiven, FilePath;
    if SizesFit(files) {
      BuiltParses(files, epoch, dirs, names);
    } else {
      ParsedSmall(map[[] := ROOT], ArchiveOf(MembersOf(dirs, names, files), epoch), 0);
    }
  }

  /** Building an archive and mounting it. */
  method BuildAndMount(files: map<Name, seq<byte>>, epoch: nat) returns (status: int, fs: Initfs)
    requires AllGiven(files) && epoch < UINT32
    ensures fs.Valid() && status <= OK
    ensures status == OK && Mounted(fs.view, files, epoch) <==> Mountable(files) && SizesFit(files)
    ensures SizesFit(files) ==> (status == OK <==> Mountable(files))
  {
    hide Parsed, ArchiveOf, MembersOf, Mountable, Mounted, Listed, AllGiven, SizesFit;
    var archive, dirs, names := Build(files, epoch);
    BuiltExactly(files, epoch, dirs, names);
    if SizesFit(files) {
      BuiltParses(files, epoch, dirs, names);
    }
    NotEmpty(MembersOf(dirs, names, files), epoch);
    status, fs := MountInitramfs(archive);
  }

  lemma NotEmpty(members: seq<Member>, mtime: nat)
    ensures ArchiveOf(members, mtime) != []
  {
    StartsNonzero(LAST, |members| + 1, mtime);
  }
}
