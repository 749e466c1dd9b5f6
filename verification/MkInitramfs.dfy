/** The archive builder (user/mkinitramfs.py). */
module MkInitramfs {
  import opened Wrappers
  import opened Bytes
  import opened Paths
  import opened Newc
  import NameOrder

  const DIRECTORY_MODE: nat := 16877    // S_IFDIR | 0755
  const REGULAR_MODE: nat := 33261      // S_IFREG | 0755

  type Name = seq<byte>

  /** Components joined by single slashes. */
  function Join(path: seq<Name>): Name
    requires path != []
  {
    Spell(path)[1..]
  }

  /** Members one after the other, numbered from `first`. */
  function EncodeAll(members: seq<Member>, first: nat, mtime: nat): seq<byte>
    decreases |members|
  {
    if members == [] then []
    else EncodeMember(members[0], first, mtime) + EncodeAll(members[1..], first + 1, mtime)
  }

  lemma {:induction false} EncodeAllMore(members: seq<Member>, m: Member, first: nat, mtime: nat)
    ensures EncodeAll(members + [m], first, mtime)
         == EncodeAll(members, first, mtime) + EncodeMember(m, first + |members|, mtime)
    decreases |members|
  {
    hide EncodeMember;
    if members == [] {
      assert [m][1..] == [];
      assert members + [m] == [m];
    } else {
      assert (members + [m])[1..] == members[1..] + [m];
      EncodeAllMore(members[1..], m, first + 1, mtime);
    }
  }

  lemma {:induction false} EncodeAllAligned(members: seq<Member>, first: nat, mtime: nat)
    ensures |EncodeAll(members, first, mtime)| % 4 == 0
    decreases |members|
  {
    hide EncodeMember;
    if members != [] {
      MemberLength(members[0], first, mtime);
      EncodeAllAligned(members[1..], first + 1, mtime);
    }
  }

  const LAST: Member := Member(TRAILER, 0, [])

  /** The zeros that fill the last 512 bytes. */
  function Fill(n: nat): nat
  {
    (512 - n % 512) % 512
  }

  /** The whole archive. */
  function ArchiveOf(members: seq<Member>, mtime: nat): seq<byte>
  {
    var body := EncodeAll(members, 1, mtime) + EncodeMember(LAST, |members| + 1, mtime);
    body + Zeros(Fill(|body|))
  }

  class Output {
    var bytes: seq<byte>

    constructor ()
      ensures bytes == []
    {
      bytes := [];
    }

    /** pad4. */
    method Pad4()
      modifies this
      ensures bytes == Padded(old(bytes))
    {
      Aligned(|bytes|);
      PadCount(|bytes|);
      bytes := bytes + Zeros((4 - |bytes| % 4) % 4);
    }

    /** append_member. */
    method AppendMember(m: Member, inode: nat, mtime: nat)
      requires |bytes| % 4 == 0
      modifies this
      ensures bytes == old(bytes) + EncodeMember(m, inode, mtime) && |bytes| % 4 == 0
    {
      hide EncodeHeader, FieldsFor, Padded;
      var header := EncodeHeader(FieldsFor(m, inode, mtime));
      bytes := bytes + header;
      bytes := bytes + (m.name + [0]);
      ghost var front := header + m.name + [0];
      assert bytes == old(bytes) + front;
      Pad4();
      PaddedTail(old(bytes), front);
      bytes := bytes + m.data;
      ghost var sofar := old(bytes) + Padded(front);
      Pad4();
      PaddedTail(sofar, m.data);
      MemberLength(m, inode, mtime);
    }
  }

  lemma PadCount(n: nat)
    ensures Align4(n) - n == (4 - n % 4) % 4
  {
  }

  lemma PaddedTail(a: seq<byte>, b: seq<byte>)
    requires |a| % 4 == 0
    ensures Padded(a + b) == a + Padded(b) && |a + Padded(b)| % 4 == 0
  {
    AlignedSum(|a|, |b|);
    Aligned(|b|);
  }

  // ---------- which members ----------

  /** A guest name as parse_file leaves it: no slash at either end, not empty, not a lone dot, and
      nowhere going up. */
  predicate Accepted(name: Name)
  {
    && name != [] && name[0] != SLASH && name[|name| - 1] != SLASH && name != DOT
    && DOTDOT !in Tokens(name)
  }

  /** The guest half of parse_file: the slashes at the ends go, the components stay. */
  method ParseGuest(text: Name) returns (guest: Option<Name>)
    ensures guest.Some? <==> Tokens(text) != [] && Tokens(text) != [DOT] && DOTDOT !in Tokens(text)
    ensures guest.Some? ==> Accepted(guest.value) && Tokens(guest.value) == Tokens(text)
  {
    hide Tokens;
    var name := text;
    while name != [] && name[0] == SLASH
      invariant Tokens(name) == Tokens(text)
    {
      TokensSkip(name);
      name := name[1..];
    }
    while name != [] && name[|name| - 1] == SLASH
      invariant Tokens(name) == Tokens(text) && (name != [] ==> name[0] != SLASH)
    {
      TokensDrop(name);
      name := name[..|name| - 1];
    }
    TokensEmpty(name);
    TokensDot(name);
    return if name == [] || name == DOT || DOTDOT in Tokens(name) then None else Some(name);
  }

  lemma TokensSkip(p: Name)
    requires p != [] && p[0] == SLASH
    ensures Tokens(p) == Tokens(p[1..])
  {
  }

  /** A slash at the end adds no component. */
  lemma {:induction false} TokensDrop(p: Name)
    requires p != [] && p[|p| - 1] == SLASH
    ensures Tokens(p) == Tokens(p[..|p| - 1])
    decreases |p|
  {
    var q := p[..|p| - 1];
    if p[0] == SLASH {
      if |p| > 1 {
        TokensDrop(p[1..]);
        assert q[1..] == p[1..][..|p| - 2];
      }
    } else {
      var n := TokenEnd(p);
      TokenStops(p);
      TokenEndPrefix(p, |p| - 1);
      assert n < |p|;
      TokensDrop(p[n..]);
      assert q[n..] == p[n..][..|p| - n - 1] && q[..n] == p[..n];
    }
  }

  lemma {:induction false} TokenEndPrefix(p: Name, m: nat)
    requires m < |p| && p[m] == SLASH
    ensures TokenEnd(p[..m]) == TokenEnd(p) <= m
    decreases m
  {
    if m > 0 && p[0] != SLASH {
      TokenEndPrefix(p[1..], m - 1);
      assert p[..m][1..] == p[1..][..m - 1];
    }
  }

  lemma TokensEmpty(name: Name)
    ensures name == [] || name[0] != SLASH ==> (name == [] <==> Tokens(name) == [])
  {
  }

  /** Without slashes at the ends, only the dot itself is the one component of a dot. */
  lemma TokensDot(name: Name)
    requires name != [] ==> name[0] != SLASH && name[|name| - 1] != SLASH
    ensures name == DOT <==> Tokens(name) == [DOT]
  {
    if name != [] {
      var n := TokenEnd(name);
      if n < |name| {
        var rest := name[n..];
        assert rest[|rest| - 1] != SLASH;
        TokensLast(rest);
        assert Tokens(name)[1..] == Tokens(rest);
      } else {
        assert name[..n] == name && name[n..] == [];
      }
    }
  }

  lemma {:induction false} TokensLast(p: Name)
    requires p != [] && p[|p| - 1] != SLASH
    ensures Tokens(p) != []
    decreases |p|
  {
    if p[0] == SLASH { TokensLast(p[1..]); }
  }

  /** The parts pathlib sees in a path: no empty ones and no dots. */
  function Parts(tokens: seq<Name>): seq<Name>
  {
    if tokens == [] then []
    else (if tokens[0] == DOT then [] else [tokens[0]]) + Parts(tokens[1..])
  }

  lemma {:induction false} PartsOfClean(tokens: seq<Name>)
    requires CleanStack(tokens)
    ensures Parts(tokens) == tokens
  {
    if tokens != [] {
      PartsOfClean(tokens[1..]);
      assert [tokens[0]] + tokens[1..] == tokens;
    }
  }

  /** The directory is some way down the path of a name, but not all the way. */
  predicate IsParent(dir: Name, name: Name)
  {
    var parts := Parts(Tokens(name));
    exists k :: 0 < k < |parts| && dir == Join(parts[..k])
  }

  /** parent_directories. */
  method ParentDirectories(names: set<Name>) returns (dirs: set<Name>)
    ensures forall d :: d in dirs <==> exists n :: n in names && IsParent(d, n)
  {
    hide Tokens, Join;
    dirs := {};
    var left := names;
    while left != {}
      invariant left <= names
      invariant forall d :: d in dirs <==> exists n :: n in names - left && IsParent(d, n)
      decreases |left|
    {
      var name :| name in left;
      var more := ParentsOf(name);
      ghost var before, seen := dirs, names - left;
      dirs := dirs + more;
      left := left - {name};
      assert names - left == seen + {name};
      ParentsGrow(before, more, seen, name);
    }
    assert names - left == names;
  }

  lemma ParentsGrow(dirs: set<Name>, more: set<Name>, seen: set<Name>, name: Name)
    requires forall d :: d in dirs <==> exists n :: n in seen && IsParent(d, n)
    requires forall d :: d in more <==> IsParent(d, name)
    ensures forall d :: d in dirs + more <==> exists n :: n in seen + {name} && IsParent(d, n)
  {
    hide IsParent;
  }

  /** The parents of one path, from the nearest up. */
  method ParentsOf(name: Name) returns (dirs: set<Name>)
    ensures forall d :: d in dirs <==> IsParent(d, name)
  {
    hide Tokens, Join, Parts;
    var parts := Parts(Tokens(name));
    dirs := {};
    var k := |parts| - 1;
    while k > 0
      invariant k < |parts| && (parts == [] ==> k == -1) && (parts != [] ==> k >= 0)
      invariant forall d :: d in dirs <==> exists j :: 0 < j < |parts| && j > k && d == Join(parts[..j])
    {
      dirs := dirs + {Join(parts[..k])};
      k := k - 1;
    }
  }

  /** sorted: byte order, which for UTF-8 is the order of the characters. */
  method SortedNames(names: set<Name>) returns (r: seq<Name>)
    ensures NameOrder.Sorted(r) && multiset(r) == multiset(names)
  {
    r := [];
    var left := names;
    while left != {}
      invariant left <= names && NameOrder.Sorted(r) && multiset(r) == multiset(names - left)
      decreases |left|
    {
      var name :| name in left;
      NameOrder.InsertSorted(name, r);
      r := NameOrder.Insert(name, r);
      assert names - (left - {name}) == (names - left) + {name};
      left := left - {name};
    }
    assert names - left == names;
  }

  /** The members main lists: the root, the parent directories and the files. */
  function MembersOf(dirs: seq<Name>, names: seq<Name>, files: map<Name, seq<byte>>): (m: seq<Member>)
    requires forall n :: n in names ==> n in files
    ensures |m| == 1 + |dirs| + |names|
  {
    [Member(DOT, DIRECTORY_MODE, [])]
    + seq(|dirs|, i requires 0 <= i < |dirs| => Member(dirs[i], DIRECTORY_MODE, []))
    + seq(|names|, i requires 0 <= i < |names| && names[i] in files => Member(names[i], REGULAR_MODE, files[names[i]]))
  }

  /** The lists are the sorted parent directories and the sorted names. */
  ghost predicate Listed(dirs: seq<Name>, names: seq<Name>, files: map<Name, seq<byte>>)
  {
    && NameOrder.Sorted(dirs) && NameOrder.Sorted(names) && multiset(names) == multiset(files.Keys)
    && (forall d :: multiset(dirs)[d] == if exists n :: n in files && IsParent(d, n) then 1 else 0)
  }

  /** The writing half of main. */
  method WriteArchive(members: seq<Member>, epoch: nat) returns (archive: seq<byte>)
    ensures archive == ArchiveOf(members, epoch)
  {
    hide EncodeMember;
    var output := new Output();
    var i := 0;
    while i < |members|
      invariant 0 <= i <= |members| && |output.bytes| % 4 == 0
      invariant output.bytes == EncodeAll(members[..i], 1, epoch)
    {
      EncodeAllMore(members[..i], members[i], 1, epoch);
      assert members[..i] + [members[i]] == members[..i + 1];
      output.AppendMember(members[i], i + 1, epoch);
      i := i + 1;
    }
    assert members[..i] == members;
    output.AppendMember(LAST, |members| + 1, epoch);
    archive := output.bytes + Zeros((512 - |output.bytes| % 512) % 512);
  }

  /** The archive main writes. */
  method Build(files: map<Name, seq<byte>>, epoch: nat)
    returns (archive: seq<byte>, ghost dirs: seq<Name>, ghost names: seq<Name>)
    ensures Listed(dirs, names, files) && forall n :: n in names ==> n in files
    ensures archive == ArchiveOf(MembersOf(dirs, names, files), epoch)
  {
    hide IsParent, ArchiveOf, MembersOf, NameOrder.Sorted;
    var parents := ParentDirectories(files.Keys);
    var sortedDirs := SortedNames(parents);
    var sortedNames := SortedNames(files.Keys);
    dirs, names := sortedDirs, sortedNames;
    ListedNames(sortedNames, files);
    archive := WriteArchive(MembersOf(sortedDirs, sortedNames, files), epoch);
  }

  lemma ListedNames(names: seq<Name>, files: map<Name, seq<byte>>)
    requires multiset(names) == multiset(files.Keys)
    ensures forall n :: n in names <==> n in files
  {
    forall n
      ensures n in names <==> n in files
    {
      assert n in names <==> n in multiset(names);
    }
  }
}
