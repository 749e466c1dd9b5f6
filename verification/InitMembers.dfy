/** Parsing an archive is inserting its members one after the other. */
module InitMembers {
  import opened Wrappers
  import opened KernelAbi
  import opened Bytes
  import opened Newc
  import opened InitTree
  import opened Initramfs
  import opened MkInitramfs

  function InsertedMember(view: View, m: Member, mtime: nat): Result<View>
  {
    Inserted(view, m.name, m.mode, mtime * NANOSECONDS, m.data)
  }

  function InsertAll(view: View, members: seq<Member>, mtime: nat): Result<View>
    decreases |members|
  {
    if members == [] then Ok(view)
    else match InsertedMember(view, members[0], mtime)
      case Err(e) => Err(e)
      case Ok(v) => InsertAll(v, members[1..], mtime)
  }

  lemma {:induction false} InsertAllConcat(view: View, a: seq<Member>, b: seq<Member>, mtime: nat)
    ensures var r := InsertAll(view, a, mtime);
      InsertAll(view, a + b, mtime) == if r.Ok? then InsertAll(r.value, b, mtime) else r
    decreases |a|
  {
    hide InsertedMember;
    if a == [] {
      assert a + b == b;
    } else {
      assert (a + b)[1..] == a[1..] + b && (a + b)[0] == a[0];
      var v := InsertedMember(view, a[0], mtime);
      if v.Ok? { InsertAllConcat(v.value, a[1..], b, mtime); }
    }
  }
  predicate MemberOk(m: Member)
  {
    Writable(m) && m.mode < UINT32
  }

  predicate MembersOk(members: seq<Member>)
  {
    forall k :: 0 <= k < |members| ==> MemberOk(members[k])
  }

  /** A name the parser reads back and does not take for the trailer. */
  predicate PlainName(name: Name)
  {
    |name| < PATH_MAX && name != TRAILER
  }

  predicate Plain(members: seq<Member>)
  {
    forall k :: 0 <= k < |members| ==> PlainName(members[k].name)
  }

  lemma MemberRecord(m: Member, inode: nat, mtime: nat, pre: seq<byte>, post: seq<byte>)
    requires MemberOk(m) && |m.name| < PATH_MAX && mtime < UINT32 && |pre| % 4 == 0
    ensures var e := EncodeMember(m, inode, mtime); var r := ReadRecord(pre + e + post, |pre|);
      && r.Ok? && r.value.name == m.name && r.value.mode == m.mode && r.value.mtime == mtime && r.value.data == m.data
      && r.value.next == |pre| + |e|
  {
    hide EncodeMember, ReadRecord;
    MemberReadsBack(m, inode, mtime, pre, post);
    SameBelow(m.mode);
    SameBelow(mtime);
  }

  lemma SameBelow(n: nat)
    requires n < UINT32
    ensures n % UINT32 == n
  {
  }

  /** Every record begins with a byte that is not zero. */
  lemma StartsNonzero(m: Member, inode: nat, mtime: nat)
    ensures var e := EncodeMember(m, inode, mtime); |e| > 0 && e[0] == 48
  {
    hide EncodeMember, EncodeHeader;
    MemberParts(m, inode, mtime);
    MagicFirst(FieldsFor(m, inode, mtime));
    var e := EncodeMember(m, inode, mtime);
    assert e[0] == e[..HEADER_SIZE][0] == e[..HEADER_SIZE][..6][0];
  }

  lemma RestNonzero(members: seq<Member>, first: nat, mtime: nat, tail: seq<byte>)
    requires |tail| > 0 && tail[0] == 48
    ensures var rest := EncodeAll(members, first, mtime) + tail; |rest| > 0 && rest[0] == 48
  {
    hide EncodeMember;
    if members != [] { StartsNonzero(members[0], first, mtime); }
  }

  /** Parsing an encoded list inserts its members one after the other, unless the name of one of them
      is too long or taken for the trailer. */
  lemma {:induction false} ParsedMembers(view: View, members: seq<Member>, first: nat, mtime: nat, pre: seq<byte>,
                                         tail: seq<byte>)
    requires MembersOk(members) && mtime < UINT32 && |pre| % 4 == 0 && |tail| > 0 && tail[0] == 48
    ensures var all := EncodeAll(members, first, mtime); var a, r := pre + all + tail, InsertAll(view, members, mtime);
      && (Plain(members) ==> Parsed(view, a, |pre|) == if r.Ok? then Parsed(r.value, a, |pre| + |all|) else r)
      && (!Plain(members) ==> Parsed(view, a, |pre|).Err?)
    decreases |members|
  {
    hide EncodeMember, ReadRecord, Inserted, Parsed, MemberOk;
    if members != [] {
      var m, more := members[0], members[1..];
      var e, rest := EncodeMember(m, first, mtime), EncodeAll(more, first + 1, mtime);
      var a := pre + (e + rest) + tail;
      Regroup4(pre, e, rest, tail);
      StartsNonzero(m, first, mtime);
      PlainSplit(members);
      if !PlainName(m.name) {
        RestNonzero(more, first + 1, mtime, tail);
        OddMember(view, m, first, mtime, pre, rest + tail);
      } else {
        MemberRecord(m, first, mtime, pre, rest + tail);
        MemberLength(m, first, mtime);
        ParsedNext(view, a, |pre|);
        var v := InsertedMember(view, m, mtime);
        if v.Ok? {
          ParsedMembers(v.value, more, first + 1, mtime, pre + e, tail);
        }
      }
    }
  }

  /** A member that is not plain ends the parse with an error. */
  lemma OddMember(view: View, m: Member, inode: nat, mtime: nat, pre: seq<byte>, post: seq<byte>)
    requires MemberOk(m) && !PlainName(m.name) && mtime < UINT32 && |pre| % 4 == 0 && |post| > 0 && post[0] == 48
    ensures Parsed(view, pre + EncodeMember(m, inode, mtime) + post, |pre|).Err?
  {
    hide EncodeMember, ReadRecord, Parsed;
    var e := EncodeMember(m, inode, mtime);
    var a := pre + e + post;
    StartsNonzero(m, inode, mtime);
    if |m.name| >= PATH_MAX {
      LongNameRefused(m, inode, mtime, pre, post);
      RecordErr(view, a, |pre|);
    } else {
      MemberRecord(m, inode, mtime, pre, post);
      ParsedTrailer(view, a, |pre|);
      assert a[|pre| + |e|..] == post;
    }
  }

  lemma PlainSplit(members: seq<Member>)
    requires members != []
    ensures Plain(members) <==> PlainName(members[0].name) && Plain(members[1..])
  {
  }

  lemma Regroup4(a: seq<byte>, b: seq<byte>, c: seq<byte>, d: seq<byte>)
    ensures a + (b + c) + d == a + b + (c + d) && a + (b + c) + d == a + b + c + d
  {
  }

  /** Parsing a whole archive. */
  lemma ParsedArchive(view: View, members: seq<Member>, mtime: nat)
    requires MembersOk(members) && mtime < UINT32
    ensures var a := ArchiveOf(members, mtime);
      && (Plain(members) ==> Parsed(view, a, 0) == InsertAll(view, members, mtime))
      && (!Plain(members) ==> Parsed(view, a, 0).Err?)
  {
    hide EncodeMember, ReadRecord, Parsed, MemberOk, InsertAll, EncodeAll, Plain;
    var all, last := EncodeAll(members, 1, mtime), EncodeMember(LAST, |members| + 1, mtime);
    var zeros := Zeros(Fill(|all + last|));
    var a, tail := ArchiveOf(members, mtime), last + zeros;
    assert a == [] + all + tail;
    StartsNonzero(LAST, |members| + 1, mtime);
    ParsedMembers(view, members, 1, mtime, [], tail);
    var r := InsertAll(view, members, mtime);
    if Plain(members) && r.Ok? {
      assert a == all + last + zeros;
      EncodeAllAligned(members, 1, mtime);
      LastOk();
      MemberRecord(LAST, |members| + 1, mtime, all, zeros);
      ParsedTrailer(r.value, a, |all|);
      assert a[|all| + |last|..] == zeros;
    }
  }

  lemma LastOk()
    ensures MemberOk(LAST) && |LAST.name| < PATH_MAX
  {
  }
}
