/** The archive parser (kernel/fs/initramfs.c, parse_archive and the mount that runs it). */
module Initramfs {
  import opened Wrappers
  import opened KernelAbi
  import opened Bytes
  import opened Newc
  import opened InitTree

  const NANOSECONDS: nat := 1_000_000_000

  /** The tree an archive adds up to from an offset on: its records are inserted until the trailer,
      behind which only zeros may come. */
  function Parsed(view: View, a: seq<byte>, at: nat): Result<View>
    decreases |a| - at
  {
    if at >= |a| then Err(EINVAL)
    else
      RecordAdvances(a, at);
      match ReadRecord(a, at)
      case Err(e) => Err(e)
      case Ok(r) =>
        if r.name == TRAILER then (if r.data == [] && AllZero(a[r.next..]) then Ok(view) else Err(EINVAL))
        else match Inserted(view, r.name, r.mode, r.mtime * NANOSECONDS, r.data)
          case Err(e) => Err(e)
          case Ok(v) => Parsed(v, a, r.next)
  }

  lemma ParsedEnd(view: View, a: seq<byte>, at: nat)
    requires at >= |a|
    ensures Parsed(view, a, at) == Err(EINVAL)
  {
  }

  lemma ParsedNext(view: View, a: seq<byte>, at: nat)
    requires at < |a| && ReadRecord(a, at).Ok? && ReadRecord(a, at).value.name != TRAILER
    ensures var r := ReadRecord(a, at).value; var v := Inserted(view, r.name, r.mode, r.mtime * NANOSECONDS, r.data);
      Parsed(view, a, at) == if v.Ok? then Parsed(v.value, a, r.next) else v
  {
    hide ReadRecord, Inserted;
  }

  lemma ParsedTrailer(view: View, a: seq<byte>, at: nat)
    requires at < |a| && ReadRecord(a, at).Ok? && ReadRecord(a, at).value.name == TRAILER
    ensures var r := ReadRecord(a, at).value;
      r.next <= |a| && Parsed(view, a, at) == if r.data == [] && AllZero(a[r.next..]) then Ok(view) else Err(EINVAL)
  {
    RecordAdvances(a, at);
    hide ReadRecord;
  }

  /** parse_archive: it ends, the tree stays well formed whatever the bytes are, and the tree is what
      the records say. */
  method ParseArchive(fs: Initfs, a: seq<byte>) returns (status: int)
    requires fs.Valid()
    modifies fs
    ensures fs.Valid()
    ensures var r := Parsed(old(fs.view), a, 0);
      if r.Err? then status == r.code < 0 else status == OK && fs.view == r.value
  {
    hide ReadRecord, Inserted, Parsed, Linked, NoTwins, Shows;
    ghost var goal := Parsed(fs.view, a, 0);
    var cursor, trailerSeen := 0, false;
    while cursor < |a|
      invariant cursor <= |a| && fs.Valid() && Parsed(fs.view, a, cursor) == goal
      decreases |a| - cursor
    {
      var r := FetchRecord(a, cursor);
      RecordAdvances(a, cursor);
      if r.Err? {
        RecordErr(fs.view, a, cursor);
        return r.code;
      }
      var record := r.value;
      if record.name == TRAILER {
        ParsedTrailer(fs.view, a, cursor);
        if record.data != [] {
          return EINVAL;
        }
        status := CheckTail(a, record.next);
        return;
      }
      ParsedNext(fs.view, a, cursor);
      var inserted := fs.InsertMember(record.name, record.mode, record.mtime * NANOSECONDS, record.data);
      if inserted < 0 {
        return inserted;
      }
      cursor := record.next;
    }
    ParsedEnd(fs.view, a, cursor);
    return EINVAL;
  }

  lemma RecordErr(view: View, a: seq<byte>, at: nat)
    requires at < |a| && ReadRecord(a, at).Err?
    ensures Parsed(view, a, at) == Err(ReadRecord(a, at).code) && ReadRecord(a, at).code < 0
  {
  }

  /** Only zeros may follow the trailer. */
  method CheckTail(a: seq<byte>, start: nat) returns (status: int)
    requires start <= |a|
    ensures status == if AllZero(a[start..]) then OK else EINVAL
  {
    var cursor := start;
    while cursor < |a|
      invariant start <= cursor <= |a| && forall k :: start <= k < cursor ==> a[k] == 0
    {
      if a[cursor] != 0 {
        assert a[start..][cursor - start] != 0;
        return EINVAL;
      }
      cursor := cursor + 1;
    }
    return OK;
  }

  /** ns_vfs_mount_initramfs up to the mount itself. */
  method MountInitramfs(archive: seq<byte>) returns (status: int, fs: Initfs)
    ensures fresh(fs) && fs.Valid()
    ensures archive == [] ==> status == EINVAL
    ensures archive != [] ==> var r := Parsed(map[[] := ROOT], archive, 0);
      if r.Err? then status == r.code < 0 else status == OK && fs.view == r.value
  {
    hide Parsed;
    fs := new Initfs();
    if archive == [] {
      return EINVAL, fs;
    }
    status := ParseArchive(fs, archive);
  }
}
