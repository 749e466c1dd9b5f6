/** The pass over the directories (tools/fsck_northstar.c, process_dirent to validate_directories). */
module FsckDirs {
  import opened Sequences
  import opened Bytes
  import opened Paths
  import opened OnDisk
  import opened Inodes
  import opened Volumes
  import opened Directories
  import opened FsckReport
  import opened FsckContext
  import opened FsckGraph
  import Bitmap
  import NameOrder

  /** What the scan of one directory has collected: the names and how often `.` and `..` occurred. */
  datatype Seen = Seen(names: seq<seq<byte>>, dots: nat, dotdots: nat)

  const WRAP: nat := UINT32_MAX + 1

  /** The collection after one more record; the two counters are 32 bits wide. */
  function Saw(s: Seen, r: Record): Seen
  {
    if r.inode == 0 then s
    else Seen(s.names + [r.name],
              if r.name == DOT then (s.dots + 1) % WRAP else s.dots,
              if r.name == DOTDOT then (s.dotdots + 1) % WRAP else s.dotdots)
  }

  /** What follows from recording one good record, whatever it is. */
  lemma FollowsAppend(ctx: Context, es: seq<Entry>, e: Entry)
    requires Wf(ctx.volume) && Follows(ctx, es) && 0 < e.dir < |ctx.volume.inodes|
    ensures Countable(es + [e]) <==> (e.record.inode != 0 ==> Naming(es, e.record.inode) < UINT64_MAX)
    ensures 0 < e.record.inode < |ctx.volume.inodes| ==>
      ctx.linkReferences[e.record.inode] == Naming(es, e.record.inode) <= UINT64_MAX
    ensures var i := e.record.inode; i < |ctx.volume.inodes| ==>
      && LinksFollow(if i == 0 then ctx.linkReferences
                     else ctx.linkReferences[i := ctx.linkReferences[i] + 1], es + [e])
      && DotDotFollow(if IsDotDot(e, e.dir) then ctx.declaredParent[e.dir := i] else ctx.declaredParent, es + [e])
      && var child := Plain(e.record) && ctx.volume.inodes[i].kind == INODE_DIRECTORY;
      && var counts := ctx.directoryParentCount;
      && ParentsFollow(ctx.volume,
                       if child && counts[i] != UINT32_MAX then counts[i := counts[i] + 1] else counts,
                       if child && counts[i] == 0 then ctx.entryParent[i := e.dir] else ctx.entryParent, es + [e])
    ensures !Plain(e.record) ==> EdgesFollow(ctx.edges, ctx.edgeHeads, es + [e])
  {
    hide DotDotFollow, ParentsFollow, EdgesFollow;
    CountableAppend(es, e);
    if e.record.inode < |ctx.volume.inodes| {
      LinksAppend(ctx.linkReferences, es, e);
      DotDotAppend(ctx.declaredParent, es, e);
      ParentsAppend(ctx.volume, ctx.directoryParentCount, ctx.entryParent, es, e);
    }
    if !Plain(e.record) {
      EdgesAppendNone(ctx.edges, ctx.edgeHeads, es, e);
    }
  }

  /** The part of process_dirent for a record that is neither `.` nor `..`. */
  method RecordChild(ctx: Context, directory: nat, r: Record, ghost es: seq<Entry>)
    requires Wf(ctx.volume) && Shaped(ctx) && directory < |ctx.volume.inodes| && Plain(r)
    requires r.inode < |ctx.volume.inodes|
    modifies ctx`entryParent, ctx`directoryParentCount, ctx`edges, ctx`edgeHeads
    ensures Shaped(ctx)
    ensures var i, counts := r.inode, old(ctx.directoryParentCount);
      var child := ctx.volume.inodes[i].kind == INODE_DIRECTORY;
      && ctx.directoryParentCount == (if child && counts[i] != UINT32_MAX then counts[i := counts[i] + 1] else counts)
      && ctx.entryParent == (if child && counts[i] == 0
           then old(ctx.entryParent)[i := directory] else old(ctx.entryParent))
    ensures old(EdgesFollow(ctx.edges, ctx.edgeHeads, es)) ==>
      EdgesFollow(ctx.edges, ctx.edgeHeads, es + [Entry(directory, r)])
  {
    hide EdgesFollow, EdgesWf;
    ShapedHeads(ctx);
    AppendEdge(ctx, directory, r.inode, es, r);
    if ctx.volume.inodes[r.inode].kind == INODE_DIRECTORY {
      if ctx.directoryParentCount[r.inode] == 0 {
        ctx.entryParent := ctx.entryParent[r.inode := directory];
      }
      if ctx.directoryParentCount[r.inode] != UINT32_MAX {
        ctx.directoryParentCount := ctx.directoryParentCount[r.inode := ctx.directoryParentCount[r.inode] + 1];
      }
    }
  }

  lemma DotsDiffer()
    ensures DOT != DOTDOT && DOT != [] && DOTDOT != []
  {
    assert |DOT| == 1 && |DOTDOT| == 2;
  }

  /** process_dirent: with every record so far recorded and good, an error exactly when this one is
      not good or its reference count would overflow; otherwise it is recorded too. */
  method ProcessDirent(report: Report, ctx: Context, directory: nat, r: Record, seen: Seen, ghost es: seq<Entry>)
    returns (seen': Seen)
    requires Wf(ctx.volume) && Shaped(ctx) && 0 < directory < |ctx.volume.inodes|
    modifies report, ctx`linkReferences, ctx`declaredParent, ctx`entryParent, ctx`directoryParentCount,
             ctx`edges, ctx`edgeHeads
    ensures report.errors >= old(report.errors) && report.fatal == old(report.fatal) && Shaped(ctx)
    ensures var e := Entry(directory, r); old(Follows(ctx, es)) ==>
      && (report.errors == old(report.errors) <==> RecordOk(ctx.volume, directory, r) && Countable(es + [e]))
      && (report.errors == old(report.errors) ==> Follows(ctx, es + [e]) && seen' == Saw(seen, r))
  {
    hide Countable, LinksFollow, DotDotFollow, ParentsFollow, EdgesFollow, EdgesWf, Bitmap.Test, NameOk;
    var v := ctx.volume;
    ghost var e := Entry(directory, r);
    if Follows(ctx, es) { FollowsAppend(ctx, es, e); }
    DotsDiffer();
    seen' := seen;
    if r.inode == 0 {
      if r.name != [] || r.kind != 0 {
        report.Error();
      }
      return;
    }
    if !NameOk(r.name) {
      report.Error();
      return;
    }
    seen' := seen'.(names := seen'.names + [r.name]);
    if r.inode >= v.sb.totalInodes || !Allocated(v, r.inode) {
      report.Error();
      return;
    }
    if !ValidKind(r.kind) || r.kind != v.inodes[r.inode].kind {
      report.Error();
    }
    if ctx.linkReferences[r.inode] != UINT64_MAX {
      ctx.linkReferences := ctx.linkReferences[r.inode := ctx.linkReferences[r.inode] + 1];
    } else {
      report.Error();
    }
    if r.name == DOT {
      seen' := seen'.(dots := (seen'.dots + 1) % WRAP);
      if r.inode != directory || r.kind != INODE_DIRECTORY {
        report.Error();
      }
      return;
    }
    if r.name == DOTDOT {
      seen' := seen'.(dotdots := (seen'.dotdots + 1) % WRAP);
      ctx.declaredParent := ctx.declaredParent[directory := r.inode];
      if v.inodes[r.inode].kind != INODE_DIRECTORY {
        report.Error();
      }
      return;
    }
    RecordChild(ctx, directory, r, es);
  }

  lemma ShapedHeads(ctx: Context)
    requires Shaped(ctx)
    ensures |ctx.edgeHeads| == |ctx.volume.inodes|
  {
  }

  // ---------- one directory ----------

  /** The records rs of directory d are good, on top of the records es seen before. */
  ghost predicate GoodSoFar(v: Volume, d: nat, es: seq<Entry>, rs: seq<Record>)
    requires Wf(v)
  {
    RecordsOk(v, d, rs) && Countable(es + EntriesOf(d, rs))
  }

  function SeenOf(rs: seq<Record>): Seen
  {
    if rs == [] then Seen([], 0, 0) else Saw(SeenOf(rs[..|rs| - 1]), rs[|rs| - 1])
  }

  lemma GoodStep(v: Volume, d: nat, es: seq<Entry>, rs: seq<Record>, r: Record)
    requires Wf(v)
    ensures es + EntriesOf(d, rs + [r]) == es + EntriesOf(d, rs) + [Entry(d, r)]
    ensures GoodSoFar(v, d, es, rs + [r]) <==>
      GoodSoFar(v, d, es, rs) && RecordOk(v, d, r) && Countable(es + EntriesOf(d, rs) + [Entry(d, r)])
    ensures SeenOf(rs + [r]) == Saw(SeenOf(rs), r)
  {
    hide RecordOk, Countable;
    Appended(rs, r);
    assert EntriesOf(d, rs + [r]) == EntriesOf(d, rs) + [Entry(d, r)];
    assert es + EntriesOf(d, rs + [r]) == es + EntriesOf(d, rs) + [Entry(d, r)];
    CountableAppend(es + EntriesOf(d, rs), Entry(d, r));
    assert RecordsOk(v, d, rs + [r]) <==> RecordsOk(v, d, rs) && RecordOk(v, d, r) by {
      assert (rs + [r])[|rs|] == r;
      assert forall k :: 0 <= k < |rs| ==> (rs + [r])[k] == rs[k];
    }
  }

  lemma TilesStep(b: Block, offset: nat, limit: nat)
    requires offset < limit <= BLOCK_SIZE
    ensures Tiles(b, offset, limit) <==> RecordFits(b, offset, limit) && Tiles(b, NextOffset(b, offset, limit), limit)
    ensures Tiles(b, offset, limit) ==>
      Records(b, offset, limit) == [RecordAt(b, offset, limit)] + Records(b, NextOffset(b, offset, limit), limit)
  {
  }

  /** The records of one block, up to the first malformed one. */
  method ScanBlock(report: Report, ctx: Context, directory: nat, b: Block, limit: nat, seen: Seen,
                   ghost es: seq<Entry>, ghost rs: seq<Record>, ghost clean: bool)
    returns (seen': Seen)
    requires Wf(ctx.volume) && Shaped(ctx) && 0 < directory < |ctx.volume.inodes| && limit <= BLOCK_SIZE
    requires clean ==>
      && GoodSoFar(ctx.volume, directory, es, rs) && Follows(ctx, es + EntriesOf(directory, rs)) && seen == SeenOf(rs)
    modifies report, ctx`linkReferences, ctx`declaredParent, ctx`entryParent, ctx`directoryParentCount,
             ctx`edges, ctx`edgeHeads
    ensures report.errors >= old(report.errors) && report.fatal == old(report.fatal) && Shaped(ctx)
    ensures clean ==>
      && (report.errors == old(report.errors) <==>
          Tiles(b, 0, limit) && GoodSoFar(ctx.volume, directory, es, rs + Records(b, 0, limit)))
      && (report.errors == old(report.errors) ==>
          && Follows(ctx, es + EntriesOf(directory, rs + Records(b, 0, limit)))
          && seen' == SeenOf(rs + Records(b, 0, limit)))
  {
    hide GoodSoFar, Follows, Shaped, Tiles, Records, RecordOk, SeenOf, Saw, DirentAt, DirentMin, EntriesOf;
    var v := ctx.volume;
    seen' := seen;
    var offset := 0;
    ghost var done: seq<Record> := [];
    assert rs + done == rs;
    while offset < limit
      invariant 0 <= offset <= limit && Shaped(ctx)
      invariant report.errors >= old(report.errors) && report.fatal == old(report.fatal)
      invariant Tiles(b, 0, limit) <==> Tiles(b, offset, limit)
      invariant Tiles(b, offset, limit) ==> Records(b, 0, limit) == done + Records(b, offset, limit)
      invariant clean ==> (report.errors == old(report.errors) <==> GoodSoFar(v, directory, es, rs + done))
      invariant clean && report.errors == old(report.errors) ==>
        Follows(ctx, es + EntriesOf(directory, rs + done)) && seen' == SeenOf(rs + done)
      decreases limit - offset
    {
      TilesStep(b, offset, limit);
      if !RecordFits(b, offset, limit) {
        report.Error();
        return;
      }
      var r := RecordAt(b, offset, limit);
      GoodStep(v, directory, es, rs + done, r);
      seen' := ProcessDirent(report, ctx, directory, r, seen', es + EntriesOf(directory, rs + done));
      assert rs + done + [r] == rs + (done + [r]);
      done := done + [r];
      offset := NextOffset(b, offset, limit);
    }
    TilesEnd(b, limit);
    assert done + [] == done;
  }

  lemma TilesEnd(b: Block, limit: nat)
    requires limit <= BLOCK_SIZE
    ensures Tiles(b, limit, limit) && Records(b, limit, limit) == []
  {
  }

  lemma {:induction false} GoodPrefix(v: Volume, d: nat, es: seq<Entry>, rs: seq<Record>, more: seq<Record>)
    requires Wf(v) && GoodSoFar(v, d, es, rs + more)
    ensures GoodSoFar(v, d, es, rs)
    decreases |more|
  {
    hide GoodSoFar;
    if more == [] {
      assert rs + more == rs;
    } else {
      var n := |more| - 1;
      assert rs + more == rs + more[..n] + [more[n]];
      GoodStep(v, d, es, rs + more[..n], more[n]);
      GoodPrefix(v, d, es, rs, more[..n]);
    }
  }

  /** The first k blocks of directory d scan without an issue. */
  ghost predicate Scanned(v: Volume, d: nat, es: seq<Entry>, k: nat)
    requires Wf(v) && d < v.sb.totalInodes && k <= DataBlocks(v.inodes[d])
  {
    DirBlocksOk(v, v.inodes[d], k) && GoodSoFar(v, d, es, RecordsUpto(v, v.inodes[d], k))
  }

  lemma ScannedStep(v: Volume, d: nat, es: seq<Entry>, k: nat)
    requires Wf(v) && d < v.sb.totalInodes && k < DataBlocks(v.inodes[d])
    ensures var i := v.inodes[d];
      Scanned(v, d, es, k + 1) <==>
      && Scanned(v, d, es, k) && InDataArea(v, LogicalBlock(v, i, k))
      && var b := v.image[LogicalBlock(v, i, k)];
      && Tiles(b, 0, Limit(i, k)) && GoodSoFar(v, d, es, RecordsUpto(v, i, k) + Records(b, 0, Limit(i, k)))
    ensures Scanned(v, d, es, k + 1) ==>
      var i := v.inodes[d];
      RecordsUpto(v, i, k + 1) == RecordsUpto(v, i, k) + Records(v.image[LogicalBlock(v, i, k)], 0, Limit(i, k))
  {
    hide GoodSoFar, Tiles, Records, LogicalBlock, Limit;
    var i := v.inodes[d];
    assert DirBlocksOk(v, i, k + 1) <==> DirBlocksOk(v, i, k) && DirBlockOk(v, i, k);
    if DirBlocksOk(v, i, k + 1) {
      var more := Records(v.image[LogicalBlock(v, i, k)], 0, Limit(i, k));
      if GoodSoFar(v, d, es, RecordsUpto(v, i, k) + more) {
        GoodPrefix(v, d, es, RecordsUpto(v, i, k), more);
      }
    }
  }

  lemma {:induction false} SeenNames(rs: seq<Record>)
    ensures var s := SeenOf(rs);
      && s.names == NamesOf(rs)
      && s.dots == Occurrences(NamesOf(rs), DOT) % WRAP && s.dotdots == Occurrences(NamesOf(rs), DOTDOT) % WRAP
  {
    if rs != [] {
      var front := rs[..|rs| - 1];
      SeenNames(front);
      if rs[|rs| - 1].inode != 0 {
        Appended(NamesOf(front), rs[|rs| - 1].name);
        NextWraps(Occurrences(NamesOf(front), DOT));
        NextWraps(Occurrences(NamesOf(front), DOTDOT));
      }
    }
  }

  lemma NextWraps(n: nat)
    ensures (n % WRAP + 1) % WRAP == (n + 1) % WRAP
  {
  }

  lemma {:induction false} DistinctOccurs(names: seq<seq<byte>>, x: seq<byte>)
    requires Distinct(names)
    ensures Occurrences(names, x) <= 1 && (x !in names ==> Occurrences(names, x) == 0)
  {
    if names != [] {
      var front := names[..|names| - 1];
      DistinctOccurs(front, x);
    }
  }

  /** The end of validate_directory: sort the names and compare neighbours. */
  method CheckDuplicates(report: Report, names: seq<seq<byte>>)
    modifies report
    ensures report.errors >= old(report.errors) && report.fatal == old(report.fatal)
    ensures report.errors == old(report.errors) <==> Distinct(names)
  {
    NameOrder.SortShowsDuplicates(names);
    hide NameOrder.Sort, Sequences.Distinct;
    var sorted := NameOrder.Sort(names);
    var index := 1;
    while index < |sorted|
      invariant 1 <= index && (index <= |sorted| || |sorted| == 0)
      invariant report.errors >= old(report.errors) && report.fatal == old(report.fatal)
      invariant report.errors == old(report.errors) <==>
                forall i :: 0 < i < index && i < |sorted| ==> NameOrder.Differs(sorted, i)
    {
      if !NameOrder.Differs(sorted, index) {
        report.Error();
      }
      index := index + 1;
    }
  }

  /** The blocks of one directory, in order. */
  method ScanDirectory(report: Report, ctx: Context, d: nat, ghost es: seq<Entry>)
    returns (seen: Seen)
    requires Wf(ctx.volume) && Shaped(ctx) && 0 < d < |ctx.volume.inodes|
    modifies report, ctx`linkReferences, ctx`declaredParent, ctx`entryParent, ctx`directoryParentCount,
             ctx`edges, ctx`edgeHeads
    ensures report.errors >= old(report.errors) && Shaped(ctx) && (old(report.fatal) ==> report.fatal)
    ensures report.errors == old(report.errors) ==> report.fatal == old(report.fatal)
    ensures var v, n := ctx.volume, DataBlocks(ctx.volume.inodes[d]); old(Follows(ctx, es)) ==>
      && (report.errors == old(report.errors) <==> Scanned(v, d, es, n))
      && (report.errors == old(report.errors) ==>
          && Follows(ctx, es + EntriesOf(d, RecordsUpto(v, v.inodes[d], n)))
          && seen == SeenOf(RecordsUpto(v, v.inodes[d], n)))
  {
    hide Follows, Shaped, GoodSoFar, Tiles, Records, SeenOf, EntriesOf, RecordsUpto, DirBlocksOk, DataBlocks;
    var v, i := ctx.volume, ctx.volume.inodes[d];
    var n := DataBlocks(i);
    ghost var clean := Follows(ctx, es);
    seen := Seen([], 0, 0);
    var k := 0;
    ScannedStart(ctx, d, es);
    while k < n
      invariant 0 <= k <= n && Shaped(ctx)
      invariant report.errors >= old(report.errors) && (old(report.fatal) ==> report.fatal)
      invariant report.errors == old(report.errors) ==> report.fatal == old(report.fatal)
      invariant clean ==> (report.errors == old(report.errors) <==> Scanned(v, d, es, k))
      invariant clean && report.errors == old(report.errors) ==>
        Follows(ctx, es + EntriesOf(d, RecordsUpto(v, i, k))) && seen == SeenOf(RecordsUpto(v, i, k))
    {
      ScannedStep(v, d, es, k);
      ghost var now := report.errors;
      var physical := LogicalBlock(v, i, k);
      if !InDataArea(v, physical) {
        report.Error();
        if k >= DIRECT_BLOCKS && i.indirect >= |v.image| {
          report.Fatal();
        }
      } else {
        seen := ScanBlock(report, ctx, d, v.image[physical], Limit(i, k), seen, es,
                          if Scanned(v, d, es, k) then RecordsUpto(v, i, k) else [],
                          clean && report.errors == old(report.errors));
      }
      k := k + 1;
    }
  }

  lemma ScannedStart(ctx: Context, d: nat, es: seq<Entry>)
    requires Wf(ctx.volume) && d < |ctx.volume.inodes|
    ensures DirBlocksOk(ctx.volume, ctx.volume.inodes[d], 0) && RecordsUpto(ctx.volume, ctx.volume.inodes[d], 0) == []
    ensures Follows(ctx, es) ==> Scanned(ctx.volume, d, es, 0)
    ensures es + EntriesOf(d, []) == es && SeenOf([]) == Seen([], 0, 0)
  {
    assert es + EntriesOf(d, []) == es;
  }

  predicate SeenOk(seen: Seen)
  {
    seen.dots == 1 && seen.dotdots == 1 && Distinct(seen.names)
  }

  /** A directory that scans clean and whose names are in order is what DirectoryOk asks for. */
  lemma DirectoryWhole(v: Volume, d: nat, es: seq<Entry>)
    requires Wf(v) && d < v.sb.totalInodes && 0 < v.inodes[d].size <= UINT64_MAX - (BLOCK_SIZE - 1)
    ensures var n := DataBlocks(v.inodes[d]);
      Scanned(v, d, es, n) && SeenOk(SeenOf(RecordsUpto(v, v.inodes[d], n)))
      <==> DirectoryOk(v, d) && Countable(es + EntriesOf(d, DirRecords(v, d)))
  {
    hide Countable, RecordsOk, EntriesOf, RecordsUpto, DirBlocksOk, Sequences.Distinct, Occurrences, NamesOf, SeenOf,
      DataBlocks;
    var n := DataBlocks(v.inodes[d]);
    if DirBlocksOk(v, v.inodes[d], n) {
      var rs := RecordsUpto(v, v.inodes[d], n);
      SeenNames(rs);
      if Distinct(NamesOf(rs)) {
        DistinctOccurs(NamesOf(rs), DOT);
        DistinctOccurs(NamesOf(rs), DOTDOT);
      }
    }
  }

  /** validate_directory. */
  method ValidateDirectory(report: Report, ctx: Context, d: nat, ghost es: seq<Entry>)
    requires Wf(ctx.volume) && Shaped(ctx) && 0 < d < |ctx.volume.inodes|
    modifies report, ctx`linkReferences, ctx`declaredParent, ctx`entryParent, ctx`directoryParentCount,
             ctx`edges, ctx`edgeHeads
    ensures report.errors >= old(report.errors) && Shaped(ctx) && (old(report.fatal) ==> report.fatal)
    ensures report.errors == old(report.errors) ==> report.fatal == old(report.fatal)
    ensures var v := ctx.volume; old(Follows(ctx, es)) ==>
      && (report.errors == old(report.errors) <==>
          DirectoryOk(v, d) && Countable(es + EntriesOf(d, DirRecords(v, d))))
      && (report.errors == old(report.errors) ==> Follows(ctx, es + EntriesOf(d, DirRecords(v, d))))
  {
    hide Follows, Shaped, DirectoryOk, Scanned, SeenOf, Countable, Sequences.Distinct, EntriesOf;
    var v, i := ctx.volume, ctx.volume.inodes[d];
    if i.size == 0 || i.size > UINT64_MAX - (BLOCK_SIZE - 1) {
      report.Error();
      DirectorySize(v, d);
      return;
    }
    DirectoryWhole(v, d, es);
    var seen := ScanDirectory(report, ctx, d, es);
    if seen.dots != 1 || seen.dotdots != 1 {
      report.Error();
    }
    CheckDuplicates(report, seen.names);
  }

  lemma DirectorySize(v: Volume, d: nat)
    requires Wf(v) && d < v.sb.totalInodes
    ensures DirectoryOk(v, d) ==> 0 < v.inodes[d].size <= UINT64_MAX - (BLOCK_SIZE - 1)
  {
  }

  /** The first n inodes' directories are good and countable. */
  ghost predicate NamespaceUpto(v: Volume, n: nat)
    requires Wf(v) && n <= v.sb.totalInodes
  {
    DirectoriesOk(v, n) && Countable(EntriesUpto(v, n))
  }

  lemma NamespaceStep(v: Volume, n: nat)
    requires Wf(v) && 1 <= n < v.sb.totalInodes
    ensures NamespaceUpto(v, n + 1) <==>
      && NamespaceUpto(v, n)
      && (IsDirectory(v, n) ==> DirectoryOk(v, n) && Countable(EntriesUpto(v, n) + EntriesOf(n, DirRecords(v, n))))
    ensures DirectoriesOk(v, n + 1) ==>
      EntriesUpto(v, n + 1) == if IsDirectory(v, n)
        then EntriesUpto(v, n) + EntriesOf(n, DirRecords(v, n)) else EntriesUpto(v, n)
  {
    hide DirectoryOk, Countable, EntriesOf, DirRecords, Bitmap.Test;
    assert DirectoriesOk(v, n + 1) <==> DirectoriesOk(v, n) && (IsDirectory(v, n) ==> DirectoryOk(v, n));
    if DirectoriesOk(v, n + 1) {
      assert EntriesUpto(v, n) + [] == EntriesUpto(v, n);
      if IsDirectory(v, n) {
        var more := EntriesOf(n, DirRecords(v, n));
        if Countable(EntriesUpto(v, n) + more) { CountablePrefix(EntriesUpto(v, n), more); }
      }
    }
  }

  lemma {:induction false} CountablePrefix(es: seq<Entry>, more: seq<Entry>)
    requires Countable(es + more)
    ensures Countable(es)
    decreases |more|
  {
    hide Countable;
    if more == [] {
      assert es + more == es;
    } else {
      var n := |more| - 1;
      assert es + more == es + more[..n] + [more[n]];
      CountableAppend(es + more[..n], more[n]);
      CountablePrefix(es, more[..n]);
    }
  }

  /** validate_directories. */
  method ValidateDirectories(report: Report, ctx: Context)
    requires Wf(ctx.volume) && Follows(ctx, [])
    modifies report, ctx`linkReferences, ctx`declaredParent, ctx`entryParent, ctx`directoryParentCount,
             ctx`edges, ctx`edgeHeads
    ensures report.errors >= old(report.errors) && Shaped(ctx) && (old(report.fatal) ==> report.fatal)
    ensures report.errors == old(report.errors) ==> report.fatal == old(report.fatal)
    ensures var v := ctx.volume;
      && (report.errors == old(report.errors) <==> NamespaceOk(v))
      && (report.errors == old(report.errors) ==> Follows(ctx, EntriesUpto(v, v.sb.totalInodes)))
  {
    hide Follows, Shaped, DirectoryOk, DirectoriesOk, Countable, EntriesOf, EntriesUpto, Bitmap.Test;
    var v := ctx.volume;
    FollowsShaped(ctx);
    if !IsDirectory(v, ROOT_INODE) {
      report.Error();
      return;
    }
    var n := 1;
    NamespaceStart(v);
    while n < v.sb.totalInodes
      invariant 1 <= n <= v.sb.totalInodes && Shaped(ctx)
      invariant report.errors >= old(report.errors) && (old(report.fatal) ==> report.fatal)
      invariant report.errors == old(report.errors) ==> report.fatal == old(report.fatal)
      invariant report.errors == old(report.errors) <==> NamespaceUpto(v, n)
      invariant report.errors == old(report.errors) ==> Follows(ctx, EntriesUpto(v, n))
    {
      NamespaceStep(v, n);
      if IsDirectory(v, n) {
        ValidateDirectory(report, ctx, n, if NamespaceUpto(v, n) then EntriesUpto(v, n) else []);
      }
      n := n + 1;
    }
  }

  lemma FollowsShaped(ctx: Context)
    requires Wf(ctx.volume) && Follows(ctx, [])
    ensures Shaped(ctx)
  {
  }

  lemma NamespaceStart(v: Volume)
    requires Wf(v)
    ensures NamespaceUpto(v, 1) && EntriesUpto(v, 1) == []
  {
  }
}
