/** The journal step of a run: check the journal and, when asked to, replay it
    (tools/fsck_northstar.c, validate_and_maybe_replay_journal). */
module JournalRun {
  import opened OnDisk
  import opened HostImage
  import opened Superblocks
  import opened Journal
  import opened JournalTrust
  import opened FsckReport

  lemma {:induction false} ApplyUntouched(image: seq<Block>, ws: seq<Write>, b: nat)
    requires InRange(|image|, ws) && b < |image|
    requires forall k :: 0 <= k < |ws| ==> ws[k].block != b
    ensures Apply(image, ws)[b] == image[b]
  {
    if ws != [] {
      ApplyUntouched(image, ws[..|ws| - 1], b);
    }
  }

  /** The header checks, each with its own issue. */
  method ValidateHeader(report: Report, b: Block, sb: Superblock) returns (valid: bool)
    modifies report
    ensures valid == HeaderValid(b, sb)
    ensures report.errors >= old(report.errors) && report.fatal == old(report.fatal)
    ensures report.errors == old(report.errors) <==> valid
  {
    hide DecodeJournal, JournalChecksum;
    var h := DecodeJournal(b);
    valid := true;
    if h.magic != JOURNAL_MAGIC || h.version != VERSION
       || h.headerSize != JOURNAL_HEADER_SIZE || h.descriptorSize != JOURNAL_DESCRIPTOR_SIZE {
      report.Error();
      valid := false;
    }
    if h.checksum != JournalChecksum(b) {
      report.Error();
      valid := false;
    }
    if h.reserved != 0 {
      report.Warning();
    }
    if h.state != JOURNAL_EMPTY && h.state != JOURNAL_PREPARED && h.state != JOURNAL_COMMITTED {
      report.Error();
      valid := false;
    }
    if h.entryCount > sb.journalEntries || h.entryCount > JOURNAL_MAX_ENTRIES {
      report.Error();
      valid := false;
    }
    if h.state == JOURNAL_EMPTY && h.entryCount != 0 {
      report.Error();
      valid := false;
    }
    if (h.state == JOURNAL_PREPARED || h.state == JOURNAL_COMMITTED)
       && (h.entryCount == 0 || h.txid == 0) {
      report.Error();
      valid := false;
    }
  }

  /** One descriptor: its flags, its target, no earlier entry with the same target, and the
      checksum of its redo image.  A read outside the region is fatal. */
  method ValidateEntry(report: Report, image: Image, b: Block, sb: Superblock, i: nat)
    returns (valid: bool)
    requires image.pending == [] && i < JOURNAL_MAX_ENTRIES && sb.journalStart < |image.durable|
    requires b == image.durable[sb.journalStart]
    modifies report
    ensures report.errors >= old(report.errors)
    ensures report.fatal && !old(report.fatal) ==> sb.journalStart + 1 + i >= |image.durable|
    ensures old(report.fatal) ==> report.fatal
    ensures !report.fatal ==> (report.errors == old(report.errors) <==> valid)
    ensures !report.fatal ==> (valid <==> EntryOk(image.durable, sb, i))
  {
    hide DescriptorAt, Crc32c;
    var e := DescriptorAt(b, i);
    valid := true;
    if e.flags != 0 {
      report.Error();
      valid := false;
    }
    if e.target >= sb.totalBlocks || InJournal(sb, e.target) {
      report.Error();
      return false;
    }
    var prior := 0;
    while prior < i && DescriptorAt(b, prior).target != e.target
      invariant 0 <= prior <= i
      invariant forall p :: 0 <= p < prior ==> DescriptorAt(b, p).target != e.target
    {
      prior := prior + 1;
    }
    if prior < i {
      report.Error();
      valid := false;
    }
    var ok, redo := image.Read(sb.journalStart + 1 + i);
    if !ok {
      report.Fatal();
      return false;
    }
    if Crc32c(redo) != e.dataChecksum {
      report.Error();
      valid := false;
    }
  }

  /** The journal blocks a replay still has to read hold the after-images. */
  ghost predicate JournalIntact(view: seq<Block>, p: Plan)
  {
    && p.header + |p.writes| < |view|
    && forall k :: 0 <= k < |p.writes| ==> view[p.header + 1 + k] == p.writes[k].data
  }

  /** One pass over the entries: reads each after-image whose target is, or is not, a superblock
      copy from the journal and writes it. */
  method Install(image: Image, b: Block, ghost p: Plan, start: nat, count: nat, supers: bool)
    requires Valid(image.State()) && image.pending == [] && PlanOk(p, |image.durable|)
    requires p.header == start && |p.writes| == count <= JOURNAL_MAX_ENTRIES
    requires forall i :: 0 <= i < count ==> DescriptorAt(b, i).target == p.writes[i].block
    requires JournalIntact(image.durable, p)
    modifies image
    ensures image.durable == old(image.durable) && image.pending == Chosen(p.writes, supers)
  {
    hide DescriptorAt;
    var i := 0;
    while i < count
      invariant 0 <= i <= count && image.durable == old(image.durable)
      invariant image.pending == Chosen(p.writes[..i], supers) && Valid(image.State())
    {
      var target := DescriptorAt(b, i).target;
      assert p.writes[..i + 1][..i] == p.writes[..i];
      if (target < SUPERBLOCK_COPIES) == supers {
        JournalReadBack(image.durable, p, i, supers);
        var okRead, redo := image.Read(start + 1 + i);
        assert redo == p.writes[i].data;
        var okWrite := image.Put(target, redo);
      }
      i := i + 1;
    }
    assert p.writes[..i] == p.writes;
  }

  lemma JournalReadBack(durable: seq<Block>, p: Plan, i: nat, supers: bool)
    requires PlanOk(p, |durable|) && i < |p.writes| && JournalIntact(durable, p)
    ensures InRange(|durable|, Chosen(p.writes[..i], supers))
    ensures Apply(durable, Chosen(p.writes[..i], supers))[p.header + 1 + i] == p.writes[i].data
  {
    var ws := Chosen(p.writes[..i], supers);
    ChosenInRange(p.writes[..i], supers, |durable|);
    forall k | 0 <= k < |ws|
      ensures ws[k].block != p.header + 1 + i
    {
      ChosenMember(p.writes[..i], supers, ws[k]);
    }
    ApplyUntouched(durable, ws, p.header + 1 + i);
  }

  lemma StillIntact(durable: seq<Block>, p: Plan)
    requires PlanOk(p, |durable|) && JournalIntact(durable, p)
    requires InRange(|durable|, Chosen(p.writes, false))
    ensures JournalIntact(Apply(durable, Chosen(p.writes, false)), p)
  {
    var after := Apply(durable, Chosen(p.writes, false));
    forall k | 0 <= k < |p.writes|
      ensures after[p.header + 1 + k] == p.writes[k].data
    {
      ChosenApplied(durable, p.writes, false, p.header + 1 + k);
      HeaderNotTarget(durable, p, p.header + 1 + k);
    }
  }

  /** The three stages of a replay; what it leaves is what running the whole program leaves. */
  method Replay(image: Image, b: Block, ghost p: Plan, start: nat, count: nat, empty: Block)
    requires image.pending == [] && PlanOk(p, |image.durable|)
    requires p.header == start && |p.writes| == count <= JOURNAL_MAX_ENTRIES && p.empty == empty
    requires forall i :: 0 <= i < count ==> DescriptorAt(b, i).target == p.writes[i].block
    requires JournalIntact(image.durable, p)
    modifies image
    ensures OpsOk(|old(image.durable)|, Program(p))
    ensures image.State() == Run(Disk(old(image.durable), []), Program(p)) && image.pending == []
  {
    hide DescriptorAt;
    ghost var d0 := image.durable;
    StagesOk(p, |d0|);
    ghost var stages := Stages(p);
    ghost var i, j := StagedPrefix(d0, stages, |Program(p)|);
    assert Program(p)[..|Program(p)|] == Program(p);
    Install(image, b, p, start, count, false);
    image.Sync();
    assert image.durable == Base(d0, stages, 1);
    StillIntact(d0, p);
    Install(image, b, p, start, count, true);
    image.Sync();
    assert image.durable == Base(d0, stages, 2);
    var ok := image.Put(start, empty);
    image.Sync();
    assert image.durable == Base(d0, stages, 3);
  }

  /** The checks of the journal step.  Without a read failure they answer whether the journal is
      valid, and record an error exactly when it is not or when a COMMITTED transaction is to be
      left alone. */
  method ValidateJournal(report: Report, image: Image, sb: Superblock, replay: bool)
    returns (ok: bool, b: Block)
    requires image.pending == [] && sb.journalStart < |image.durable| && !report.fatal
    modifies report
    ensures b == image.durable[sb.journalStart]
    ensures !report.fatal ==> ok == JournalValid(image.durable, sb)
    ensures report.fatal ==> !JournalValid(image.durable, sb) && !ok
    ensures report.errors >= old(report.errors)
    ensures !report.fatal ==>
      (report.errors == old(report.errors) <==>
       ok && (DecodeJournal(b).state == JOURNAL_COMMITTED ==> replay))
  {
    hide DecodeJournal, DescriptorAt, JournalChecksum, EntryOk;
    var okRead;
    okRead, b := image.Read(sb.journalStart);
    var valid := ValidateHeader(report, b, sb);
    var h := DecodeJournal(b);
    var count := if h.entryCount > JOURNAL_MAX_ENTRIES then JOURNAL_MAX_ENTRIES else h.entryCount;
    var i := 0;
    while i < count
      invariant 0 <= i <= count && !report.fatal
      invariant report.errors >= old(report.errors)
      invariant report.errors == old(report.errors) <==> valid
      invariant valid <==> HeaderValid(b, sb) && EntriesOk(image.durable, sb, i)
    {
      var entryValid := ValidateEntry(report, image, b, sb, i);
      if report.fatal {
        BeyondRegion(image.durable, sb, i);
        return false, b;
      }
      valid := valid && entryValid;
      i := i + 1;
    }
    hide EntriesOk, HeaderValid;
    if h.state == JOURNAL_PREPARED {
      report.Warning();
    } else if h.state == JOURNAL_COMMITTED && !replay {
      report.Error();
    }
    if h.state != JOURNAL_EMPTY && sb.state == STATE_CLEAN {
      report.Error();
      valid := false;
    }
    ok := valid;
  }

  lemma BeyondRegion(image: seq<Block>, sb: Superblock, i: nat)
    requires sb.journalStart < |image| <= sb.journalStart + 1 + i && i < JOURNAL_MAX_ENTRIES
    requires i < DecodeJournal(image[sb.journalStart]).entryCount
    ensures !JournalValid(image, sb)
  {
    hide DecodeJournal, JournalChecksum;
    assert !EntryOk(image, sb, i);
  }

  /** The journal step: it replays exactly when the run is to (ReplayableWith), and then leaves
      what the whole program of the plan leaves. */
  method ValidateAndMaybeReplay(report: Report, image: Image, sb: Superblock, replay: bool)
    returns (ok: bool, replayed: bool)
    requires image.pending == [] && LayoutValid(sb, |image.durable|) && !report.fatal
    requires report as object != image
    modifies report, image
    ensures !report.fatal ==> ok == JournalValid(old(image.durable), sb)
    ensures report.errors >= old(report.errors)
    ensures !report.fatal ==>
      (report.errors == old(report.errors) <==>
       ok && (DecodeJournal(old(image.durable)[sb.journalStart]).state == JOURNAL_COMMITTED ==> replay))
    ensures replayed <==> replay && ReplayableWith(old(image.durable), sb)
    ensures replayed <==> replay && Vouched(old(image.durable), sb)
    ensures replayed ==>
      && OpsOk(|old(image.durable)|, Program(PlanWith(old(image.durable), sb)))
      && image.State() == Run(Disk(old(image.durable), []), Program(PlanWith(old(image.durable), sb)))
    ensures !replayed ==> image.State() == old(image.State())
    ensures image.pending == [] && |image.durable| == |old(image.durable)|
    ensures report.fatal ==> !replayed && !JournalValid(old(image.durable), sb)
  {
    hide DecodeJournal, DescriptorAt, EmptyHeader, JournalValid, PlanWith, PlanOk, LayoutValid, Run, Program, Vouched;
    ghost var durable := image.durable;
    ReplayableExactly(durable, sb);
    assert sb.journalStart < |durable| by { LayoutJournal(sb, |durable|); }
    var b;
    ok, b := ValidateJournal(report, image, sb, replay);
    var h := DecodeJournal(b);
    replayed := ok && replay && h.state == JOURNAL_COMMITTED;
    if replayed {
      PlanWithOk(durable, sb);
      PlanReads(durable, sb);
      Replay(image, b, PlanWith(durable, sb), sb.journalStart, h.entryCount,
             EmptyHeader(h.txid, sb.generation));
    }
  }

  lemma LayoutJournal(sb: Superblock, n: nat)
    requires LayoutValid(sb, n)
    ensures sb.journalStart < n
  {
  }

  lemma PlanReads(image: seq<Block>, sb: Superblock)
    requires ReplayableWith(image, sb)
    ensures var p, b := PlanWith(image, sb), image[sb.journalStart];
      && p.header == sb.journalStart && |p.writes| == DecodeJournal(b).entryCount <= JOURNAL_MAX_ENTRIES
      && p.empty == EmptyHeader(DecodeJournal(b).txid, sb.generation)
      && JournalIntact(image, p)
      && forall i :: 0 <= i < |p.writes| ==> DescriptorAt(b, i).target == p.writes[i].block
  {
    hide DecodeJournal, JournalChecksum, DescriptorAt, EmptyHeader, AreasFrom;
    var n := DecodeJournal(image[sb.journalStart]).entryCount;
    assert EntryOk(image, sb, n - 1);
  }
}
