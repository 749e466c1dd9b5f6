/** A whole run of fsck.northstar (tools/fsck_northstar.c, execute_check and main), and what an
    image it passes is like. */
module FsckRun {
  import opened Wrappers
  import opened OnDisk
  import opened HostImage
  import opened Superblocks
  import opened Journal
  import opened JournalTrust
  import opened JournalRun
  import opened Volumes
  import opened Directories
  import opened Topology
  import opened FsckReport
  import opened FsckContext
  import opened FsckGraph
  import opened FsckSuper
  import opened FsckBlocks
  import opened FsckDirs
  import opened FsckTopology
  import opened FsckMeaning
  import opened Checksums

  predicate CopiesOk(image: seq<Block>)
  {
    |image| >= SUPERBLOCK_COPIES && CopiesAgree(DecodeSuper(image[0]), DecodeSuper(image[1]))
  }

  lemma InodeCount(b: Block)
    ensures DecodeSuper(b).totalInodes <= UINT32_MAX
  {
    SuperFits(b);
    InodeWidth(DecodeSuper(b));
  }

  lemma InodeWidth(s: Superblock)
    requires Bytes.Fits(SuperWidths(), SuperFields(s))
    ensures s.totalInodes <= UINT32_MAX
  {
    assert SuperWidths()[9] == 4 && SuperFields(s)[9] == s.totalInodes;
    assert Bytes.Pow256(4) == UINT32_MAX + 1;
    hide Bytes.Pow256;
  }

  lemma SelectedCount(image: seq<Block>)
    requires Selected(image).Some?
    ensures Selected(image).value.totalInodes <= UINT32_MAX
  {
    hide DecodeSuper, CopyValid;
    InodeCount(image[0]);
    InodeCount(image[1]);
  }

  /** The volume itself, once superblock, layout and journal are in order. */
  ghost predicate VolumeOk(v: Volume)
    requires Wf(v)
  {
    TailsOk(v) && BlocksOk(v) && NamespaceOk(v) && TopologyOk(v)
  }

  predicate BeforeVolumeOk(image: seq<Block>, s: Superblock, allowDirty: bool)
  {
    && LayoutValid(s, |image|) && (s.state == STATE_DIRTY ==> allowDirty)
    && s.journalStart < |image| && JournalValid(image, s)
    && DecodeJournal(image[s.journalStart]).state != JOURNAL_COMMITTED
  }

  /** The images a run passes after having looked at everything. */
  ghost predicate Accepts(image: seq<Block>, allowDirty: bool)
  {
    && CopiesOk(image) && Selected(image).Some?
    && var s := Selected(image).value;
    && BeforeVolumeOk(image, s, allowDirty) && s.totalInodes <= UINT32_MAX
    && VolumeOk(Load(image, s))
  }

  /** The images a run passes without having looked past the layout. */
  predicate PassedUnseen(image: seq<Block>, allowDirty: bool)
  {
    && CopiesOk(image) && Selected(image).Some?
    && SilentlyRejected(Selected(image).value, |image|, allowDirty)
  }

  /** The passes over a loaded volume. */
  method CheckVolume(report: Report, v: Volume)
    requires Wf(v) && !report.fatal
    modifies report
    ensures report.errors >= old(report.errors)
    ensures report.errors == old(report.errors) && !report.fatal <==> VolumeOk(v)
  {
    hide TailsOk, BlocksOk, NamespaceOk, TopologyOk, Follows, Shaped, Tracks, AllEntries;
    var ctx := new Context(v);
    FreshContext(ctx);
    ValidateBitmapTails(report, ctx);
    ValidateInodesAndBlocks(report, ctx);
    ValidateDirectories(report, ctx);
    if report.fatal {
      return;
    }
    ghost var clean := report.errors == old(report.errors);
    if clean { AllEntriesIs(v); }
    ValidateTopology(report, ctx, clean);
  }

  lemma AllEntriesIs(v: Volume)
    requires Wf(v) && NamespaceOk(v)
    ensures DirectoriesOk(v, v.sb.totalInodes) && AllEntries(v) == EntriesUpto(v, v.sb.totalInodes)
  {
  }

  lemma FreshContext(ctx: Context)
    requires Wf(ctx.volume)
    requires var n := ctx.volume.sb.totalInodes;
      && ctx.linkReferences == seq(n, _ => 0) && ctx.directoryParentCount == seq(n, _ => 0)
      && ctx.declaredParent == seq(n, _ => NO_PARENT) && ctx.entryParent == seq(n, _ => NO_PARENT)
      && ctx.reachable == seq(n, _ => false) && ctx.edgeHeads == seq(n, _ => NoEdge) && ctx.edges == []
    ensures Follows(ctx, [])
  {
  }

  ghost predicate PassesWith(image: seq<Block>, s: Superblock, allowDirty: bool)
    requires s.totalInodes <= UINT32_MAX
  {
    BeforeVolumeOk(image, s, allowDirty) && VolumeOk(Load(image, s))
  }

  /** execute_check once a superblock is selected. */
  method CheckSelected(report: Report, image: Image, s: Superblock, allowDirty: bool, replay: bool)
    returns (completed: bool, replayed: bool)
    requires image.pending == [] && !report.fatal && report as object != image && s.totalInodes <= UINT32_MAX
    modifies report, image
    ensures image.pending == [] && |image.durable| == |old(image.durable)|
    ensures report.errors >= old(report.errors)
    ensures replayed <==> replay && ReplayableWith(old(image.durable), s)
    ensures replayed ==> !report.fatal
    ensures replayed ==>
      && OpsOk(|old(image.durable)|, Program(PlanWith(old(image.durable), s)))
      && image.State() == HostImage.Run(Disk(old(image.durable), []), Program(PlanWith(old(image.durable), s)))
    ensures !replayed ==> image.durable == old(image.durable)
    ensures !replayed ==>
      && (report.errors == old(report.errors) && !report.fatal <==>
          PassesWith(old(image.durable), s, allowDirty) || SilentlyRejected(s, |image.durable|, allowDirty))
      && (completed && report.errors == old(report.errors) && !report.fatal <==>
          PassesWith(old(image.durable), s, allowDirty))
  {
    hide LayoutValid, JournalValid, DecodeJournal, Load, VolumeOk, SilentlyRejected, PlanWith, Program, HostImage.Run;
    completed, replayed := false, false;
    SilentNotValid(s, |image.durable|, allowDirty);
    var valid := ValidateLayout(report, s, |image.durable|, allowDirty);
    if !valid {
      return;
    }
    ghost var disk := image.durable;
    LayoutJournal(s, |disk|);
    var journalOk;
    journalOk, replayed := ValidateAndMaybeReplay(report, image, s, replay);
    if !journalOk || report.fatal || replayed {
      return;
    }
    CheckVolume(report, Load(image.durable, s));
    completed := !report.fatal;
  }

  lemma SilentNotValid(s: Superblock, n: nat, allowDirty: bool)
    ensures SilentlyRejected(s, n, allowDirty) ==> !LayoutValid(s, n)
  {
  }

  /** execute_check: one pass over the image.  It is clean exactly on the images it accepts and on
      those it passes unseen, and it completes its checks only on the former. */
  method ExecuteCheck(report: Report, image: Image, allowDirty: bool, replay: bool)
    returns (completed: bool, replayed: bool)
    requires image.pending == [] && report.errors == 0 && !report.fatal && report as object != image
    modifies report, image
    ensures image.pending == [] && |image.durable| == |old(image.durable)|
    ensures Selected(old(image.durable)).None? ==> report.fatal
    ensures replayed <==> replay && PlanOf(old(image.durable)).Some?
    ensures replayed ==> !report.fatal
    ensures replayed ==>
      && OpsOk(|old(image.durable)|, Program(PlanOf(old(image.durable)).value))
      && image.State() == HostImage.Run(Disk(old(image.durable), []), Program(PlanOf(old(image.durable)).value))
    ensures !replayed ==> image.durable == old(image.durable)
    ensures !replayed ==>
      && (report.errors == 0 && !report.fatal <==>
          Accepts(old(image.durable), allowDirty) || PassedUnseen(old(image.durable), allowDirty))
      && (completed && report.errors == 0 && !report.fatal <==> Accepts(old(image.durable), allowDirty))
  {
    hide DecodeSuper, CopiesAgree, Newer, LayoutValid, BeforeVolumeOk, Load, VolumeOk, SilentlyRejected, ReplayableWith,
      PlanWith, Program, HostImage.Run;
    completed, replayed := false, false;
    var ok0, b0 := image.Read(0);
    var ok1, b1 := image.Read(1);
    if !ok0 || !ok1 {
      report.Fatal();
      return;
    }
    var selected := SelectSuperblock(report, DecodeSuper(b0), DecodeSuper(b1));
    if selected.None? {
      return;
    }
    SelectedCount(image.durable);
    completed, replayed := CheckSelected(report, image, selected.value, allowDirty, replay);
  }

  /** The image a run ends up judging. */
  ghost function Judged(image: seq<Block>, replay: bool): seq<Block>
  {
    if replay && PlanOf(image).Some? && OpsOk(|image|, Program(PlanOf(image).value))
    then HostImage.Run(Disk(image, []), Program(PlanOf(image).value)).durable
    else image
  }

  /** main: a pass, and a second one over the repaired image when the first replayed the journal.
      The exit status is zero exactly when the image judged is accepted or passed unseen. */
  method Fsck(image: Image, allowDirty: bool, replay: bool) returns (status: nat, completed: bool)
    requires image.pending == []
    modifies image
    ensures image.pending == [] && image.durable == Judged(old(image.durable), replay)
    ensures if replay && Replays(old(image.durable)) then Replayed(old(image.durable), image.durable)
            else image.durable == old(image.durable)
    ensures status == 0 <==> Accepts(image.durable, allowDirty) || PassedUnseen(image.durable, allowDirty)
    ensures status == 0 && completed <==> Accepts(image.durable, allowDirty)
    ensures status <= 2 && (Selected(image.durable).None? ==> status == 2)
  {
    hide Accepts, PassedUnseen, PlanOf, Program, HostImage.Run, Replays, Replayed;
    ghost var durable := image.durable;
    PlansExactly(durable);
    if PlanOf(durable).Some? {
      ReplayInstalls(durable);
    }
    var report := new Report();
    var replayed;
    completed, replayed := ExecuteCheck(report, image, allowDirty, replay);
    if replayed && !report.fatal {
      report := new Report();
      completed, replayed := ExecuteCheck(report, image, allowDirty, false);
    }
    status := if report.fatal then 2 else if report.errors != 0 then 1 else 0;
  }

  /** Both superblock copies are whole, and equal if of one generation; the newer one is in use, with a
      sound layout; the journal header is whole, and no transaction is waiting. */
  predicate HeadersSound(image: seq<Block>, s: Superblock)
  {
    && |image| >= 2 && CopySound(image[0]) && CopySound(image[1])
    && var s0, s1 := DecodeSuper(image[0]), DecodeSuper(image[1]);
    && (s0.generation == s1.generation ==> s0 == s1) && s == (if s1.generation > s0.generation then s1 else s0)
    && LayoutSound(s, |image|) && s.journalStart < |image|
    && JournalSound(image[s.journalStart], s)
    && (DecodeJournal(image[s.journalStart]).state == JOURNAL_PREPARED ==> PreparedSound(image, s))
  }

  /** The entries of a transaction that was not committed are in order all the same. */
  predicate PreparedSound(image: seq<Block>, s: Superblock)
    requires s.journalStart < |image|
  {
    var n := DecodeJournal(image[s.journalStart]).entryCount;
    0 < n <= 128 && n <= s.journalEntries && s.journalStart + n < |image| && EntriesVouched(image, s, n)
  }

  lemma PreparedMeans(image: seq<Block>, s: Superblock)
    requires s.journalStart < |image| && JournalValid(image, s)
    requires DecodeJournal(image[s.journalStart]).state == JOURNAL_PREPARED
    ensures PreparedSound(image, s)
  {
    hide DecodeJournal, JournalChecksum, EntriesOk, EntriesVouched;
    var n := DecodeJournal(image[s.journalStart]).entryCount;
    EntriesInside(image, s, n);
    EntriesMean(image, s, n);
  }

  predicate JournalSound(b: Block, s: Superblock)
  {
    var h := DecodeJournal(b);
    && ChecksumAt(b, JOURNAL_CHECKSUM)
    && h.magic == JOURNAL_MAGIC && h.version == 1 && h.headerSize == 64 && h.descriptorSize == 16
    && (h.state == JOURNAL_EMPTY || h.state == JOURNAL_PREPARED) && (h.state == JOURNAL_EMPTY <==> h.entryCount == 0)
    && (s.state == STATE_CLEAN ==> h.state == JOURNAL_EMPTY)
  }

  lemma HeadersMean(image: seq<Block>, allowDirty: bool)
    requires Accepts(image, allowDirty)
    ensures HeadersSound(image, Selected(image).value)
  {
    hide LayoutValid, LayoutSound, Load, VolumeOk, DecodeJournal, DecodeSuper, CopyValid, CopySound, JournalChecksum,
      ChecksumAt, EntriesOk, PreparedSound;
    var s := Selected(image).value;
    CopyMeans(image[0]);
    CopyMeans(image[1]);
    LayoutMeans(s, |image|);
    JournalChecked(image[s.journalStart]);
    if DecodeJournal(image[s.journalStart]).state == JOURNAL_PREPARED { PreparedMeans(image, s); }
  }

  /** What it means that a run accepts an image: superblocks and journal are whole; every allocated
      inode, every directory and the bitmaps are sound; block pointers stay in the data area; every data
      block in use has exactly one owner; the directories form a tree rooted at inode 1, everything
      allocated can be reached, and the link counts count the records. */
  lemma AcceptsSound(image: seq<Block>, allowDirty: bool)
    requires Accepts(image, allowDirty)
    ensures HeadersSound(image, Selected(image).value)
    ensures var v := Load(image, Selected(image).value);
      VolumeSound(v) && PointersInside(v) && OwnershipExact(v) && IsTree(v)
  {
    hide LayoutValid, JournalValid, DecodeJournal, Load, TailsOk, TopologyOk, IsTree, OwnershipExact, Selected,
      CopiesOk, InodesOk, DirectoriesOk, VolumeSound, HeadersSound, ClaimsGood, NoLeak, Countable,
      PointersInside;
    var s := Selected(image).value;
    var v := Load(image, s);
    HeadersMean(image, allowDirty);
    LoadedSuper(image, s);
    VolumeMeans(image, s);
    BlocksOkExact(v);
    BlocksOkInside(v);
    TopologySound(v);
  }

  /** A superblock whose journal is one block too small, its areas laid out from block 0. */
  function ShortJournal(): Superblock
  {
    Superblock(MAGIC, VERSION, SUPERBLOCK_SIZE, BLOCK_SIZE, INODE_SIZE, STATE_CLEAN, 0, 1, 16, 2, ROOT_INODE,
               SUPERBLOCK_COPIES, MIN_JOURNAL_BLOCKS - 1, MIN_JOURNAL_BLOCKS - 2, 0, 1, 1, 1, 2, 1, 3, 0, 0, 0, 0, 0,
                 0, 0, 0, 0)
  }

  lemma ShortJournalCopy(copy: Block)
    requires copy == EncodeSuper(SealSuper(ShortJournal())) + Bytes.Zeros(BLOCK_SIZE - SUPERBLOCK_SIZE)
    ensures DecodeSuper(copy) == SealSuper(ShortJournal()) && CopyValid(SealSuper(ShortJournal()))
    ensures SilentlyRejected(SealSuper(ShortJournal()), 16, false)
  {
    hide EncodeSuper, DecodeSuper, Crc32c, SuperChecksum, Bytes.Pow256;
    SealedSuper(ShortJournal(), Bytes.Zeros(BLOCK_SIZE - SUPERBLOCK_SIZE));
  }

  /** Status zero alone says nothing: an image whose journal is too small passes unseen. */
  lemma UnseenImage() returns (image: seq<Block>)
    ensures PassedUnseen(image, false) && !Accepts(image, false)
  {
    hide EncodeSuper, DecodeSuper, SealSuper, ShortJournal, CopyValid, SilentlyRejected, LayoutValid;
    var copy: Block := EncodeSuper(SealSuper(ShortJournal())) + Bytes.Zeros(BLOCK_SIZE - SUPERBLOCK_SIZE);
    ShortJournalCopy(copy);
    image := seq(16, _ => copy);
    assert Selected(image) == Some(SealSuper(ShortJournal()));
    SilentNotValid(SealSuper(ShortJournal()), 16, false);
  }
}
