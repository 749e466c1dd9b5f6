/** The redo journal: what makes it valid, the writes a replay issues, and what a crash at any
    point of a replay leaves behind (tools/fsck_northstar.c,
    validate_and_maybe_replay_journal). */
module Journal {
  import opened Wrappers
  import opened Bytes
  import opened OnDisk
  import opened HostImage
  import opened Superblocks

  predicate InJournal(sb: Superblock, block: nat)
  {
    sb.journalStart <= block < sb.journalStart + sb.journalBlocks
  }

  /** The checks on the header block b, before any entry is looked at. */
  predicate HeaderValid(b: Block, sb: Superblock)
  {
    var h := DecodeJournal(b);
    && HeaderFields(h, sb)
    && h.checksum == JournalChecksum(b)
  }

  predicate HeaderFields(h: JournalHeader, sb: Superblock)
  {
    && h.magic == JOURNAL_MAGIC && h.version == VERSION
    && h.headerSize == JOURNAL_HEADER_SIZE && h.descriptorSize == JOURNAL_DESCRIPTOR_SIZE
    && h.state <= JOURNAL_COMMITTED
    && h.entryCount <= sb.journalEntries && h.entryCount <= JOURNAL_MAX_ENTRIES
    && (h.state == JOURNAL_EMPTY ==> h.entryCount == 0)
    && (h.state != JOURNAL_EMPTY ==> h.entryCount != 0 && h.txid != 0)
  }

  /** A clean filesystem has an empty journal. */
  predicate CleanAgrees(b: Block, sb: Superblock)
  {
    DecodeJournal(b).state != JOURNAL_EMPTY ==> sb.state != STATE_CLEAN
  }

  /** The checks on entry i of header block b, whose redo image is the given block. */
  predicate EntryValid(b: Block, sb: Superblock, i: nat, redo: Block)
    requires i < JOURNAL_MAX_ENTRIES
  {
    var e := DescriptorAt(b, i);
    && e.flags == 0
    && e.target < sb.totalBlocks && !InJournal(sb, e.target)
    && (forall p :: 0 <= p < i ==> DescriptorAt(b, p).target != e.target)
    && Crc32c(redo) == e.dataChecksum
  }

  predicate EntryOk(image: seq<Block>, sb: Superblock, i: nat)
    requires i < JOURNAL_MAX_ENTRIES && sb.journalStart < |image|
  {
    && sb.journalStart + 1 + i < |image|
    && EntryValid(image[sb.journalStart], sb, i, image[sb.journalStart + 1 + i])
  }

  predicate EntriesOk(image: seq<Block>, sb: Superblock, n: nat)
    requires n <= JOURNAL_MAX_ENTRIES && sb.journalStart < |image|
  {
    forall i :: 0 <= i < n ==> EntryOk(image, sb, i)
  }

  predicate JournalValid(image: seq<Block>, sb: Superblock)
    requires sb.journalStart < |image|
  {
    var b := image[sb.journalStart];
    && HeaderValid(b, sb)
    && CleanAgrees(b, sb)
    && EntriesOk(image, sb, DecodeJournal(b).entryCount)
  }

  /** What a replay is to do: the header block, the after-images, and the header that retires
      the transaction. */
  datatype Plan = Plan(header: nat, writes: seq<Write>, empty: Block)

  function EmptyHeader(txid: nat, generation: nat): Block
  {
    SealJournal(JournalHeader(JOURNAL_MAGIC, VERSION, JOURNAL_HEADER_SIZE, JOURNAL_EMPTY, 0,
                              txid, generation, JOURNAL_DESCRIPTOR_SIZE, 0, 0),
                Zeros(BLOCK_SIZE - JOURNAL_HEADER_SIZE))
  }

  function PlanWith(image: seq<Block>, sb: Superblock): Plan
    requires sb.journalStart < |image| && JournalValid(image, sb)
  {
    var b := image[sb.journalStart];
    Plan(sb.journalStart,
         seq(DecodeJournal(b).entryCount,
             i requires 0 <= i < DecodeJournal(b).entryCount && EntryOk(image, sb, i) =>
               Write(DescriptorAt(b, i).target, image[sb.journalStart + 1 + i])),
         EmptyHeader(DecodeJournal(b).txid, sb.generation))
  }

  predicate ReplayableWith(image: seq<Block>, sb: Superblock)
  {
    && LayoutValid(sb, |image|)
    && JournalValid(image, sb)
    && DecodeJournal(image[sb.journalStart]).state == JOURNAL_COMMITTED
  }

  /** The replay a run with --replay-journal performs, if it performs one. */
  function PlanOf(image: seq<Block>): Option<Plan>
  {
    match Selected(image)
    case None => None
    case Some(sb) => if ReplayableWith(image, sb) then Some(PlanWith(image, sb)) else None
  }

  /** The after-images go to distinct blocks of the image, none of them used by the journal. */
  predicate PlanOk(p: Plan, n: nat)
  {
    && p.header + |p.writes| < n
    && SUPERBLOCK_COPIES <= p.header
    && (forall k :: 0 <= k < |p.writes| ==>
          && p.writes[k].block < n
          && !(p.header <= p.writes[k].block <= p.header + |p.writes|))
    && (forall j, k :: 0 <= j < k < |p.writes| ==> p.writes[j].block != p.writes[k].block)
  }

  lemma PlanOfOk(image: seq<Block>)
    requires PlanOf(image).Some?
    ensures PlanOk(PlanOf(image).value, |image|)
  {
    hide LayoutValid, JournalValid, PlanWith, PlanOk, Selected;
    PlanWithOk(image, Selected(image).value);
  }

  lemma PlanWithOk(image: seq<Block>, sb: Superblock)
    requires ReplayableWith(image, sb)
    ensures PlanOk(PlanWith(image, sb), |image|)
  {
    hide DecodeJournal, JournalChecksum, DescriptorAt, Crc32c, EmptyHeader, AreasFrom;
    var p := PlanWith(image, sb);
    forall k | 0 <= k < |p.writes|
      ensures p.writes[k].block < |image|
      ensures !(p.header <= p.writes[k].block <= p.header + |p.writes|)
      ensures forall j :: 0 <= j < k ==> p.writes[j].block != p.writes[k].block
    {
      assert EntryOk(image, sb, k);
    }
  }

  // ---------- the writes of a replay ----------

  /** The after-images whose target is, or is not, a superblock copy, in order. */
  function Chosen(ws: seq<Write>, supers: bool): seq<Write>
  {
    if ws == [] then []
    else
      var w := ws[|ws| - 1];
      Chosen(ws[..|ws| - 1], supers) + if (w.block < SUPERBLOCK_COPIES) == supers then [w] else []
  }

  /** Ordinary blocks first, made durable; then the superblocks, made durable; then the header. */
  function Stages(p: Plan): (stages: seq<seq<Write>>)
    ensures |stages| == 3
  {
    [Chosen(p.writes, false), Chosen(p.writes, true), [Write(p.header, p.empty)]]
  }

  function Program(p: Plan): seq<Op>
  {
    Staged(Stages(p))
  }

  // ---------- what a replay is meant to achieve ----------

  /** The content block b is to have: its after-image if there is one. */
  function AfterAt(ws: seq<Write>, b: nat, before: Block): Block
  {
    if ws == [] then before
    else if ws[|ws| - 1].block == b then ws[|ws| - 1].data
    else AfterAt(ws[..|ws| - 1], b, before)
  }

  function After(image: seq<Block>, p: Plan): (r: seq<Block>)
    ensures |r| == |image|
    ensures forall b :: 0 <= b < |image| ==> r[b] == AfterAt(p.writes, b, image[b])
  {
    seq(|image|, b requires 0 <= b < |image| => AfterAt(p.writes, b, image[b]))
  }

  predicate EmptyJournal(b: Block)
  {
    && DecodeJournal(b).state == JOURNAL_EMPTY && DecodeJournal(b).entryCount == 0
    && DecodeJournal(b).checksum == JournalChecksum(b)
  }

  /** The journal is empty and every other block is what an uninterrupted replay leaves. */
  predicate Recovered(image: seq<Block>, p: Plan, c: seq<Block>)
    requires p.header < |image|
  {
    && |c| == |image|
    && EmptyJournal(c[p.header])
    && forall b :: 0 <= b < |image| && b != p.header ==> c[b] == After(image, p)[b]
  }

  // ---------- the states a replay passes through ----------

  lemma {:induction false} ChosenMember(ws: seq<Write>, supers: bool, w: Write)
    ensures w in Chosen(ws, supers) <==> w in ws && (w.block < SUPERBLOCK_COPIES) == supers
  {
    if ws != [] {
      ChosenMember(ws[..|ws| - 1], supers, w);
      assert ws == ws[..|ws| - 1] + [ws[|ws| - 1]];
    }
  }

  lemma ChosenInRange(ws: seq<Write>, supers: bool, n: nat)
    requires InRange(n, ws)
    ensures InRange(n, Chosen(ws, supers))
  {
    forall k | 0 <= k < |Chosen(ws, supers)|
      ensures Chosen(ws, supers)[k].block < n
    {
      ChosenMember(ws, supers, Chosen(ws, supers)[k]);
    }
  }

  lemma AppliedLast(image: seq<Block>, ws: seq<Write>, w: Write)
    requires InRange(|image|, ws + [w]) && InRange(|image|, ws) && w.block < |image|
    ensures Apply(image, ws + [w]) == Apply(image, ws)[w.block := w.data]
  {
    assert (ws + [w])[..|ws|] == ws;
  }

  lemma {:induction false} ChosenApplied(image: seq<Block>, ws: seq<Write>, supers: bool, b: nat)
    requires InRange(|image|, ws) && InRange(|image|, Chosen(ws, supers)) && b < |image|
    ensures Apply(image, Chosen(ws, supers))[b]
         == if (b < SUPERBLOCK_COPIES) == supers then AfterAt(ws, b, image[b]) else image[b]
  {
    if ws != [] {
      var ws', w := ws[..|ws| - 1], ws[|ws| - 1];
      ChosenInRange(ws', supers, |image|);
      ChosenApplied(image, ws', supers, b);
      var front := Chosen(ws', supers);
      if (w.block < SUPERBLOCK_COPIES) == supers {
        assert Chosen(ws, supers) == front + [w];
        AppliedLast(image, front, w);
      } else {
        assert Chosen(ws, supers) == front + [] == front;
      }
    }
  }

  lemma {:induction false} MemberAfter(ws: seq<Write>, b: nat, data: Block, before: Block)
    requires forall j, k :: 0 <= j < k < |ws| ==> ws[j].block != ws[k].block
    ensures Write(b, data) in ws ==> AfterAt(ws, b, before) == data
    ensures AfterAt(ws, b, before) == before || Write(b, AfterAt(ws, b, before)) in ws
  {
    if ws != [] {
      MemberAfter(ws[..|ws| - 1], b, data, before);
      assert ws == ws[..|ws| - 1] + [ws[|ws| - 1]];
    }
  }

  lemma StagesOk(p: Plan, n: nat)
    requires PlanOk(p, n)
    ensures StagesInRange(n, Stages(p))
  {
    ChosenInRange(p.writes, false, n);
    ChosenInRange(p.writes, true, n);
  }

  /** The durable image after i of the three stages. */
  lemma StageBase(image: seq<Block>, p: Plan, i: nat, b: nat)
    requires PlanOk(p, |image|) && i <= 3 && b < |image| && StagesInRange(|image|, Stages(p))
    ensures Base(image, Stages(p), i)[b] ==
            if b == p.header then if i == 3 then p.empty else image[b]
            else if i >= 2 || (i == 1 && b >= SUPERBLOCK_COPIES) then After(image, p)[b]
            else image[b]
  {
    var stages := Stages(p);
    var d1 := Base(image, stages, 1);
    assert d1 == Apply(image, stages[0]);
    var d2 := Base(image, stages, 2);
    assert d2 == Apply(d1, stages[1]);
    assert Base(image, stages, 3) == Apply(d2, stages[2]) == d2[p.header := p.empty] by {
      assert stages[2][..0] == [];
    }
    ChosenApplied(image, p.writes, false, b);
    ChosenApplied(d1, p.writes, true, b);
    if b == p.header {
      HeaderNotTarget(image, p, b);
    }
  }

  // ---------- a crash during a replay ----------

  /** Image c mixes blocks of before and after, and still has the journal header. */
  predicate Between(image: seq<Block>, p: Plan, c: seq<Block>)
    requires p.header < |image|
  {
    && |c| == |image|
    && c[p.header] == image[p.header]
    && forall b :: 0 <= b < |c| ==> c[b] == image[b] || c[b] == After(image, p)[b]
  }

  predicate OrdinaryInstalled(image: seq<Block>, p: Plan, c: seq<Block>)
    requires |c| == |image|
  {
    forall b :: SUPERBLOCK_COPIES <= b < |c| && b != p.header ==> c[b] == After(image, p)[b]
  }

  predicate AllInstalled(image: seq<Block>, p: Plan, c: seq<Block>)
    requires |c| == |image|
  {
    forall b :: 0 <= b < |c| && b != p.header ==> c[b] == After(image, p)[b]
  }

  lemma HeaderNotTarget(image: seq<Block>, p: Plan, b: nat)
    requires PlanOk(p, |image|) && p.header <= b <= p.header + |p.writes|
    ensures After(image, p)[b] == image[b]
  {
    MemberAfter(p.writes, b, image[b], image[b]);
  }

  /** What block b may hold after a crash in stage i. */
  predicate LeftAt(image: seq<Block>, p: Plan, i: nat, b: nat, data: Block)
    requires b < |image|
  {
    && (b != p.header ==> data == image[b] || data == After(image, p)[b])
    && (b == p.header ==> data == image[b] || (data == p.empty && i >= 2))
    && (b < SUPERBLOCK_COPIES && data != image[b] ==> i >= 1)
    && (b != p.header && (i >= 2 || (i >= 1 && b >= SUPERBLOCK_COPIES)) ==>
          data == After(image, p)[b])
    && (b == p.header && i == 3 ==> data == p.empty)
  }

  lemma CrashAt(image: seq<Block>, p: Plan, i: nat, j: nat, b: nat, data: Block)
    requires PlanOk(p, |image|) && b < |image|
    requires i <= 3 && if i < 3 then j <= |Stages(p)[i]| else j == 0
    requires StagesInRange(|image|, Stages(p))
    requires SurvivesAt(Disk(Base(image, Stages(p), i), Issued(Stages(p), i, j)), b, data)
    ensures LeftAt(image, p, i, b, data)
  {
    StageBase(image, p, i, b);
    var w := Write(b, data);
    assert i < 3 && w in Stages(p)[i][..j] ==> w in Stages(p)[i];
    ChosenMember(p.writes, false, w);
    ChosenMember(p.writes, true, w);
    hide Base, Chosen, AfterAt;
    MemberAfter(p.writes, b, data, image[b]);
    if b == p.header {
      HeaderNotTarget(image, p, b);
    }
  }

  /** Image c is what a crash may leave of a replay of `image` cut short after some operations. */
  ghost predicate Interrupted(image: seq<Block>, c: seq<Block>)
  {
    && PlanOf(image).Some?
    && exists k: nat :: CutAfter(image, PlanOf(image).value, k, c)
  }

  ghost predicate CutAfter(image: seq<Block>, p: Plan, k: nat, c: seq<Block>)
  {
    && k <= |Program(p)|
    && OpsOk(|image|, Program(p)[..k])
    && Survives(Run(Disk(image, []), Program(p)[..k]), c)
  }

  /** The order of durability: no superblock after-image before every ordinary one, no empty
      header before every after-image; and a replay that is not cut short recovers the image. */
  lemma CrashOrder(image: seq<Block>, p: Plan, k: nat, c: seq<Block>)
    requires PlanOk(p, |image|) && EmptyJournal(p.empty) && CutAfter(image, p, k, c)
    ensures |c| == |image|
    ensures c[0] != image[0] || c[1] != image[1] ==> OrdinaryInstalled(image, p, c)
    ensures c[p.header] != image[p.header] ==> AllInstalled(image, p, c)
    ensures Between(image, p, c) || Recovered(image, p, c)
    ensures k == |Program(p)| ==> Recovered(image, p, c)
  {
    hide After, EmptyJournal, Base, Stages, Staged, Run, LeftAt;
    StagesOk(p, |image|);
    var i, j := StagedPrefix(image, Stages(p), k);
    HeaderNotTarget(image, p, p.header);
    forall b | 0 <= b < |image|
      ensures LeftAt(image, p, i, b, c[b])
    {
      CrashAt(image, p, i, j, b, c[b]);
    }
    LeftOrder(image, p, i, c);
  }

  lemma LeftOrder(image: seq<Block>, p: Plan, i: nat, c: seq<Block>)
    requires |c| == |image| && SUPERBLOCK_COPIES <= p.header < |image| && i <= 3
    requires EmptyJournal(p.empty) && After(image, p)[p.header] == image[p.header]
    requires forall b :: 0 <= b < |c| ==> LeftAt(image, p, i, b, c[b])
    ensures c[0] != image[0] || c[1] != image[1] ==> OrdinaryInstalled(image, p, c)
    ensures c[p.header] != image[p.header] ==> AllInstalled(image, p, c)
    ensures Between(image, p, c) || Recovered(image, p, c)
    ensures i == 3 ==> Recovered(image, p, c)
  {
    hide After, EmptyJournal;
    assert LeftAt(image, p, i, 0, c[0]) && LeftAt(image, p, i, 1, c[1]);
    assert LeftAt(image, p, i, p.header, c[p.header]);
  }

  // ---------- the next run ----------

  /** The two images have the same journal header block and the same redo blocks. */
  predicate SameJournal(a: seq<Block>, b: seq<Block>)
  {
    && |a| == |b| > SUPERBLOCK_COPIES
    && a[2] == b[2]
    && forall i :: 2 < i <= 2 + DecodeJournal(a[2]).entryCount && i < |a| ==> a[i] == b[i]
  }

  lemma JournalAgrees(a: seq<Block>, b: seq<Block>, sb: Superblock)
    requires SameJournal(a, b) && sb.journalStart == 2 && JournalValid(a, sb)
    ensures JournalValid(b, sb) && PlanWith(a, sb) == PlanWith(b, sb)
  {
    hide DecodeJournal, JournalChecksum, EntryValid, DescriptorAt, EmptyHeader;
    forall i | 0 <= i < DecodeJournal(b[2]).entryCount
      ensures EntryOk(b, sb, i) && a[3 + i] == b[3 + i]
    {
      assert EntryOk(a, sb, i);
    }
    assert EntriesOk(b, sb, DecodeJournal(b[2]).entryCount) && JournalValid(b, sb);
    hide EntryOk;
    assert PlanWith(a, sb).writes == PlanWith(b, sb).writes;
  }

  /** A run's plan depends on the superblock copies and the journal alone. */
  lemma PlanAgrees(a: seq<Block>, b: seq<Block>)
    requires SameJournal(a, b) && a[0] == b[0] && a[1] == b[1]
    ensures PlanOf(a) == PlanOf(b)
  {
    hide Newer, DecodeSuper, JournalValid, PlanWith, DecodeJournal, CountsValid, AreasFrom;
    assert Selected(a) == Selected(b);
    if Selected(a).Some? {
      var sb := Selected(a).value;
      hide Selected;
      if ReplayableWith(a, sb) {
        JournalAgrees(a, b, sb);
      } else if ReplayableWith(b, sb) {
        JournalAgrees(b, a, sb);
      }
    }
  }

  /** What PlanOf promises about its plan. */
  lemma PlanFacts(image: seq<Block>)
    requires PlanOf(image).Some?
    ensures var p := PlanOf(image).value;
      && p.header == 2 && 2 + |p.writes| < |image|
      && PlanOk(p, |image|) && EmptyJournal(p.empty)
      && DecodeJournal(image[2]).entryCount == |p.writes|
      && DecodeJournal(image[2]).state == JOURNAL_COMMITTED
  {
    PlanOfOk(image);
    var sb := Selected(image).value;
    DecodedBounds(image, sb);
    EmptyHeaderEmpty(DecodeJournal(image[2]).txid, sb.generation);
    hide Selected, DecodeJournal, PlanOk, EmptyJournal, EmptyHeader, AreasFrom, JournalValid;
  }

  lemma DecodedBounds(image: seq<Block>, sb: Superblock)
    requires Selected(image) == Some(sb) && |image| > 2
    ensures DecodeJournal(image[2]).txid < Pow256(8) && sb.generation < Pow256(8)
  {
    hide DecodeJournal, DecodeSuper, CopyValid, Pow256;
    JournalFits(image[2]);
    SuperFits(image[0]);
    SuperFits(image[1]);
    assert JournalWidths()[5] == 8 && SuperWidths()[7] == 8;
    assert JournalFields(DecodeJournal(image[2]))[5] == DecodeJournal(image[2]).txid;
    assert SuperFields(sb)[7] == sb.generation;
  }

  lemma EmptyHeaderEmpty(txid: nat, generation: nat)
    requires txid < Pow256(8) && generation < Pow256(8)
    ensures EmptyJournal(EmptyHeader(txid, generation))
  {
    var h := JournalHeader(JOURNAL_MAGIC, VERSION, JOURNAL_HEADER_SIZE, JOURNAL_EMPTY, 0,
                           txid, generation, JOURNAL_DESCRIPTOR_SIZE, 0, 0);
    assert Pow256(4) == 0x1_0000_0000;
    assert Pow256(8) == 0x1_0000_0000_0000_0000;
    hide DecodeJournal, JournalChecksum, SealJournal;
    SealedJournal(h, Zeros(BLOCK_SIZE - JOURNAL_HEADER_SIZE));
  }

  /** The superblock copies a crash may leave: each one old, or new if the journal has it. */
  function Mix(image: seq<Block>, p: Plan, new0: bool, new1: bool): (r: seq<Block>)
    requires |image| > SUPERBLOCK_COPIES
    ensures |r| == |image|
  {
    image[0 := if new0 then After(image, p)[0] else image[0]]
         [1 := if new1 then After(image, p)[1] else image[1]]
  }

  /** Under every mixture of old and new superblock copies a run would still replay. */
  predicate MixesReplayable(image: seq<Block>, p: Plan)
    requires |image| > SUPERBLOCK_COPIES
  {
    forall new0: bool, new1: bool :: PlanOf(Mix(image, p, new0, new1)).Some?
  }

  /** The image an uninterrupted replay leaves. */
  function Completed(image: seq<Block>): seq<Block>
    requires PlanOf(image).Some?
  {
    var p := PlanOf(image).value;
    PlanFacts(image);
    StagesOk(p, |image|);
    StagedInRange(|image|, Stages(p));
    Run(Disk(image, []), Program(p)).durable
  }

  /** Runs cut short one after another: each image is left by a crash during a replay of the
      one before it. */
  ghost predicate Crashes(history: seq<seq<Block>>)
  {
    && history != []
    && forall i :: 0 < i < |history| ==> Interrupted(history[i - 1], history[i])
  }

  /** However many runs are cut short, and wherever, the last image has recovered, or one
      uninterrupted replay of it recovers. */
  ghost predicate CrashSafe(image: seq<Block>, p: Plan)
    requires p.header < |image|
  {
    forall history | Crashes(history) && history[0] == image ::
      Settled(image, p, history[|history| - 1])
  }

  predicate Settled(image: seq<Block>, p: Plan, c: seq<Block>)
    requires p.header < |image|
  {
    || Recovered(image, p, c)
    || (PlanOf(c).Some? && Recovered(image, p, Completed(c)))
  }

  // ---------- the theorem ----------

  predicate Planned(image: seq<Block>, p: Plan)
  {
    PlanOf(image) == Some(p) && SUPERBLOCK_COPIES <= p.header < |image|
  }

  /** A crash image that still has the journal: the next run plans the same writes exactly when
      it would on the mixture of superblock copies that the crash left. */
  lemma NextPlan(image: seq<Block>, p: Plan, c: seq<Block>, new0: bool, new1: bool)
    requires Planned(image, p)
    requires Between(image, p, c)
    requires c[0] == Mix(image, p, new0, new1)[0] && c[1] == Mix(image, p, new0, new1)[1]
    ensures PlanOf(c) == PlanOf(Mix(image, p, new0, new1))
    ensures PlanOf(c).Some? ==> PlanOf(c).value.writes == p.writes
  {
    hide PlanOf, PlanOk, After, DecodeJournal, EmptyJournal;
    PlanFacts(image);
    var m := Mix(image, p, new0, new1);
    forall i | 2 < i <= 2 + |p.writes| && i < |c|
      ensures c[i] == image[i] == m[i]
    {
      HeaderNotTarget(image, p, i);
    }
    PlanAgrees(c, m);
    if PlanOf(c).Some? {
      PlanFacts(c);
      SameWrites(image, c);
    }
  }

  lemma SameWrites(a: seq<Block>, b: seq<Block>)
    requires PlanOf(a).Some? && PlanOf(b).Some? && SameJournal(a, b)
    ensures PlanOf(a).value.writes == PlanOf(b).value.writes
  {
    hide PlanOf, DescriptorAt, DecodeJournal;
    PlanWrites(a);
    PlanWrites(b);
    var n := DecodeJournal(a[2]).entryCount;
    var p, q := PlanOf(a).value, PlanOf(b).value;
    forall i | 0 <= i < n
      ensures p.writes[i] == q.writes[i]
    {
      assert a[3 + i] == b[3 + i];
    }
  }

  lemma PlanWrites(a: seq<Block>)
    requires PlanOf(a).Some?
    ensures var ws := PlanOf(a).value.writes;
      && |ws| == DecodeJournal(a[2]).entryCount <= JOURNAL_MAX_ENTRIES && 2 + |ws| < |a|
      && forall i :: 0 <= i < |ws| ==> ws[i] == Write(DescriptorAt(a[2], i).target, a[3 + i])
  {
    hide Selected, DecodeJournal, JournalChecksum, EntryValid, DescriptorAt, EmptyHeader;
    hide AreasFrom;
    var sb := Selected(a).value;
    assert ReplayableWith(a, sb) && sb.journalStart == 2;
    assert EntryOk(a, sb, DecodeJournal(a[2]).entryCount - 1);
  }

  lemma {:induction false} AfterTwice(ws: seq<Write>, b: nat, before: Block)
    ensures AfterAt(ws, b, AfterAt(ws, b, before)) == AfterAt(ws, b, before)
  {
    if ws != [] {
      AfterTwice(ws[..|ws| - 1], b, before);
    }
  }

  lemma SameAfter(image: seq<Block>, p: Plan, c: seq<Block>, q: Plan)
    requires p.header < |image| && Between(image, p, c) && q.writes == p.writes
    ensures After(c, q) == After(image, p)
  {
    forall b | 0 <= b < |c|
      ensures After(c, q)[b] == After(image, p)[b]
    {
      AfterTwice(p.writes, b, image[b]);
    }
  }

  /** The plan of a run on an image that is between before and after. */
  lemma SamePlan(image: seq<Block>, p: Plan, a: seq<Block>)
    requires Planned(image, p)
    requires Between(image, p, a) && PlanOf(a).Some?
    ensures PlanOf(a).value.header == p.header && After(a, PlanOf(a).value) == After(image, p)
  {
    hide PlanOf, PlanOk, After, DecodeJournal, EmptyJournal;
    PlanFacts(image);
    PlanFacts(a);
    var new0, new1 := a[0] != image[0], a[1] != image[1];
    NextPlan(image, p, a, new0, new1);
    SameAfter(image, p, a, PlanOf(a).value);
  }

  lemma CrashAgain(image: seq<Block>, p: Plan, a: seq<Block>, c: seq<Block>)
    requires Planned(image, p)
    requires Recovered(image, p, a) || Between(image, p, a)
    requires Interrupted(a, c)
    ensures Recovered(image, p, c) || Between(image, p, c)
  {
    PlanFacts(image);
    PlanFacts(a);
    assert Between(image, p, a);
    var q := PlanOf(a).value;
    SamePlan(image, p, a);
    var k :| CutAfter(a, q, k, c);
    hide PlanOf, After;
    CrashOrder(a, q, k, c);
  }

  lemma {:induction false} StillBetween(image: seq<Block>, p: Plan, history: seq<seq<Block>>)
    requires Planned(image, p)
    requires MixesReplayable(image, p) && Crashes(history) && history[0] == image
    ensures Recovered(image, p, history[|history| - 1])
         || Between(image, p, history[|history| - 1])
    decreases |history|
  {
    hide PlanOf, Interrupted, Recovered, MixesReplayable;
    if |history| > 1 {
      var a, c := history[|history| - 2], history[|history| - 1];
      assert Crashes(history[..|history| - 1]);
      StillBetween(image, p, history[..|history| - 1]);
      assert Interrupted(a, c);
      CrashAgain(image, p, a, c);
    }
  }

  /** An uninterrupted replay recovers the image. */
  lemma ReplayRecovers(image: seq<Block>, p: Plan)
    requires Planned(image, p)
    ensures Recovered(image, p, Completed(image))
  {
    hide PlanOf, PlanOk, After, DecodeJournal, EmptyJournal, Stages;
    PlanFacts(image);
    StagesOk(p, |image|);
    StagedInRange(|image|, Stages(p));
    var k := |Program(p)|;
    assert Program(p)[..k] == Program(p);
    var c := Completed(image);
    var i, j := StagedPrefix(image, Stages(p), k);
    assert CutAfter(image, p, k, c);
    CrashOrder(image, p, k, c);
  }

  /** Replay survives every sequence of crashes exactly when every mixture of old and new
      superblock copies still lets a run replay. */
  lemma CrashSafeMixes(image: seq<Block>, p: Plan)
    requires Planned(image, p)
    ensures CrashSafe(image, p) <==> MixesReplayable(image, p)
  {
    hide PlanOf, PlanOk, After, DecodeJournal, Mix, Completed, Interrupted, Between;
    if MixesReplayable(image, p) {
      forall history | Crashes(history) && history[0] == image
        ensures Settled(image, p, history[|history| - 1])
      {
        StillBetween(image, p, history);
        SettledIfBetween(image, p, history[|history| - 1]);
      }
    } else {
      var new0, new1 :| PlanOf(Mix(image, p, new0, new1)).None?;
      var c := WorstCrash(image, p, new0, new1);
      NextPlan(image, p, c, new0, new1);
      var history := [image, c];
      assert Crashes(history);
      assert !Settled(image, p, history[1]);
    }
  }

  lemma SettledIfBetween(image: seq<Block>, p: Plan, c: seq<Block>)
    requires Planned(image, p)
    requires MixesReplayable(image, p)
    requires Recovered(image, p, c) || Between(image, p, c)
    ensures Settled(image, p, c)
  {
    hide PlanOf, PlanOk, After, DecodeJournal, EmptyJournal, Completed;
    if Between(image, p, c) {
      PlanFacts(image);
      var new0, new1 := c[0] != image[0], c[1] != image[1];
      NextPlan(image, p, c, new0, new1);
      SamePlan(image, p, c);
      PlanFacts(c);
      ReplayRecovers(c, PlanOf(c).value);
    }
  }

  /** A crash after the superblock writes were issued can leave any mixture of them. */
  lemma WorstCrash(image: seq<Block>, p: Plan, new0: bool, new1: bool) returns (c: seq<Block>)
    requires Planned(image, p)
    ensures Interrupted(image, c) && Between(image, p, c) && !EmptyJournal(c[p.header])
    ensures c[0] == Mix(image, p, new0, new1)[0] && c[1] == Mix(image, p, new0, new1)[1]
  {
    hide PlanOf, PlanOk, After, AfterAt, DecodeJournal, Stages, Base, Run;
    PlanFacts(image);
    StagesOk(p, |image|);
    var stages := Stages(p);
    var d1 := Base(image, stages, 1);
    var m := Mix(image, p, new0, new1);
    c := d1[0 := m[0]][1 := m[1]];
    var k := SecondStageIssued(image, stages);
    forall b | 0 <= b < |c|
      ensures SurvivesAt(Disk(d1, stages[1]), b, c[b])
      ensures c[b] == image[b] || c[b] == After(image, p)[b]
      ensures b == p.header ==> c[b] == image[b]
    {
      StageBase(image, p, 1, b);
      if b < SUPERBLOCK_COPIES {
        SuperWritten(image, p, b);
      }
    }
    assert CutAfter(image, p, k, c);
  }

  lemma SuperWritten(image: seq<Block>, p: Plan, b: nat)
    requires PlanOk(p, |image|) && b < SUPERBLOCK_COPIES
    ensures After(image, p)[b] == image[b] || Write(b, After(image, p)[b]) in Stages(p)[1]
  {
    MemberAfter(p.writes, b, image[b], image[b]);
    ChosenMember(p.writes, true, Write(b, After(image, p)[b]));
  }

  // ---------- the condition, on the superblock copies ----------

  /** A superblock under which a run accepts these after-images: a valid layout, marked DIRTY, room
      for the entries, and no target outside the filesystem or inside the journal. */
  predicate Suits(s: Superblock, n: nat, writes: seq<Write>)
  {
    && LayoutValid(s, n) && s.state == STATE_DIRTY && |writes| <= s.journalEntries
    && forall k :: 0 <= k < |writes| ==> writes[k].block < s.totalBlocks && !InJournal(s, writes[k].block)
  }

  /** The copy selected among these two suits. */
  predicate SelectedSuits(s0: Superblock, s1: Superblock, n: nat, writes: seq<Write>)
  {
    Newer(s0, s1).Some? && Suits(Newer(s0, s1).value, n, writes)
  }

  /** Whichever of the copies a crash has replaced, the one then selected suits. */
  predicate CopiesSuit(image: seq<Block>, p: Plan)
    requires |image| > SUPERBLOCK_COPIES
  {
    var old0, old1 := DecodeSuper(image[0]), DecodeSuper(image[1]);
    var new0, new1 := DecodeSuper(After(image, p)[0]), DecodeSuper(After(image, p)[1]);
    && SelectedSuits(new0, old1, |image|, p.writes)
    && SelectedSuits(old0, new1, |image|, p.writes)
    && SelectedSuits(new0, new1, |image|, p.writes)
  }

  lemma SuitsEntry(b: Block, sb: Superblock, s: Superblock, i: nat, redo: Block)
    requires i < JOURNAL_MAX_ENTRIES && EntryValid(b, sb, i, redo)
    ensures EntryValid(b, s, i, redo) <==>
      DescriptorAt(b, i).target < s.totalBlocks && !InJournal(s, DescriptorAt(b, i).target)
  {
    hide DescriptorAt, Crc32c;
  }

  /** A journal that is replayed under one superblock is replayed under another exactly when that
      one suits its after-images. */
  lemma ReplayableAgain(image: seq<Block>, sb: Superblock, m: seq<Block>, s: Superblock)
    requires ReplayableWith(image, sb) && SameJournal(image, m)
    ensures ReplayableWith(m, s) <==> Suits(s, |image|, PlanWith(image, sb).writes)
  {
    hide DecodeJournal, JournalChecksum, EntryValid, DescriptorAt, EmptyHeader, AreasFrom;
    JournalAgrees(image, m, sb);
    var writes := PlanWith(image, sb).writes;
    if LayoutValid(s, |image|) {
      forall i | 0 <= i < DecodeJournal(m[2]).entryCount
        ensures EntryOk(m, s, i) <==> writes[i].block < s.totalBlocks && !InJournal(s, writes[i].block)
      {
        assert EntryOk(m, sb, i);
        SuitsEntry(m[2], sb, s, i, m[3 + i]);
      }
    }
  }

  lemma MixSuits(image: seq<Block>, p: Plan, new0: bool, new1: bool)
    requires Planned(image, p)
    ensures var m := Mix(image, p, new0, new1);
      PlanOf(m).Some? <==> SelectedSuits(DecodeSuper(m[0]), DecodeSuper(m[1]), |image|, p.writes)
  {
    hide DecodeSuper, DecodeJournal, Newer, ReplayableWith, PlanWith, PlanOk, After, EmptyJournal, Suits;
    PlanFacts(image);
    var m, sb := Mix(image, p, new0, new1), Selected(image).value;
    if Newer(DecodeSuper(m[0]), DecodeSuper(m[1])).Some? {
      ReplayableAgain(image, sb, m, Newer(DecodeSuper(m[0]), DecodeSuper(m[1])).value);
    }
  }

  /** Replay survives every sequence of crashes exactly when, of each pair of superblock copies a
      crash may leave, the newer valid one is a DIRTY superblock whose layout takes the after-images. */
  lemma CrashSafeExactly(image: seq<Block>, p: Plan)
    requires Planned(image, p)
    ensures CrashSafe(image, p) <==> CopiesSuit(image, p)
  {
    hide DecodeSuper, PlanOf, CrashSafe, SelectedSuits, After, Mix;
    CrashSafeMixes(image, p);
    MixesFour(image, p);
    MixSuits(image, p, true, false);
    MixSuits(image, p, false, true);
    MixSuits(image, p, true, true);
    MixCopies(image, p);
  }

  lemma MixesFour(image: seq<Block>, p: Plan)
    requires Planned(image, p)
    ensures MixesReplayable(image, p) <==>
      && PlanOf(Mix(image, p, true, false)).Some? && PlanOf(Mix(image, p, false, true)).Some?
      && PlanOf(Mix(image, p, true, true)).Some?
  {
    hide PlanOf, Mix;
    MixNothing(image, p);
  }

  lemma MixNothing(image: seq<Block>, p: Plan)
    requires |image| > SUPERBLOCK_COPIES
    ensures Mix(image, p, false, false) == image
  {
    hide After;
  }

  lemma MixCopies(image: seq<Block>, p: Plan)
    requires |image| > SUPERBLOCK_COPIES
    ensures Mix(image, p, true, false)[..2] == [After(image, p)[0], image[1]]
    ensures Mix(image, p, false, true)[..2] == [image[0], After(image, p)[1]]
    ensures Mix(image, p, true, true)[..2] == [After(image, p)[0], After(image, p)[1]]
    ensures forall new0: bool, new1: bool :: var m := Mix(image, p, new0, new1); m[0] == m[..2][0] && m[1] == m[..2][1]
  {
  }
}
