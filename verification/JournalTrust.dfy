/** What a replay relies on and what it leaves, in terms of the blocks of the image: every checksum
    that vouches for the transaction, and the content of every block afterwards
    (tools/fsck_northstar.c, validate_and_maybe_replay_journal). */
module JournalTrust {
  import opened OnDisk
  import opened HostImage
  import opened Superblocks
  import opened Journal
  import opened Checksums

  /** The journal header is whole and announces a committed transaction. */
  predicate HeaderVouched(b: Block, sb: Superblock)
  {
    var h := DecodeJournal(b);
    && ChecksumAt(b, JOURNAL_CHECKSUM)
    && h.magic == JOURNAL_MAGIC && h.version == 1 && h.headerSize == 64 && h.descriptorSize == 16
    && h.state == JOURNAL_COMMITTED && h.txid != 0
    && 0 < h.entryCount <= 128 && h.entryCount <= sb.journalEntries
  }

  /** Every after-image has the checksum its descriptor gives, and goes to a block of its own, inside
      the filesystem and outside the journal. */
  predicate EntriesVouched(image: seq<Block>, sb: Superblock, n: nat)
    requires n <= 128 && sb.journalStart + n < |image|
  {
    var b := image[sb.journalStart];
    && (forall i :: 0 <= i < n ==> Crc32c(image[sb.journalStart + 1 + i]) == DescriptorAt(b, i).dataChecksum)
    && (forall i :: 0 <= i < n ==> DescriptorAt(b, i).flags == 0 && DescriptorAt(b, i).target < sb.totalBlocks)
    && (forall i :: 0 <= i < n ==>
          !(sb.journalStart <= DescriptorAt(b, i).target < sb.journalStart + sb.journalBlocks))
    && (forall i, j :: 0 <= i < j < n ==> DescriptorAt(b, i).target != DescriptorAt(b, j).target)
  }

  /** A whole, committed transaction of a filesystem that was not closed. */
  predicate Vouched(image: seq<Block>, sb: Superblock)
  {
    && sb.state != STATE_CLEAN && sb.journalStart < |image| && HeaderVouched(image[sb.journalStart], sb)
    && var n := DecodeJournal(image[sb.journalStart]).entryCount;
    && sb.journalStart + n < |image| && EntriesVouched(image, sb, n)
  }

  lemma EntriesMean(image: seq<Block>, sb: Superblock, n: nat)
    requires n <= JOURNAL_MAX_ENTRIES && sb.journalStart + n < |image|
    ensures EntriesOk(image, sb, n) <==> EntriesVouched(image, sb, n)
  {
    hide DescriptorAt, Crc32c;
    var b := image[sb.journalStart];
    if EntriesOk(image, sb, n) {
      forall i | 0 <= i < n
        ensures Crc32c(image[sb.journalStart + 1 + i]) == DescriptorAt(b, i).dataChecksum
        ensures DescriptorAt(b, i).flags == 0 && DescriptorAt(b, i).target < sb.totalBlocks
        ensures !(sb.journalStart <= DescriptorAt(b, i).target < sb.journalStart + sb.journalBlocks)
        ensures forall p :: 0 <= p < i ==> DescriptorAt(b, p).target != DescriptorAt(b, i).target
      {
        assert EntryOk(image, sb, i);
      }
    }
    if EntriesVouched(image, sb, n) {
      forall i | 0 <= i < n
        ensures EntryOk(image, sb, i)
      {
        assert Crc32c(image[sb.journalStart + 1 + i]) == DescriptorAt(b, i).dataChecksum;
      }
    }
  }

  lemma EntriesInside(image: seq<Block>, sb: Superblock, n: nat)
    requires 0 < n <= JOURNAL_MAX_ENTRIES && sb.journalStart < |image| && EntriesOk(image, sb, n)
    ensures sb.journalStart + n < |image|
  {
    hide DescriptorAt, Crc32c;
    assert EntryOk(image, sb, n - 1);
  }

  /** A run replays exactly the transactions that are vouched for. */
  lemma ReplayableExactly(image: seq<Block>, sb: Superblock)
    ensures ReplayableWith(image, sb) <==> LayoutValid(sb, |image|) && Vouched(image, sb)
  {
    hide DecodeJournal, JournalChecksum, EntriesOk, EntriesVouched, ChecksumAt, AreasFrom;
    if LayoutValid(sb, |image|) {
      var b := image[sb.journalStart];
      JournalChecked(b);
      var n := DecodeJournal(b).entryCount;
      if 0 < n <= JOURNAL_MAX_ENTRIES {
        if EntriesOk(image, sb, n) { EntriesInside(image, sb, n); }
        if sb.journalStart + n < |image| { EntriesMean(image, sb, n); }
      }
    }
  }

  predicate Inside(image: seq<Block>, sb: Superblock)
  {
    && sb.journalStart < |image|
    && DecodeJournal(image[sb.journalStart]).entryCount <= 128
    && sb.journalStart + DecodeJournal(image[sb.journalStart]).entryCount < |image|
  }

  lemma VouchedInside(image: seq<Block>, sb: Superblock)
    requires Vouched(image, sb)
    ensures Inside(image, sb)
  {
    hide DecodeJournal, ChecksumAt, EntriesVouched;
  }

  /** No descriptor names the block. */
  predicate Untargeted(image: seq<Block>, sb: Superblock, k: nat)
    requires Inside(image, sb)
  {
    var b := image[sb.journalStart];
    forall i :: 0 <= i < DecodeJournal(b).entryCount ==> DescriptorAt(b, i).target != k
  }

  /** What a replay leaves: every after-image in its place, an empty journal, and all else as it was. */
  predicate Installed(image: seq<Block>, sb: Superblock, after: seq<Block>)
    requires Inside(image, sb)
  {
    var b := image[sb.journalStart];
    && |after| == |image|
    && (forall i :: 0 <= i < DecodeJournal(b).entryCount && DescriptorAt(b, i).target < |image| ==>
          after[DescriptorAt(b, i).target] == image[sb.journalStart + 1 + i])
    && (forall k :: 0 <= k < |image| && k != sb.journalStart && Untargeted(image, sb, k) ==> after[k] == image[k])
    && DecodeJournal(after[sb.journalStart]).state == JOURNAL_EMPTY
    && DecodeJournal(after[sb.journalStart]).entryCount == 0
    && ChecksumAt(after[sb.journalStart], JOURNAL_CHECKSUM)
  }

  /** The writes of the plan are those the descriptors announce. */
  predicate Announced(image: seq<Block>, sb: Superblock, p: Plan)
    requires Inside(image, sb)
  {
    var b := image[sb.journalStart];
    && |p.writes| == DecodeJournal(b).entryCount && p.header == sb.journalStart
    && forall i :: 0 <= i < |p.writes| ==>
         p.writes[i] == Write(DescriptorAt(b, i).target, image[sb.journalStart + 1 + i])
  }

  lemma PlanAnnounced(image: seq<Block>, sb: Superblock)
    requires ReplayableWith(image, sb) && Inside(image, sb)
    ensures Announced(image, sb, PlanWith(image, sb))
  {
    hide DecodeJournal, DescriptorAt, JournalChecksum, Crc32c, EmptyHeader, LayoutValid, HeaderValid, CleanAgrees;
    var n := DecodeJournal(image[sb.journalStart]).entryCount;
    forall i | 0 <= i < n
      ensures EntryOk(image, sb, i)
    {
    }
  }

  /** The content of a block after the writes of the plan. */
  lemma BlockAfter(image: seq<Block>, p: Plan, b: nat, i: nat)
    requires PlanOk(p, |image|) && b < |image|
    ensures i < |p.writes| && p.writes[i].block == b ==> AfterAt(p.writes, b, image[b]) == p.writes[i].data
    ensures (forall k :: 0 <= k < |p.writes| ==> p.writes[k].block != b) ==> AfterAt(p.writes, b, image[b]) == image[b]
  {
    hide AfterAt;
    var data := if i < |p.writes| then p.writes[i].data else image[b];
    if i < |p.writes| && p.writes[i].block == b { assert p.writes[i] == Write(b, data); }
    MemberAfter(p.writes, b, data, image[b]);
  }

  lemma RecoveredInstalled(image: seq<Block>, sb: Superblock, p: Plan, after: seq<Block>)
    requires Inside(image, sb) && Announced(image, sb, p) && PlanOk(p, |image|) && Recovered(image, p, after)
    ensures Installed(image, sb, after)
  {
    hide DecodeJournal, DescriptorAt, AfterAt, JournalChecksum, ChecksumAt;
    var b := image[sb.journalStart];
    JournalChecked(after[sb.journalStart]);
    forall i | 0 <= i < |p.writes| && DescriptorAt(b, i).target < |image|
      ensures after[DescriptorAt(b, i).target] == image[sb.journalStart + 1 + i]
    {
      BlockAfter(image, p, p.writes[i].block, i);
    }
    forall k | 0 <= k < |image| && k != sb.journalStart && Untargeted(image, sb, k)
      ensures after[k] == image[k]
    {
      BlockAfter(image, p, k, 0);
    }
  }

  /** The image asks for a replay: the superblock in use has a valid layout, and its journal is vouched
      for. */
  predicate Replays(image: seq<Block>)
  {
    && Selected(image).Some?
    && LayoutValid(Selected(image).value, |image|) && Vouched(image, Selected(image).value)
  }

  /** After a replay of such an image. */
  predicate Replayed(image: seq<Block>, after: seq<Block>)
  {
    && Selected(image).Some? && Inside(image, Selected(image).value)
    && Installed(image, Selected(image).value, after)
  }

  lemma PlansExactly(image: seq<Block>)
    ensures PlanOf(image).Some? <==> Replays(image)
  {
    hide Vouched, LayoutValid, JournalValid, PlanWith, Selected;
    if Selected(image).Some? { ReplayableExactly(image, Selected(image).value); }
  }

  /** A run that replays was vouched for, and installs the transaction. */
  lemma ReplayInstalls(image: seq<Block>)
    requires PlanOf(image).Some?
    ensures Replayed(image, Completed(image))
  {
    hide Vouched, Inside, LayoutValid, JournalValid, PlanWith, Selected, Installed, Recovered, Completed, Announced;
    var s := Selected(image).value;
    ReplayableExactly(image, s);
    VouchedInside(image, s);
    PlanOfOk(image);
    PlanAnnounced(image, s);
    ReplayRecovers(image, PlanOf(image).value);
    RecoveredInstalled(image, s, PlanOf(image).value, Completed(image));
  }
}
