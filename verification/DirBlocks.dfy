/** Directory blocks as mkfs.northstar writes them (tools/mkfs_northstar.c, put_dirent and
    finish_directory_block): records back to back, the last one stretched to the end, and read
    back the same. */
module DirBlocks {
  import opened Bytes
  import opened OnDisk
  import opened Inodes
  import opened Directories
  import opened SourceTree

  /** A record of the given length: header, name, zero bytes. */
  function EncodeRecord(r: Record, length: nat): (b: seq<byte>)
    requires DIRENT_HEADER_SIZE + |r.name| <= length
    ensures |b| == length
  {
    EncodeDirent(Dirent(r.inode, length, |r.name|, r.kind)) + r.name + Zeros(length - DIRENT_HEADER_SIZE - |r.name|)
  }

  /** The records back to back, each as short as it can be. */
  function Packed(rs: seq<Record>): (b: seq<byte>)
    ensures |b| == Used(rs)
  {
    if rs == [] then [] else Packed(rs[..|rs| - 1]) + EncodeRecord(rs[|rs| - 1], Need(rs[|rs| - 1]))
  }

  /** The block while it is being filled. */
  function Filling(rs: seq<Record>): (b: Block)
    requires Used(rs) <= BLOCK_SIZE
  {
    Packed(rs) + Zeros(BLOCK_SIZE - Used(rs))
  }

  /** The block when it is written. */
  function Finished(rs: seq<Record>): (b: Block)
    requires rs != [] && Used(rs) <= BLOCK_SIZE
  {
    var n := |rs| - 1;
    Packed(rs[..n]) + EncodeRecord(rs[n], BLOCK_SIZE - Used(rs[..n]))
  }

  predicate Storable(r: Record)
  {
    r.inode <= UINT32_MAX && r.kind < 0x100 && |r.name| <= NAME_MAX
  }

  predicate AllStorable(rs: seq<Record>)
  {
    forall k :: 0 <= k < |rs| ==> Storable(rs[k])
  }

  // ---------- the source's updates of the buffer ----------

  function Splice(b: Block, offset: nat, bytes: seq<byte>): (r: Block)
    requires offset + |bytes| <= BLOCK_SIZE
  {
    b[..offset] + bytes + b[offset + |bytes|..]
  }

  lemma SpliceMiddle(b: Block, front: seq<byte>, middle: seq<byte>, rest: seq<byte>, bytes: seq<byte>)
    requires b == front + middle + rest && |middle| == |bytes|
    ensures Splice(b, |front|, bytes) == front + bytes + rest
  {
    assert b[..|front|] == front;
    assert b[|front| + |bytes|..] == rest;
  }

  lemma ZerosJoin(m: nat, n: nat)
    ensures Zeros(m + n) == Zeros(m) + Zeros(n)
  {
  }

  lemma Regroup(a: seq<byte>, b: seq<byte>, c: seq<byte>, d: seq<byte>, e: seq<byte>)
    ensures a + b + c + (d + e) == a + (b + c + d) + e
  {
  }

  lemma Joined(a: seq<byte>, b: seq<byte>, c: seq<byte>)
    ensures a + (b + c) == a + b + c
  {
  }

  /** put_dirent: header and name are copied into the buffer, which is zero from there on. */
  lemma PutDirent(rs: seq<Record>, r: Record)
    requires Used(rs) + Need(r) <= BLOCK_SIZE
    ensures Used(rs + [r]) == Used(rs) + Need(r)
    ensures Splice(Splice(Filling(rs), Used(rs), EncodeDirent(Dirent(r.inode, Need(r), |r.name|, r.kind))),
                   Used(rs) + DIRENT_HEADER_SIZE, r.name)
         == Filling(rs + [r])
  {
    hide EncodeDirent, DirentMin, Splice, Zeros;
    var more := rs + [r];
    assert more[..|more| - 1] == rs && more[|more| - 1] == r;
    assert Packed(more) == Packed(rs) + EncodeRecord(r, Need(r));
    hide Packed, Used;
    var header := EncodeDirent(Dirent(r.inode, Need(r), |r.name|, r.kind));
    var pad, left := Need(r) - DIRENT_HEADER_SIZE - |r.name|, BLOCK_SIZE - Used(rs) - Need(r);
    ZerosJoin(pad, left);
    ZerosJoin(|r.name|, pad + left);
    ZerosJoin(DIRENT_HEADER_SIZE, |r.name| + (pad + left));
    Joined(Packed(rs), Zeros(DIRENT_HEADER_SIZE), Zeros(|r.name| + (pad + left)));
    SpliceMiddle(Filling(rs), Packed(rs), Zeros(DIRENT_HEADER_SIZE), Zeros(|r.name| + (pad + left)), header);
    var one := Splice(Filling(rs), Used(rs), header);
    Joined(Packed(rs) + header, Zeros(|r.name|), Zeros(pad + left));
    SpliceMiddle(one, Packed(rs) + header, Zeros(|r.name|), Zeros(pad + left), r.name);
    Regroup(Packed(rs), header, r.name, Zeros(pad), Zeros(left));
  }

  /** finish_directory_block: rewriting the length of the last record stretches it to the end. */
  lemma FinishBlock(rs: seq<Record>)
    requires rs != [] && Used(rs) <= BLOCK_SIZE
    ensures var n := |rs| - 1; var r := rs[n]; var previous := Used(rs[..n]);
      previous + DIRENT_HEADER_SIZE <= BLOCK_SIZE &&
      Splice(Filling(rs), previous, EncodeDirent(Dirent(r.inode, BLOCK_SIZE - previous, |r.name|, r.kind)))
      == Finished(rs)
  {
    hide EncodeDirent, DirentMin, Splice, Zeros;
    var n := |rs| - 1;
    var r, previous := rs[n], Used(rs[..n]);
    var front := Packed(rs[..n]);
    assert Packed(rs) == front + EncodeRecord(r, Need(r));
    assert Used(rs) == previous + Need(r);
    hide Packed, Used;
    var header := EncodeDirent(Dirent(r.inode, Need(r), |r.name|, r.kind));
    var header' := EncodeDirent(Dirent(r.inode, BLOCK_SIZE - previous, |r.name|, r.kind));
    var pad, left := Need(r) - DIRENT_HEADER_SIZE - |r.name|, BLOCK_SIZE - Used(rs);
    ZerosJoin(pad, left);
    Regroup(front, header, r.name, Zeros(pad), Zeros(left));
    Joined(front + header, r.name, Zeros(pad) + Zeros(left));
    SpliceMiddle(Filling(rs), front, header, r.name + Zeros(pad + left), header');
    Joined(front + header', r.name, Zeros(pad + left));
    Joined(front, header' + r.name, Zeros(pad + left));
    Joined(front, header', r.name);
  }

  /** The header finish_directory_block reads back from the buffer. */
  lemma LastHeader(rs: seq<Record>)
    requires rs != [] && Used(rs) <= BLOCK_SIZE && Storable(rs[|rs| - 1])
    ensures var n := |rs| - 1; var r := rs[n];
      && Used(rs[..n]) + DIRENT_HEADER_SIZE <= BLOCK_SIZE
      && DirentAt(Filling(rs), Used(rs[..n])) == Dirent(r.inode, Need(r), |r.name|, r.kind)
  {
    hide EncodeDirent, DirentAt, Zeros;
    var n := |rs| - 1;
    var r := rs[n];
    var front := Packed(rs[..n]);
    assert Packed(rs) == front + EncodeRecord(r, Need(r));
    assert Used(rs) == Used(rs[..n]) + Need(r);
    hide Packed, Used;
    var d := Dirent(r.inode, Need(r), |r.name|, r.kind);
    var pad, left := Zeros(Need(r) - DIRENT_HEADER_SIZE - |r.name|), Zeros(BLOCK_SIZE - Used(rs));
    Regroup(front, EncodeDirent(d), r.name, pad, left);
    Joined(front + EncodeDirent(d), r.name, pad + left);
    NeedBound(r);
    DirentRoundTrip(d, front, r.name + (pad + left));
  }

  // ---------- reading a finished block ----------

  /** A record encoded at an offset is found there. */
  lemma RecordFound(b: Block, before: seq<byte>, r: Record, length: nat, after: seq<byte>)
    requires Storable(r) && Need(r) <= length < 0x1_0000 && length % 4 == 0
    requires b == before + EncodeRecord(r, length) + after
    ensures |before| + length <= BLOCK_SIZE && RecordFits(b, |before|, BLOCK_SIZE)
    ensures RecordAt(b, |before|, BLOCK_SIZE) == r && NextOffset(b, |before|, BLOCK_SIZE) == |before| + length
  {
    hide EncodeDirent, DirentAt;
    var d := Dirent(r.inode, length, |r.name|, r.kind);
    var pad := Zeros(length - DIRENT_HEADER_SIZE - |r.name|);
    assert b == before + EncodeDirent(d) + (r.name + pad + after);
    DirentRoundTrip(d, before, r.name + pad + after);
    var at := |before| + DIRENT_HEADER_SIZE;
    assert b[at..at + |r.name|] == r.name;
  }

  lemma {:induction false} UsedSplit(rs: seq<Record>, k: nat)
    requires k < |rs|
    ensures Used(rs[..k + 1]) == Used(rs[..k]) + Need(rs[k])
    ensures Used(rs[..k]) % 4 == 0
  {
    assert rs[..k + 1][..k] == rs[..k];
    if k > 0 { UsedSplit(rs, k - 1); }
  }

  /** The records after record k, back to back. */
  function PackedAfter(rs: seq<Record>, k: nat): seq<byte>
    requires k <= |rs|
    decreases |rs|
  {
    if k == |rs| then [] else PackedAfter(rs[..|rs| - 1], k) + EncodeRecord(rs[|rs| - 1], Need(rs[|rs| - 1]))
  }

  lemma {:induction false} PackedSplit(rs: seq<Record>, k: nat)
    requires k < |rs|
    ensures Packed(rs) == Packed(rs[..k]) + EncodeRecord(rs[k], Need(rs[k])) + PackedAfter(rs, k + 1)
    decreases |rs|
  {
    hide EncodeRecord;
    var n := |rs| - 1;
    if k < n {
      var front := rs[..n];
      PackedSplit(front, k);
      assert front[..k] == rs[..k];
      Joined(Packed(rs[..k]) + EncodeRecord(rs[k], Need(rs[k])), PackedAfter(front, k + 1),
             EncodeRecord(rs[n], Need(rs[n])));
    }
  }

  /** A finished block around its record k. */
  lemma FinishedSplit(rs: seq<Record>, k: nat) returns (after: seq<byte>)
    requires rs != [] && Used(rs) <= BLOCK_SIZE && k < |rs| - 1
    ensures Finished(rs) == Packed(rs[..k]) + EncodeRecord(rs[k], Need(rs[k])) + after
  {
    hide EncodeRecord;
    var n := |rs| - 1;
    var front := rs[..n];
    PackedSplit(front, k);
    assert front[..k] == rs[..k];
    hide Packed, PackedAfter;
    var last := EncodeRecord(rs[n], BLOCK_SIZE - Used(front));
    after := PackedAfter(front, k + 1) + last;
    Joined(Packed(rs[..k]) + EncodeRecord(rs[k], Need(rs[k])), PackedAfter(front, k + 1), last);
  }

  /** From record k on, a finished block holds the records from k on. */
  lemma {:induction false} FinishedFrom(rs: seq<Record>, k: nat)
    requires rs != [] && Used(rs) <= BLOCK_SIZE && AllStorable(rs) && k < |rs|
    ensures Used(rs[..k]) <= BLOCK_SIZE
    ensures Tiles(Finished(rs), Used(rs[..k]), BLOCK_SIZE)
    ensures Records(Finished(rs), Used(rs[..k]), BLOCK_SIZE) == rs[k..]
    decreases |rs| - k
  {
    hide EncodeRecord, Packed, RecordFits, RecordAt, NextOffset, Used, Need, Finished;
    var n := |rs| - 1;
    var b := Finished(rs);
    UsedSplit(rs, k);
    if k == n {
      LastRecord(rs);
      RecordFound(b, Packed(rs[..n]), rs[n], BLOCK_SIZE - Used(rs[..n]), []);
      assert rs[k..] == [rs[n]];
    } else {
      var after := FinishedSplit(rs, k);
      NeedBound(rs[k]);
      RecordFound(b, Packed(rs[..k]), rs[k], Need(rs[k]), after);
      FinishedFrom(rs, k + 1);
      assert rs[k..] == [rs[k]] + rs[k + 1..];
    }
  }

  lemma NeedBound(r: Record)
    requires Storable(r)
    ensures DIRENT_HEADER_SIZE + |r.name| <= Need(r) < 0x1_0000 && Need(r) % 4 == 0
  {
  }

  lemma LastRecord(rs: seq<Record>)
    requires rs != [] && Used(rs) <= BLOCK_SIZE
    ensures var n := |rs| - 1; var length := BLOCK_SIZE - Used(rs[..n]);
      && Need(rs[n]) <= length && DIRENT_HEADER_SIZE + |rs[n].name| <= length && length % 4 == 0
      && Finished(rs) == Packed(rs[..n]) + EncodeRecord(rs[n], length) + []
  {
    hide EncodeRecord, Packed;
    UsedSplit(rs, |rs| - 1);
  }

  /** A finished block is tiled by its records. */
  lemma FinishedTiles(rs: seq<Record>)
    requires rs != [] && Used(rs) <= BLOCK_SIZE && AllStorable(rs)
    ensures Tiles(Finished(rs), 0, BLOCK_SIZE) && Records(Finished(rs), 0, BLOCK_SIZE) == rs
  {
    FinishedFrom(rs, 0);
    assert rs[0..] == rs;
  }
}
