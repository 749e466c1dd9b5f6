/** The filesystem image as the host tools reach it (tools/nsfs_host.c): whole blocks, written
    through a cache that only a sync empties.  A crash keeps, block by block, either what was
    durable or any one write still pending; a single block is never torn. */
module HostImage {
  import opened OnDisk

  datatype Write = Write(block: nat, data: Block)

  datatype Op = Put(w: Write) | Sync

  datatype Disk = Disk(durable: seq<Block>, pending: seq<Write>)

  predicate InRange(n: nat, ws: seq<Write>)
  {
    forall k :: 0 <= k < |ws| ==> ws[k].block < n
  }

  /** The image after all the writes, in order. */
  function Apply(image: seq<Block>, ws: seq<Write>): (r: seq<Block>)
    requires InRange(|image|, ws)
    ensures |r| == |image|
  {
    if ws == [] then image
    else
      var last := ws[|ws| - 1];
      Apply(image, ws[..|ws| - 1])[last.block := last.data]
  }

  predicate Valid(d: Disk)
  {
    InRange(|d.durable|, d.pending)
  }

  predicate OpOk(d: Disk, op: Op)
  {
    op.Put? ==> op.w.block < |d.durable|
  }

  function Exec(d: Disk, op: Op): (r: Disk)
    requires Valid(d) && OpOk(d, op)
    ensures Valid(r) && |r.durable| == |d.durable|
  {
    match op
    case Put(w) => Disk(d.durable, d.pending + [w])
    case Sync => Disk(Apply(d.durable, d.pending), [])
  }

  predicate OpsOk(n: nat, ops: seq<Op>)
  {
    forall k :: 0 <= k < |ops| && ops[k].Put? ==> ops[k].w.block < n
  }

  function Run(d: Disk, ops: seq<Op>): (r: Disk)
    requires Valid(d) && OpsOk(|d.durable|, ops)
    ensures Valid(r) && |r.durable| == |d.durable|
  {
    if ops == [] then d else Exec(Run(d, ops[..|ops| - 1]), ops[|ops| - 1])
  }

  function Puts(ws: seq<Write>): (ops: seq<Op>)
    ensures |ops| == |ws| && forall k :: 0 <= k < |ws| ==> ops[k] == Put(ws[k])
  {
    seq(|ws|, k requires 0 <= k < |ws| => Put(ws[k]))
  }

  /** Image c is one the disk may hold after a crash in state d. */
  ghost predicate Survives(d: Disk, c: seq<Block>)
  {
    && |c| == |d.durable|
    && forall b :: 0 <= b < |c| ==> SurvivesAt(d, b, c[b])
  }

  ghost predicate SurvivesAt(d: Disk, b: nat, data: Block)
    requires b < |d.durable|
  {
    data == d.durable[b] || Write(b, data) in d.pending
  }

  lemma {:induction false} RunConcat(d: Disk, a: seq<Op>, b: seq<Op>)
    requires Valid(d) && OpsOk(|d.durable|, a + b)
    ensures OpsOk(|d.durable|, a) && OpsOk(|d.durable|, b)
    ensures Run(d, a + b) == Run(Run(d, a), b)
  {
    assert forall k :: 0 <= k < |a| ==> a[k] == (a + b)[k];
    assert forall k :: 0 <= k < |b| ==> b[k] == (a + b)[|a| + k];
    if b == [] {
      assert a + b == a;
    } else {
      var b' := b[..|b| - 1];
      assert (a + b)[..|a + b| - 1] == a + b';
      RunConcat(d, a, b');
    }
  }

  lemma {:induction false} RunPuts(d: Disk, ws: seq<Write>)
    requires Valid(d) && InRange(|d.durable|, ws)
    ensures OpsOk(|d.durable|, Puts(ws))
    ensures Run(d, Puts(ws)) == Disk(d.durable, d.pending + ws)
  {
    if ws == [] {
      assert d.pending + ws == d.pending;
    } else {
      var ws' := ws[..|ws| - 1];
      assert Puts(ws)[..|ws| - 1] == Puts(ws');
      RunPuts(d, ws');
      assert d.pending + ws == d.pending + ws' + [ws[|ws| - 1]];
    }
  }

  // ---------- staged writes: each batch is made durable before the next begins ----------

  function Staged(stages: seq<seq<Write>>): seq<Op>
  {
    if stages == [] then [] else Puts(stages[0]) + [Sync] + Staged(stages[1..])
  }

  predicate StagesInRange(n: nat, stages: seq<seq<Write>>)
  {
    forall s :: 0 <= s < |stages| ==> InRange(n, stages[s])
  }

  /** The durable image once the first i batches are. */
  function Base(image: seq<Block>, stages: seq<seq<Write>>, i: nat): (r: seq<Block>)
    requires StagesInRange(|image|, stages) && i <= |stages|
    ensures |r| == |image|
    decreases i
  {
    if i == 0 then image else Apply(Base(image, stages, i - 1), stages[i - 1])
  }

  lemma {:induction false} StagedInRange(n: nat, stages: seq<seq<Write>>)
    requires StagesInRange(n, stages)
    ensures OpsOk(n, Staged(stages))
  {
    if stages != [] {
      StagedInRange(n, stages[1..]);
      assert InRange(n, stages[0]);
    }
  }

  lemma {:induction false} BaseRest(image: seq<Block>, stages: seq<seq<Write>>, i: nat)
    requires StagesInRange(|image|, stages) && i < |stages|
    ensures Base(Apply(image, stages[0]), stages[1..], i) == Base(image, stages, i + 1)
    decreases i
  {
    if i > 0 {
      BaseRest(image, stages, i - 1);
    }
  }

  /** After any k operations, batches 0 to i - 1 are durable and part of batch i is pending. */
  lemma {:induction false} StagedPrefix(image: seq<Block>, stages: seq<seq<Write>>, k: nat)
    returns (i: nat, j: nat)
    requires StagesInRange(|image|, stages) && k <= |Staged(stages)|
    ensures OpsOk(|image|, Staged(stages)[..k])
    ensures i <= |stages| && (if i < |stages| then j <= |stages[i]| else j == 0)
    ensures Run(Disk(image, []), Staged(stages)[..k])
         == Disk(Base(image, stages, i), Issued(stages, i, j))
    ensures k == |Staged(stages)| ==> i == |stages|
    decreases |stages|
  {
    StagedInRange(|image|, stages);
    if stages == [] {
      i, j := 0, 0;
    } else if k <= |stages[0]| {
      i, j := 0, k;
      WithinFirst(image, stages, k);
    } else {
      var rest := Staged(stages[1..]);
      var k' := k - |stages[0]| - 1;
      assert Staged(stages)[..k] == Puts(stages[0]) + [Sync] + rest[..k'];
      i, j := StagedPrefix(Apply(image, stages[0]), stages[1..], k');
      BeyondFirst(image, stages, rest[..k']);
      hide Run, Apply, Staged;
      BaseRest(image, stages, i);
      i := i + 1;
    }
  }

  function Issued(stages: seq<seq<Write>>, i: nat, j: nat): seq<Write>
    requires i <= |stages| && if i < |stages| then j <= |stages[i]| else true
  {
    if i < |stages| then stages[i][..j] else []
  }

  lemma WithinFirst(image: seq<Block>, stages: seq<seq<Write>>, k: nat)
    requires StagesInRange(|image|, stages) && stages != [] && k <= |stages[0]|
    ensures Staged(stages)[..k] == Puts(stages[0][..k]) && OpsOk(|image|, Staged(stages)[..k])
    ensures Run(Disk(image, []), Staged(stages)[..k]) == Disk(image, stages[0][..k])
  {
    RunPuts(Disk(image, []), stages[0][..k]);
    assert [] + stages[0][..k] == stages[0][..k];
  }

  lemma BeyondFirst(image: seq<Block>, stages: seq<seq<Write>>, ops: seq<Op>)
    requires StagesInRange(|image|, stages) && stages != [] && OpsOk(|image|, ops)
    ensures OpsOk(|image|, Puts(stages[0]) + [Sync] + ops)
    ensures Run(Disk(image, []), Puts(stages[0]) + [Sync] + ops)
         == Run(Disk(Apply(image, stages[0]), []), ops)
  {
    StageDone(Disk(image, []), stages[0]);
    RunConcat(Disk(image, []), Puts(stages[0]) + [Sync], ops);
  }

  /** Some prefix of the operations makes the first batch durable and leaves all of the second
      pending. */
  lemma SecondStageIssued(image: seq<Block>, stages: seq<seq<Write>>) returns (k: nat)
    requires StagesInRange(|image|, stages) && |stages| >= 2
    ensures k <= |Staged(stages)| && OpsOk(|image|, Staged(stages)[..k])
    ensures Run(Disk(image, []), Staged(stages)[..k]) == Disk(Base(image, stages, 1), stages[1])
  {
    StagedInRange(|image|, stages);
    var first, second := Puts(stages[0]) + [Sync], Puts(stages[1]);
    k := |first| + |second|;
    assert Staged(stages) == first + Staged(stages[1..]);
    assert Staged(stages[1..])[..|second|] == second;
    assert Staged(stages)[..k] == first + second;
    StageDone(Disk(image, []), stages[0]);
    RunConcat(Disk(image, []), first, second);
    RunPuts(Disk(Base(image, stages, 1), []), stages[1]);
    assert [] + stages[1] == stages[1];
  }

  lemma StageDone(d: Disk, ws: seq<Write>)
    requires Valid(d) && d.pending == [] && InRange(|d.durable|, ws)
    ensures OpsOk(|d.durable|, Puts(ws) + [Sync])
    ensures Run(d, Puts(ws) + [Sync]) == Disk(Apply(d.durable, ws), [])
  {
    RunPuts(d, ws);
    assert (Puts(ws) + [Sync])[..|ws|] == Puts(ws);
    assert [] + ws == ws;
  }

  /** The open image of nsfs_host_read, nsfs_host_write and nsfs_host_sync. */
  class Image {
    var durable: seq<Block>
    var pending: seq<Write>

    ghost function State(): Disk
      reads this
    {
      Disk(durable, pending)
    }

    ghost function View(): seq<Block>
      reads this
      requires Valid(State())
    {
      Apply(durable, pending)
    }

    constructor (blocks: seq<Block>)
      ensures durable == blocks && pending == []
    {
      durable, pending := blocks, [];
    }

    /** A block of the region, through the cache; a read outside the region fails. */
    method Read(block: nat) returns (ok: bool, data: Block)
      requires Valid(State())
      ensures ok == (block < |durable|)
      ensures ok ==> data == View()[block]
    {
      ok, data := block < |durable|, Bytes.Zeros(4096);
      if ok {
        data := durable[block];
        var k := 0;
        assert pending[..0] == [];
        while k < |pending|
          invariant 0 <= k <= |pending|
          invariant InRange(|durable|, pending[..k])
          invariant data == Apply(durable, pending[..k])[block]
        {
          if pending[k].block == block {
            data := pending[k].data;
          }
          assert pending[..k + 1][..k] == pending[..k];
          k := k + 1;
        }
        assert pending[..k] == pending;
      }
    }

    method Put(block: nat, data: Block) returns (ok: bool)
      requires Valid(State())
      modifies this
      ensures Valid(State()) && durable == old(durable)
      ensures ok == (block < |durable|)
      ensures ok ==> State() == Exec(old(State()), Op.Put(Write(block, data)))
      ensures !ok ==> State() == old(State())
    {
      ok := block < |durable|;
      if ok {
        pending := pending + [Write(block, data)];
      }
    }

    method Sync()
      requires Valid(State())
      modifies this
      ensures State() == Exec(old(State()), Op.Sync)
    {
      var k := 0;
      var image := durable;
      assert pending[..0] == [];
      while k < |pending|
        invariant 0 <= k <= |pending| && unchanged(this)
        invariant InRange(|durable|, pending[..k]) && image == Apply(durable, pending[..k])
      {
        image := image[pending[k].block := pending[k].data];
        assert pending[..k + 1][..k] == pending[..k];
        k := k + 1;
      }
      assert pending[..k] == pending;
      durable, pending := image, [];
    }
  }
}
