/** The ingress queue between the receive interrupt and the poller of the network card driver
    (kernel/drivers/rtl8139.c), as a state machine over its locked sections. */
module IngressQueue {
  import opened Bytes

  const SLOTS: nat := 8
  const FRAME_MAX: nat := 1518

  /** Where the one poller stands: between frames, holding the slot it looked up under the lock, or
      back from the callback with the slot not yet released. */
  datatype Poller = Idle | Holding(slot: nat, length: nat) | Handed

  /** The queue, with the frames accepted and delivered so far. */
  datatype Queue = Queue(
    slots: seq<seq<byte>>, lengths: seq<nat>, head: nat, tail: nat, count: nat, rxFrames: nat,
    poller: Poller, released: nat, accepted: seq<seq<byte>>, delivered: seq<seq<byte>>)

  /** An atomic step: a locked drain that stores some frames, or one of the three parts of a
      delivery. */
  datatype Step = Drain(frames: seq<seq<byte>>) | Take | Deliver | Release

  predicate Shape(q: Queue)
  {
    && |q.slots| == |q.lengths| == SLOTS && q.head < SLOTS && q.tail < SLOTS
    && forall i :: 0 <= i < SLOTS ==> |q.slots[i]| == FRAME_MAX && q.lengths[i] <= FRAME_MAX
  }

  /** The bytes a reader of a slot gets. */
  function FrameIn(q: Queue, slot: nat): seq<byte>
    requires Shape(q) && slot < SLOTS
  {
    q.slots[slot][..q.lengths[slot]]
  }

  /** The slot i places behind the head. */
  function SlotAt(head: nat, i: nat): (s: nat)
    ensures s < SLOTS
  {
    (head + i) % SLOTS
  }

  /** The waiting frames sit in the slots from the head on, in the order they were accepted. */
  predicate Holds(q: Queue)
    requires Shape(q) && q.released + q.count == |q.accepted|
  {
    forall i :: 0 <= i < q.count ==> FrameIn(q, SlotAt(q.head, i)) == q.accepted[q.released + i]
  }

  predicate PollerOk(q: Queue)
    requires Shape(q)
  {
    && |q.delivered| == q.released + (if q.poller.Handed? then 1 else 0)
    && (!q.poller.Idle? ==> q.count > 0)
    && (q.poller.Holding? ==> q.poller.slot == q.head && q.poller.length == q.lengths[q.head])
  }

  /** The invariant of the protocol. */
  predicate Inv(q: Queue)
  {
    && Shape(q) && q.count <= SLOTS && q.tail == SlotAt(q.head, q.count)
    && q.released + q.count == |q.accepted| == q.rxFrames
    && Holds(q) && PollerOk(q) && q.delivered <= q.accepted
  }

  // ---------- the steps ----------

  /** Storing one frame at the tail: the bytes behind it in the slot stay. */
  function Accept(q: Queue, frame: seq<byte>): Queue
    requires Shape(q) && |frame| <= FRAME_MAX
  {
    q.(slots := q.slots[q.tail := frame + q.slots[q.tail][|frame|..]],
       lengths := q.lengths[q.tail := |frame|],
       tail := (q.tail + 1) % SLOTS, count := q.count + 1, rxFrames := q.rxFrames + 1,
       accepted := q.accepted + [frame])
  }

  predicate FramesOk(frames: seq<seq<byte>>)
  {
    forall f :: f in frames ==> |f| <= FRAME_MAX
  }

  function AcceptAll(q: Queue, frames: seq<seq<byte>>): (r: Queue)
    requires Shape(q) && FramesOk(frames)
    ensures Shape(r)
    decreases |frames|
  {
    if frames == [] then q else Accept(AcceptAll(q, frames[..|frames| - 1]), frames[|frames| - 1])
  }

  /** When the code takes a step: a drain stores no more than there is room for, and the poller does
      its three parts in turn. */
  predicate Enabled(q: Queue, step: Step)
  {
    match step
    case Drain(frames) => FramesOk(frames) && q.count + |frames| <= SLOTS
    case Take => q.poller.Idle? && q.count != 0
    case Deliver => q.poller.Holding?
    case Release => q.poller.Handed?
  }

  function Apply(q: Queue, step: Step): Queue
    requires Inv(q) && Enabled(q, step)
  {
    match step
    case Drain(frames) => AcceptAll(q, frames)
    case Take => q.(poller := Holding(q.head, q.lengths[q.head]))
    case Deliver => q.(poller := Handed, delivered := q.delivered + [q.slots[q.poller.slot][..q.poller.length]])
    case Release => q.(poller := Idle, head := (q.head + 1) % SLOTS, count := q.count - 1, released := q.released + 1)
  }

  lemma NextSlot(head: nat, i: nat)
    ensures (SlotAt(head, i) + 1) % SLOTS == SlotAt(head, i + 1)
    ensures SlotAt((head + 1) % SLOTS, i) == SlotAt(head, i + 1)
  {
  }

  lemma DistinctSlots(head: nat, i: nat, j: nat)
    requires i < j < SLOTS
    ensures SlotAt(head, i) != SlotAt(head, j)
  {
  }

  lemma TailFree(q: Queue)
    requires q.count < SLOTS && q.tail == SlotAt(q.head, q.count)
    ensures forall i :: 0 <= i < q.count ==> SlotAt(q.head, i) != q.tail
  {
    hide SlotAt;
    forall i | 0 <= i < q.count
      ensures SlotAt(q.head, i) != q.tail
    {
      DistinctSlots(q.head, i, q.count);
    }
  }

  /** The slot a drain fills is none of those in use, so not the one being delivered. */
  lemma AcceptKeeps(q: Queue, frame: seq<byte>)
    requires Inv(q) && q.count < SLOTS && |frame| <= FRAME_MAX
    ensures Inv(Accept(q, frame))
    ensures forall i :: 0 <= i < q.count ==> Accept(q, frame).slots[SlotAt(q.head, i)] == q.slots[SlotAt(q.head, i)]
  {
    HeadSlot(q);
    hide SlotAt;
    TailFree(q);
    NextSlot(q.head, q.count);
    var r := Accept(q, frame);
    assert FrameIn(r, q.tail) == frame;
    forall i | 0 <= i < r.count
      ensures FrameIn(r, SlotAt(r.head, i)) == r.accepted[r.released + i]
    {
      if i < q.count {
        assert FrameIn(r, SlotAt(q.head, i)) == FrameIn(q, SlotAt(q.head, i));
      }
    }
  }

  lemma HeadSlot(q: Queue)
    requires q.head < SLOTS
    ensures SlotAt(q.head, 0) == q.head
  {
  }

  /** What a drain leaves alone, and what it adds. */
  predicate Filled(q: Queue, r: Queue, frames: seq<seq<byte>>)
    requires Shape(q) && Shape(r)
  {
    && r.count == q.count + |frames| && r.accepted == q.accepted + frames
    && r.head == q.head && r.poller == q.poller && r.released == q.released && r.delivered == q.delivered
    && forall i :: 0 <= i < q.count ==> r.slots[SlotAt(q.head, i)] == q.slots[SlotAt(q.head, i)]
  }

  lemma FilledMore(q: Queue, m: Queue, frames: seq<seq<byte>>, frame: seq<byte>)
    requires Inv(m) && m.count < SLOTS && |frame| <= FRAME_MAX && Shape(q) && Filled(q, m, frames)
    ensures Inv(Accept(m, frame)) && Filled(q, Accept(m, frame), frames + [frame])
  {
    hide Inv;
    InvFacts(m);
    AcceptKeeps(m, frame);
    InvFacts(Accept(m, frame));
    var r := Accept(m, frame);
    forall i | 0 <= i < q.count
      ensures r.slots[SlotAt(q.head, i)] == q.slots[SlotAt(q.head, i)]
    {
    }
  }

  lemma InvFacts(q: Queue)
    requires Inv(q)
    ensures Shape(q) && q.count <= SLOTS
  {
  }

  lemma {:induction false} DrainKeeps(q: Queue, frames: seq<seq<byte>>)
    requires Inv(q) && FramesOk(frames) && q.count + |frames| <= SLOTS
    ensures Inv(AcceptAll(q, frames)) && Filled(q, AcceptAll(q, frames), frames)
    decreases |frames|
  {
    hide Inv, Accept, Shape, FramesOk;
    InvFacts(q);
    if frames == [] {
      assert q.accepted + frames == q.accepted;
    } else {
      var n := |frames| - 1;
      FramesSplit(frames, n);
      DrainKeeps(q, frames[..n]);
      FilledMore(q, AcceptAll(q, frames[..n]), frames[..n], frames[n]);
      assert frames == frames[..n] + [frames[n]];
    }
  }

  lemma FramesSplit(frames: seq<seq<byte>>, n: nat)
    requires FramesOk(frames) && n < |frames|
    ensures FramesOk(frames[..n]) && |frames[n]| <= FRAME_MAX
  {
    assert frames[n] in frames;
    forall f | f in frames[..n]
      ensures |f| <= FRAME_MAX
    {
      assert f in frames;
    }
  }

  lemma ReleaseKeeps(q: Queue)
    requires Inv(q) && q.poller.Handed?
    ensures Inv(Apply(q, Release))
  {
    hide SlotAt;
    var r := Apply(q, Release);
    NextSlot(q.head, r.count);
    forall i | 0 <= i < r.count
      ensures FrameIn(r, SlotAt(r.head, i)) == r.accepted[r.released + i]
    {
      NextSlot(q.head, i);
      assert FrameIn(r, SlotAt(q.head, i + 1)) == FrameIn(q, SlotAt(q.head, i + 1));
    }
  }

  lemma DeliverKeeps(q: Queue)
    requires Inv(q) && q.poller.Holding?
    ensures Inv(Apply(q, Deliver))
    ensures Apply(q, Deliver).delivered == q.delivered + [q.accepted[q.released]]
  {
    HeadSlot(q);
    hide SlotAt;
    assert FrameIn(q, SlotAt(q.head, 0)) == q.accepted[q.released + 0];
    var r := Apply(q, Deliver);
    assert r.delivered == q.accepted[..q.released] + [q.accepted[q.released]];
    forall i | 0 <= i < r.count
      ensures FrameIn(r, SlotAt(r.head, i)) == r.accepted[r.released + i]
    {
      assert FrameIn(r, SlotAt(r.head, i)) == FrameIn(q, SlotAt(q.head, i));
    }
  }

  /** Every step keeps the invariant. */
  lemma StepKeeps(q: Queue, step: Step)
    requires Inv(q) && Enabled(q, step)
    ensures Inv(Apply(q, step))
  {
    match step
    case Drain(frames) => DrainKeeps(q, frames);
    case Take =>
      var r := Apply(q, step);
      assert forall i :: 0 <= i < r.count ==> FrameIn(r, SlotAt(r.head, i)) == FrameIn(q, SlotAt(q.head, i));
    case Deliver => DeliverKeeps(q);
    case Release => ReleaseKeeps(q);
  }

  // ---------- runs ----------

  /** After rtl8139_init: everything zero. */
  predicate Initial(q: Queue)
  {
    && Shape(q) && q.head == q.tail == q.count == q.rxFrames == q.released == 0 && q.poller.Idle?
    && q.accepted == [] && q.delivered == []
  }

  /** A run: each state follows from the one before by an enabled step, interrupts and poller in
      any order. */
  ghost predicate IsRun(states: seq<Queue>, steps: seq<Step>)
  {
    && |states| == |steps| + 1 && Initial(states[0])
    && forall k :: 0 <= k < |steps| ==> Follows(states, steps, k)
  }

  ghost predicate Follows(states: seq<Queue>, steps: seq<Step>, k: nat)
    requires k < |steps| && |states| == |steps| + 1
  {
    Inv(states[k]) ==> Enabled(states[k], steps[k]) && states[k + 1] == Apply(states[k], steps[k])
  }

  lemma {:induction false} RunKeeps(states: seq<Queue>, steps: seq<Step>, k: nat)
    requires IsRun(states, steps) && k <= |steps|
    ensures Inv(states[k])
    decreases k
  {
    if k > 0 {
      RunKeeps(states, steps, k - 1);
      assert Follows(states, steps, k - 1);
      StepKeeps(states[k - 1], steps[k - 1]);
    }
  }

  /** At every point of every run: what was delivered is the frames accepted first, each once and in
      that order; the rest wait in the queue; and the frame counter is the frames released plus
      those queued. */
  lemma Exactly(states: seq<Queue>, steps: seq<Step>, k: nat)
    requires IsRun(states, steps) && k <= |steps|
    ensures var q := states[k];
      && q.tail == (q.head + q.count) % SLOTS
      && q.rxFrames == |q.accepted| == q.released + q.count
      && |q.delivered| <= |q.accepted| && q.delivered == q.accepted[..|q.delivered|]
      && q.released <= |q.delivered| <= q.released + 1
  {
    RunKeeps(states, steps, k);
  }

  /** From the moment the poller looks a slot up to the moment it releases it, whatever interrupts
      come in between, the slot holds the bytes it held then. */
  lemma {:induction false} HeldSlotStays(states: seq<Queue>, steps: seq<Step>, first: nat, last: nat)
    requires IsRun(states, steps) && first <= last <= |steps|
    requires !states[first].poller.Idle? && forall k :: first <= k < last ==> !steps[k].Release?
    ensures Shape(states[first]) && Shape(states[last]) && !states[last].poller.Idle?
    ensures states[last].head == states[first].head
    ensures states[last].slots[states[first].head] == states[first].slots[states[first].head]
    ensures states[last].poller.Holding? && states[first].poller.Holding? ==>
      states[last].poller == states[first].poller
    decreases last
  {
    RunKeeps(states, steps, first);
    if first < last {
      HeldSlotStays(states, steps, first, last - 1);
      RunKeeps(states, steps, last - 1);
      assert Follows(states, steps, last - 1);
      HeldStep(states[last - 1], steps[last - 1]);
    }
  }

  lemma HeldStep(q: Queue, step: Step)
    requires Inv(q) && Enabled(q, step) && !q.poller.Idle? && !step.Release?
    ensures var r := Apply(q, step);
      && !r.poller.Idle? && Shape(r) && r.head == q.head && r.slots[q.head] == q.slots[q.head]
      && (r.poller.Holding? ==> q.poller == r.poller)
  {
    HeadSlot(q);
    match step
    case Drain(frames) =>
      DrainKeeps(q, frames);
      assert AcceptAll(q, frames).slots[SlotAt(q.head, 0)] == q.slots[SlotAt(q.head, 0)];
    case Deliver =>
  }
}
