/** The receive side of the network card driver (kernel/drivers/rtl8139.c): the locked sections that
    fill and empty the ingress queue, each shown to be a step of the protocol. */
module Rtl8139 {
  import opened Bytes
  import opened IngressQueue
  import Bitmap

  const RING: nat := 8192
  const HEADER_BYTES: nat := 4
  const CRC_BYTES: nat := 4
  const DRAIN_LIMIT: nat := 128

  /** What the hardware shows in one turn of the drain loop: whether the ring is empty, the ring's
      bytes, and the card's own write position. */
  datatype Reading = Reading(empty: bool, dma: seq<byte>, cbr: nat)

  predicate ReadingsOk(readings: seq<Reading>)
  {
    |readings| == DRAIN_LIMIT && forall i :: 0 <= i < |readings| ==> |readings[i].dma| >= RING
  }

  // ---------- ring records ----------

  /** ring_read16. */
  function Read16(dma: seq<byte>, at: nat): nat
    requires |dma| >= RING && at < RING
  {
    (dma[at] as int) + 256 * (dma[(at + 1) % RING] as int)
  }

  function PacketLength(dma: seq<byte>, offset: nat): nat
    requires |dma| >= RING && offset < RING
  {
    Read16(dma, (offset + 2) % RING)
  }

  predicate LengthOk(length: nat)
  {
    CRC_BYTES + 14 <= length <= FRAME_MAX + CRC_BYTES
  }

  predicate StatusOk(dma: seq<byte>, offset: nat)
    requires |dma| >= RING && offset < RING
  {
    Read16(dma, offset) % 2 == 1
  }

  /** The frame of the record at an offset, without its checksum, read around the end of the ring. */
  function FrameAt(dma: seq<byte>, offset: nat, length: nat): (frame: seq<byte>)
    requires |dma| >= RING
    ensures |frame| == length
  {
    seq(length, i requires 0 <= i < length => dma[(offset + i) % RING])
  }

  function RecordFrame(dma: seq<byte>, offset: nat): (frame: seq<byte>)
    requires |dma| >= RING && offset < RING && LengthOk(PacketLength(dma, offset))
    ensures |frame| <= FRAME_MAX
  {
    FrameAt(dma, (offset + HEADER_BYTES) % RING, PacketLength(dma, offset) - CRC_BYTES)
  }

  /** Records start on multiples of four. */
  function NextOffset(offset: nat, length: nat): (next: nat)
    ensures next < RING
  {
    (offset + HEADER_BYTES + length + 3) / 4 * 4 % RING
  }

  /** There is a record to look at in turn i. */
  predicate More(readings: seq<Reading>, i: nat)
  {
    i < |readings| && !readings[i].empty
  }

  /** The frames in good order that a drain comes across from turn i on, whatever room the queue
      has. */
  function Arrivals(readings: seq<Reading>, offset: nat, i: nat): (frames: seq<seq<byte>>)
    requires ReadingsOk(readings) && offset < RING && i <= |readings|
    ensures FramesOk(frames) && |frames| <= Records(readings, offset, i)
    decreases |readings| - i
  {
    if !More(readings, i) || !LengthOk(PacketLength(readings[i].dma, offset)) then []
    else
      (if StatusOk(readings[i].dma, offset) then [RecordFrame(readings[i].dma, offset)] else [])
      + Arrivals(readings, NextOffset(offset, PacketLength(readings[i].dma, offset)), i + 1)
  }

  /** The records it comes across, good or bad; one with a bad length is the last. */
  function Records(readings: seq<Reading>, offset: nat, i: nat): (n: nat)
    requires ReadingsOk(readings) && offset < RING && i <= |readings|
    ensures n <= |readings| - i
    decreases |readings| - i
  {
    if !More(readings, i) then 0
    else if !LengthOk(PacketLength(readings[i].dma, offset)) then 1
    else 1 + Records(readings, NextOffset(offset, PacketLength(readings[i].dma, offset)), i + 1)
  }

  /** Every turn finds a record of good length, so the drain stops at its limit. */
  predicate HitsLimit(readings: seq<Reading>, offset: nat, i: nat)
    requires ReadingsOk(readings) && offset < RING && i <= |readings|
    decreases |readings| - i
  {
    i == |readings|
    || (More(readings, i) && LengthOk(PacketLength(readings[i].dma, offset))
        && HitsLimit(readings, NextOffset(offset, PacketLength(readings[i].dma, offset)), i + 1))
  }

  /** Where the drain leaves the read position: behind the last record of good length, or where the card
      itself stands when a length was bad. */
  function StopsAt(readings: seq<Reading>, offset: nat, i: nat): (stop: nat)
    requires ReadingsOk(readings) && offset < RING && i <= |readings|
    ensures stop < RING
    decreases |readings| - i
  {
    if !More(readings, i) then offset
    else if !LengthOk(PacketLength(readings[i].dma, offset)) then readings[i].cbr % RING
    else StopsAt(readings, NextOffset(offset, PacketLength(readings[i].dma, offset)), i + 1)
  }

  /** As many frames as there is room for. */
  function Fitting(frames: seq<seq<byte>>, room: nat): (r: seq<seq<byte>>)
    ensures |r| <= room
  {
    if |frames| <= room then frames else frames[..room]
  }

  lemma FittingOk(frames: seq<seq<byte>>, room: nat)
    requires FramesOk(frames)
    ensures FramesOk(Fitting(frames, room))
  {
    var r := Fitting(frames, room);
    forall f | f in r
      ensures |f| <= FRAME_MAX
    {
      assert f in frames;
    }
  }

  /** Filling up twice is filling up once with all there is. */
  lemma FittingTwice(a: seq<seq<byte>>, b: seq<seq<byte>>, room: nat)
    ensures Fitting(a, room) + Fitting(b, room - |Fitting(a, room)|) == Fitting(a + b, room)
  {
  }

  /** Taking one more frame in. */
  lemma FittingMore(frames: seq<seq<byte>>, frame: seq<byte>, room: nat)
    ensures Fitting(frames + [frame], room) == if |frames| < room
      then Fitting(frames, room) + [frame] else Fitting(frames, room)
  {
  }

  /** ring_copy: the frame goes to the front of the buffer and what lies behind stays. */
  method RingCopy(dma: seq<byte>, offset: nat, buffer: seq<byte>, length: nat) returns (copied: seq<byte>)
    requires |dma| >= RING && offset < RING && length <= |buffer|
    ensures copied == FrameAt(dma, offset, length) + buffer[length..]
  {
    copied := buffer;
    var i := 0;
    while i < length
      invariant 0 <= i <= length && |copied| == |buffer|
      invariant forall k :: 0 <= k < |buffer| ==> copied[k] == if k < i then dma[(offset + k) % RING] else buffer[k]
    {
      copied := copied[i := dma[(offset + i) % RING]];
      i := i + 1;
    }
  }

  class Device {
    const ingress: array<seq<byte>>
    const ingressLength: array<nat>
    var ingressHead: nat
    var ingressTail: nat
    var ingressCount: nat
    var rxFrames: nat
    var rxDropped: nat
    var rxOffset: nat
    ghost var poller: Poller
    ghost var released: nat
    ghost var accepted: seq<seq<byte>>
    ghost var delivered: seq<seq<byte>>

    ghost function View(): Queue
      reads this, ingress, ingressLength
    {
      Queue(ingress[..], ingressLength[..], ingressHead, ingressTail, ingressCount, rxFrames, poller, released,
        accepted, delivered)
    }

    ghost predicate Valid()
      reads this, ingress, ingressLength
    {
      rxOffset < RING && Inv(View())
    }

    /** The state after initialisation. */
    constructor ()
      ensures Valid() && Initial(View()) && rxDropped == 0 && fresh(ingress) && fresh(ingressLength)
    {
      ingress := new seq<byte>[SLOTS](_ => seq(FRAME_MAX, _ => 0));
      ingressLength := new nat[SLOTS](_ => 0);
      ingressHead, ingressTail, ingressCount, rxFrames, rxDropped, rxOffset := 0, 0, 0, 0, 0, 0;
      poller, released, accepted, delivered := Idle, 0, [], [];
    }

    /** The branch of the drain that stores a frame. */
    method Store(dma: seq<byte>)
      requires Valid() && ingressCount < SLOTS && |dma| >= RING && LengthOk(PacketLength(dma, rxOffset))
      modifies this`ingressTail, this`ingressCount, this`rxFrames, this`accepted, ingress, ingressLength
      ensures Valid() && View() == Accept(old(View()), RecordFrame(dma, rxOffset))
    {
      hide PacketLength, Inv;
      StartFacts();
      var frameLength := PacketLength(dma, rxOffset) - CRC_BYTES;
      ghost var frame := RecordFrame(dma, rxOffset);
      AcceptKeeps(View(), frame);
      var slot := ingressTail;
      assert ingress[slot] == ingress[..][slot];
      var copied := RingCopy(dma, (rxOffset + HEADER_BYTES) % RING, ingress[slot], frameLength);
      ingress[slot] := copied;
      ingressLength[slot] := frameLength;
      ingressTail := (slot + 1) % SLOTS;
      ingressCount := ingressCount + 1;
      rxFrames := rxFrames + 1;
      accepted := accepted + [frame];
      assert ingress[..] == old(ingress[..])[slot := copied];
      assert ingressLength[..] == old(ingressLength[..])[slot := frameLength];
    }

    /** receive_drain_locked: of the frames that arrived, those the queue has room for are stored in
        order.  Every record looked at is stored or counted as dropped; one drop too many is counted
        when the limit is reached. */
    method ReceiveDrain(readings: seq<Reading>)
      requires Valid() && ReadingsOk(readings)
      modifies this`ingressTail, this`ingressCount, this`rxFrames, this`rxDropped, this`rxOffset, this`accepted,
        ingress, ingressLength
      ensures Valid()
      ensures var stored := Fitting(Arrivals(readings, old(rxOffset), 0), SLOTS - old(ingressCount));
        && FramesOk(stored) && View() == AcceptAll(old(View()), stored)
        && rxDropped == old(rxDropped) + Records(readings, old(rxOffset), 0) - |stored|
                        + (if HitsLimit(readings, old(rxOffset), 0) then 1 else 0)
      ensures rxOffset == StopsAt(readings, old(rxOffset), 0)
    {
      hide Inv, AcceptAll, PacketLength, LengthOk, NextOffset, At, Stored, Arrivals, Records, HitsLimit, FramesOk,
        StopsAt;
      ghost var start, first, done := View(), rxOffset, [];
      StartFacts();
      AtStart(readings, first);
      var drained := 0;
      while drained < DRAIN_LIMIT
        invariant 0 <= drained <= DRAIN_LIMIT && Valid() && At(readings, first, rxOffset, drained, done)
        invariant Stored(start, View(), done)
        invariant rxDropped == old(rxDropped) + drained - |Fitting(done, SLOTS - start.count)|
      {
        if readings[drained].empty {
          Ends(readings, first, rxOffset, drained, done);
          StoredFacts(start, View(), done);
          return;
        }
        var packetLength := PacketLength(readings[drained].dma, rxOffset);
        if !LengthOk(packetLength) {
          Ends(readings, first, rxOffset, drained, done);
          StoredFacts(start, View(), done);
          rxDropped := rxDropped + 1;
          rxOffset := readings[drained].cbr % RING;
          return;
        }
        NextTurn(readings, first, rxOffset, drained, done);
        done := ReceiveRecord(readings[drained].dma, start, done);
        rxOffset := NextOffset(rxOffset, packetLength);
        drained := drained + 1;
      }
      Ends(readings, first, rxOffset, drained, done);
      StoredFacts(start, View(), done);
      rxDropped := rxDropped + 1;
    }

    /** A turn of the drain on a record of good length: bad status or a full queue drops it. */
    method ReceiveRecord(dma: seq<byte>, ghost start: Queue,
                         ghost done: seq<seq<byte>>)
      returns (ghost more: seq<seq<byte>>)
      requires Valid() && |dma| >= RING && LengthOk(PacketLength(dma, rxOffset)) && Stored(start, View(), done)
      modifies this`ingressTail, this`ingressCount, this`rxFrames, this`rxDropped, this`accepted, ingress, ingressLength
      ensures Valid() && more == done + Good(dma, rxOffset) && Stored(start, View(), more)
      ensures rxDropped - old(rxDropped)
           == 1 + |Fitting(done, SLOTS - start.count)| - |Fitting(more, SLOTS - start.count)|
    {
      hide Inv, Shape, Accept, RecordFrame, PacketLength, StatusOk, LengthOk, FramesOk;
      more := done + Good(dma, rxOffset);
      assert done + [] == done;
      if !StatusOk(dma, rxOffset) {
        rxDropped := rxDropped + 1;
      } else {
        ghost var frame := RecordFrame(dma, rxOffset);
        FittingMore(done, frame, SLOTS - start.count);
        FramesMore(done, frame, SLOTS - start.count);
        if ingressCount == SLOTS {
          rxDropped := rxDropped + 1;
        } else {
          CountBound();
          Store(dma);
          AcceptMore(start, Fitting(done, SLOTS - start.count), frame);
        }
      }
    }

    /** One pass of rtl8139_handle_interrupt that found something to do: a receive status drains the
        ring, an overflow status drains it again from where the first drain stopped, and the queue
        takes what arrived as far as it has room.  Transmit status is not its concern. */
    method InterruptPass(status: nat, first: seq<Reading>, second: seq<Reading>)
      requires Valid() && ReadingsOk(first) && ReadingsOk(second)
      modifies this`ingressTail, this`ingressCount, this`rxFrames, this`rxDropped, this`rxOffset, this`accepted,
        ingress, ingressLength
      ensures Valid() && DrainedFrom(old(View()), View())
      ensures var arrived, stop := Arrived(status, 0, first, old(rxOffset)), Stop(status, 0, first, old(rxOffset));
        var stored := Fitting(arrived + Arrived(status, 4, second, stop), SLOTS - old(ingressCount));
        && FramesOk(stored) && View() == AcceptAll(old(View()), stored) && rxOffset == Stop(status, 4, second, stop)
        && rxDropped == old(rxDropped) - |stored|
                        + Handled(status, 0, first, old(rxOffset)) + Handled(status, 4, second, stop)
    {
      hide Inv, AcceptAll, FramesOk, Arrived, Stop, Handled, Fitting;
      StartFacts();
      ghost var room, before := SLOTS - ingressCount, View();
      ghost var a := Arrived(status, 0, first, rxOffset);
      DrainIf(status, 0, first);
      ghost var left := SLOTS - ingressCount;
      ghost var b := Arrived(status, 4, second, rxOffset);
      DrainIf(status, 4, second);
      AcceptTwice(before, Fitting(a, room), Fitting(b, left));
      FittingTwice(a, b, room);
      assert DrainedBy(before, View(), Fitting(a + b, room));
    }

    /** A drain that depends on two bits of the status. */
    method DrainIf(status: nat, n: nat, readings: seq<Reading>)
      requires Valid() && ReadingsOk(readings)
      modifies this`ingressTail, this`ingressCount, this`rxFrames, this`rxDropped, this`rxOffset, this`accepted,
        ingress, ingressLength
      ensures Valid() && ingressCount <= SLOTS && rxOffset == Stop(status, n, readings, old(rxOffset))
      ensures var stored := Fitting(Arrived(status, n, readings, old(rxOffset)), SLOTS - old(ingressCount));
        && FramesOk(stored) && View() == AcceptAll(old(View()), stored) && ingressCount == old(ingressCount) + |stored|
        && rxDropped == old(rxDropped) - |stored| + Handled(status, n, readings, old(rxOffset))
    {
      hide Inv, AcceptAll, FramesOk, Arrivals, Records, HitsLimit, StopsAt, Fitting, Signalled;
      StartFacts();
      ghost var frames := Arrived(status, n, readings, rxOffset);
      NothingArrived(View(), frames, SLOTS - ingressCount);
      DrainKeeps(View(), Fitting(frames, SLOTS - ingressCount));
      if Signalled(status, n) {
        ReceiveDrain(readings);
      }
    }

    /** The first locked section of a turn of rtl8139_poll: look the head slot up. */
    method PollTake() returns (busy: bool, slot: nat, length: nat)
      requires Valid() && poller.Idle?
      modifies this`poller
      ensures Valid() && busy == (ingressCount != 0) && (!busy ==> View() == old(View()))
      ensures busy ==> View() == Apply(old(View()), Take) && poller == Holding(slot, length)
    {
      if ingressCount == 0 {
        return false, 0, 0;
      }
      StepKeeps(View(), Take);
      poller := Holding(ingressHead, ingressLength[ingressHead]);
      return true, ingressHead, ingressLength[ingressHead];
    }

    /** What the callback, outside the lock, is given. */
    method PollDeliver(slot: nat, length: nat) returns (frame: seq<byte>)
      requires Valid() && poller == Holding(slot, length)
      modifies this`poller, this`delivered
      ensures Valid() && View() == Apply(old(View()), Deliver) && frame == accepted[released]
      ensures delivered == old(delivered) + [frame]
    {
      DeliverKeeps(View());
      assert View().slots[slot] == ingress[slot];
      frame := ingress[slot][..length];
      delivered := delivered + [frame];
      poller := Handed;
    }

    /** The second locked section: release the slot. */
    method PollRelease()
      requires Valid() && poller.Handed?
      modifies this`ingressHead, this`ingressCount, this`poller, this`released
      ensures Valid() && View() == Apply(old(View()), Release)
    {
      ReleaseKeeps(View());
      ingressHead := (ingressHead + 1) % SLOTS;
      ingressCount := ingressCount - 1;
      poller, released := Idle, released + 1;
    }

    /** rtl8139_poll with no interrupt in between: every waiting frame and every new one the queue
        has room for is delivered, in order, and the queue is empty. */
    method Poll(readings: seq<Reading>)
      requires Valid() && poller.Idle? && ReadingsOk(readings)
      modifies this, ingress, ingressLength
      ensures Valid() && poller.Idle? && ingressCount == 0
      ensures accepted == old(accepted) + Fitting(Arrivals(readings, old(rxOffset), 0), SLOTS - old(ingressCount))
      ensures delivered == accepted && released == rxFrames == |accepted|
    {
      hide AcceptAll, FramesOk, Arrivals, Records, HitsLimit, Apply, Inv;
      StartFacts();
      ghost var arrived := Fitting(Arrivals(readings, old(rxOffset), 0), SLOTS - old(ingressCount));
      ReceiveDrain(readings);
      DrainKeeps(old(View()), arrived);
      while true
        invariant Valid() && poller.Idle? && accepted == old(accepted) + arrived
        decreases ingressCount
      {
        ghost var before := View();
        var busy, slot, length := PollTake();
        if !busy {
          AllDelivered(View());
          break;
        }
        TakeFacts(before);
        ghost var taken := View();
        var frame := PollDeliver(slot, length);
        DeliverFacts(taken);
        ghost var handed := View();
        PollRelease();
        ReleaseFacts(handed);
      }
    }

    lemma StartFacts()
      requires Valid()
      ensures ingressCount <= SLOTS && rxOffset < RING && Shape(View()) && Stored(View(), View(), [])
    {
    }

    lemma CountBound()
      requires Valid() && ingressCount != SLOTS
      ensures ingressCount < SLOTS && rxOffset < RING
    {
    }
  }

  /** A bit of a register. */
  predicate Bit(status: nat, n: nat)
  {
    status / Bitmap.Pow2(n) % 2 == 1
  }

  ghost predicate DrainedBy(q: Queue, r: Queue, frames: seq<seq<byte>>)
  {
    Shape(q) && FramesOk(frames) && q.count + |frames| <= SLOTS && r == AcceptAll(q, frames)
  }

  /** The second state is the first after a drain step. */
  ghost predicate DrainedFrom(q: Queue, r: Queue)
  {
    exists frames :: DrainedBy(q, r, frames)
  }

  /** One of the two status bits of a drain is set: bits 0 and 1 mean receive, bits 4 and 6 overflow. */
  predicate Signalled(status: nat, n: nat)
  {
    Bit(status, n) || Bit(status, if n == 0 then 1 else 6)
  }

  lemma {:induction false} AcceptTwice(q: Queue, a: seq<seq<byte>>, b: seq<seq<byte>>)
    requires Shape(q) && FramesOk(a) && FramesOk(b)
    ensures FramesOk(a + b) && AcceptAll(AcceptAll(q, a), b) == AcceptAll(q, a + b)
    decreases |b|
  {
    hide Accept, Shape;
    if b == [] {
      assert a + b == a;
    } else {
      var n := |b| - 1;
      FramesSplit(b, n);
      AcceptTwice(q, a, b[..n]);
      AcceptMore(q, a + b[..n], b[n]);
      assert a + b[..n] + [b[n]] == a + b;
    }
  }

  // ---------- a drain that takes place only if the status says so ----------

  function Arrived(status: nat, n: nat, readings: seq<Reading>, offset: nat): (frames: seq<seq<byte>>)
    requires ReadingsOk(readings) && offset < RING
    ensures FramesOk(frames)
  {
    if Signalled(status, n) then Arrivals(readings, offset, 0) else []
  }

  function Stop(status: nat, n: nat, readings: seq<Reading>, offset: nat): (stop: nat)
    requires ReadingsOk(readings) && offset < RING
    ensures stop < RING
  {
    if Signalled(status, n) then StopsAt(readings, offset, 0) else offset
  }

  /** The records it stores or counts as dropped, and the drop too many. */
  function Handled(status: nat, n: nat, readings: seq<Reading>, offset: nat): nat
    requires ReadingsOk(readings) && offset < RING
  {
    if !Signalled(status, n) then 0
    else Records(readings, offset, 0) + if HitsLimit(readings, offset, 0) then 1 else 0
  }

  lemma NothingArrived(q: Queue, frames: seq<seq<byte>>, room: nat)
    requires Shape(q) && FramesOk(frames)
    ensures FramesOk(Fitting(frames, room)) && |Fitting(frames, room)| <= room
    ensures frames == [] ==> Fitting(frames, room) == [] && AcceptAll(q, Fitting(frames, room)) == q
  {
    FittingOk(frames, room);
  }

  lemma AllDelivered(q: Queue)
    requires Inv(q) && q.count == 0 && q.poller.Idle?
    ensures q.delivered == q.accepted && q.released == q.rxFrames == |q.accepted|
  {
  }

  lemma TakeFacts(q: Queue)
    requires Inv(q) && Enabled(q, Take)
    ensures var r := Apply(q, Take); r.accepted == q.accepted && r.count == q.count
  {
  }

  lemma DeliverFacts(q: Queue)
    requires Inv(q) && Enabled(q, Deliver)
    ensures var r := Apply(q, Deliver); r.accepted == q.accepted && r.count == q.count && r.poller.Handed?
  {
  }

  lemma ReleaseFacts(q: Queue)
    requires Inv(q) && Enabled(q, Release)
    ensures var r := Apply(q, Release);
      r.accepted == q.accepted && r.count == q.count - 1 && r.count >= 0 && r.poller.Idle?
  {
  }

  /** Of the frames come across so far, the queue took those it had room for. */
  ghost predicate Stored(start: Queue, now: Queue, done: seq<seq<byte>>)
  {
    && start.count <= SLOTS && Shape(start) && FramesOk(done) && FramesOk(Fitting(done, SLOTS - start.count))
    && now == AcceptAll(start, Fitting(done, SLOTS - start.count))
    && now.count == start.count + |Fitting(done, SLOTS - start.count)|
  }

  lemma StoredFacts(start: Queue, now: Queue, done: seq<seq<byte>>)
    requires Stored(start, now, done)
    ensures Shape(start) && FramesOk(Fitting(done, SLOTS - start.count))
    ensures now == AcceptAll(start, Fitting(done, SLOTS - start.count))
  {
  }

  /** The frame of a record, if its status is good. */
  function Good(dma: seq<byte>, offset: nat): seq<seq<byte>>
    requires |dma| >= RING && offset < RING && LengthOk(PacketLength(dma, offset))
  {
    if StatusOk(dma, offset) then [RecordFrame(dma, offset)] else []
  }

  /** A drain that began at `first` stands before turn i at `offset`, having come across `done`. */
  predicate At(readings: seq<Reading>, first: nat, offset: nat, i: nat, done: seq<seq<byte>>)
    requires ReadingsOk(readings)
  {
    && first < RING && offset < RING && i <= |readings|
    && Arrivals(readings, first, 0) == done + Arrivals(readings, offset, i)
    && Records(readings, first, 0) == i + Records(readings, offset, i)
    && HitsLimit(readings, first, 0) == HitsLimit(readings, offset, i)
    && StopsAt(readings, first, 0) == StopsAt(readings, offset, i)
  }

  lemma AtStart(readings: seq<Reading>, first: nat)
    requires ReadingsOk(readings) && first < RING
    ensures At(readings, first, first, 0, [])
  {
    assert [] + Arrivals(readings, first, 0) == Arrivals(readings, first, 0);
  }

  lemma NextTurn(readings: seq<Reading>, first: nat, offset: nat, i: nat, done: seq<seq<byte>>)
    requires ReadingsOk(readings) && At(readings, first, offset, i, done)
    requires i < |readings| && !readings[i].empty && LengthOk(PacketLength(readings[i].dma, offset))
    ensures At(readings, first, NextOffset(offset, PacketLength(readings[i].dma, offset)), i + 1,
      done + Good(readings[i].dma, offset))
  {
    hide LengthOk, PacketLength, NextOffset, StatusOk, RecordFrame;
    var next := NextOffset(offset, PacketLength(readings[i].dma, offset));
    var good := Good(readings[i].dma, offset);
    assert Arrivals(readings, offset, i) == good + Arrivals(readings, next, i + 1);
    assert done + (good + Arrivals(readings, next, i + 1)) == done + good + Arrivals(readings, next, i + 1);
  }

  /** Where a drain stops. */
  lemma Ends(readings: seq<Reading>, first: nat, offset: nat, i: nat, done: seq<seq<byte>>)
    requires ReadingsOk(readings) && At(readings, first, offset, i, done)
    requires i == |readings| || readings[i].empty || !LengthOk(PacketLength(readings[i].dma, offset))
    ensures Arrivals(readings, first, 0) == done && (HitsLimit(readings, first, 0) <==> i == |readings|)
    ensures Records(readings, first, 0) == i + if More(readings, i) then 1 else 0
    ensures StopsAt(readings, first, 0) == if More(readings, i) then readings[i].cbr % RING else offset
  {
    hide LengthOk, PacketLength, NextOffset;
    assert done + [] == done;
  }

  lemma FramesMore(done: seq<seq<byte>>, frame: seq<byte>, room: nat)
    requires FramesOk(done) && |frame| <= FRAME_MAX
    ensures FramesOk(done + [frame]) && FramesOk(Fitting(done + [frame], room))
  {
    FittingOk(done + [frame], room);
  }

  lemma AcceptMore(q: Queue, frames: seq<seq<byte>>, frame: seq<byte>)
    requires Shape(q) && FramesOk(frames) && |frame| <= FRAME_MAX
    ensures FramesOk(frames + [frame]) && AcceptAll(q, frames + [frame]) == Accept(AcceptAll(q, frames), frame)
    ensures Accept(AcceptAll(q, frames), frame).count == AcceptAll(q, frames).count + 1
  {
    assert (frames + [frame])[..|frames|] == frames;
  }

  // ---------- a drain that reaches its limit ----------

  /** A card that keeps its ring full of ones. */
  function Flood(): (readings: seq<Reading>)
    ensures ReadingsOk(readings)
  {
    seq(DRAIN_LIMIT, _ => Reading(false, seq(RING, _ => 1), 0))
  }

  /** Wherever a record starts in it, the record has a good status and 257 bytes. */
  lemma FloodRecord(i: nat, offset: nat)
    requires i < DRAIN_LIMIT && offset < RING
    ensures var r := Flood()[i]; !r.empty && PacketLength(r.dma, offset) == 257 && StatusOk(r.dma, offset)
  {
    var dma := Flood()[i].dma;
    assert dma[offset] == dma[(offset + 1) % RING] == 1;
    assert dma[(offset + 2) % RING] == dma[((offset + 2) % RING + 1) % RING] == 1;
  }

  lemma {:induction false} FloodHitsLimit(offset: nat, i: nat)
    requires offset < RING && i <= DRAIN_LIMIT
    ensures HitsLimit(Flood(), offset, i)
    ensures Records(Flood(), offset, i) == |Arrivals(Flood(), offset, i)| == DRAIN_LIMIT - i
    decreases DRAIN_LIMIT - i
  {
    hide Flood, PacketLength, StatusOk, NextOffset, RecordFrame;
    if i < DRAIN_LIMIT {
      FloodRecord(i, offset);
      FloodHitsLimit(NextOffset(offset, 257), i + 1);
    }
  }

  /** From an empty queue such a drain stores eight of 128 records, drops the other 120 and counts 121. */
  method MiscountedDrop() returns (device: Device)
    ensures device.Valid() && device.rxFrames == SLOTS && device.rxDropped == DRAIN_LIMIT - SLOTS + 1
  {
    hide Flood, Inv, AcceptAll, FramesOk, Arrivals, Records, HitsLimit;
    device := new Device();
    EmptyAtFirst(device.View());
    FloodHitsLimit(device.rxOffset, 0);
    ghost var before, arrived := device.View(), Arrivals(Flood(), device.rxOffset, 0);
    device.ReceiveDrain(Flood());
    DrainKeeps(before, Fitting(arrived, SLOTS));
    FramesCounted(device.View());
  }

  lemma EmptyAtFirst(q: Queue)
    requires Initial(q)
    ensures q.count == 0 && q.accepted == []
  {
  }

  lemma FramesCounted(q: Queue)
    requires Inv(q)
    ensures q.rxFrames == |q.accepted|
  {
  }
}
