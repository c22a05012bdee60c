/**
 * The serial framing layer of the node firmware (sunlight/src/porter.cpp):
 * four logical channels multiplexed over one serial port, each with a queue of
 * received bytes, a queue of received packets and a queue of packets to send.
 * A packet travels as a 32-byte frame: two preamble bytes and a start-frame
 * delimiter (all 0xAA) followed by 29 data bytes.
 *
 * The byte arriving from the port in one `poll` is a parameter; the bytes the
 * port transmits are appended to `wire`.
 */
module Porter {
  import opened SkyUtility
  import opened SkyQueue
  import ControlRegister

  const MaxQueue: nat := 16
  const MaxChannel: nat := 4
  const PreambleSize: nat := 2
  const PreamblePattern: Byte := 0xAA
  const SfdPattern: Byte := 0xAA
  const PreambleSfdSize: nat := 3
  const PacketSize: nat := 32
  const PacketDataSize: nat := 29
  /** Capacity of each per-channel byte queue. */
  const ByteQueueSize: nat := 256

  type PacketData = s: seq<Byte> | |s| == 29
    witness [0, 0, 0, 0, 0, 0, 0, 0, 0, 0, 0, 0, 0, 0, 0, 0, 0, 0, 0, 0, 0, 0, 0, 0, 0, 0, 0, 0, 0]

  const ZeroData: PacketData := [0, 0, 0, 0, 0, 0, 0, 0, 0, 0, 0, 0, 0, 0, 0, 0, 0, 0, 0, 0, 0, 0, 0, 0, 0, 0, 0, 0, 0]

  /** `ray::packet`. */
  datatype Packet = Packet(channel: Byte, size: Byte, data: PacketData)

  /** `packet{}`. */
  const EmptyPacket: Packet := Packet(0, 0, ZeroData)

  /** `porter::state`. */
  datatype PorterState = Wait | Receive | Send | WaitForListen

  datatype Option<T> = None | Some(value: T)

  // ---------------------------------------------------------------------
  // Receiving: one byte into the channel's byte queue
  // ---------------------------------------------------------------------

  /** The state after `n` calls of `deq`. */
  function DeqN(q: QueueState<Byte>, n: nat): (r: QueueState<Byte>)
    requires Wf(q, ByteQueueSize)
    ensures Wf(r, ByteQueueSize)
  {
    if n == 0 then q
    else
      var p := DeqN(q, n - 1);
      DequeuedWf(p, ByteQueueSize);
      Dequeued(p, ByteQueueSize)
  }

  /** The values those `n` calls of `deq` return, in order. */
  function DeqValues(q: QueueState<Byte>, n: nat): (vs: seq<Byte>)
    requires Wf(q, ByteQueueSize)
    ensures |vs| == n
  {
    if n == 0 then [] else DeqValues(q, n - 1) + [Front(DeqN(q, n - 1), ByteQueueSize)]
  }

  /** The byte queue after the new byte has been appended. */
  function WithByte(q: QueueState<Byte>, b: Byte): (r: QueueState<Byte>)
    requires Wf(q, ByteQueueSize)
    ensures Wf(r, ByteQueueSize)
  {
    EnqueuedWf(q, ByteQueueSize, b);
    Enqueued(q, ByteQueueSize, b)
  }

  /**
   * Whether the preamble and delimiter slots (raw slots 0, 1 and 2, read with
   * `peek`) hold the pattern and at least a full frame is buffered.
   */
  predicate FrameReady(q: QueueState<Byte>)
    requires Wf(q, ByteQueueSize)
  {
    q.slots[0] == PreamblePattern && q.slots[1] == PreamblePattern &&
    q.slots[PreambleSize] == SfdPattern && q.size >= PacketSize
  }

  /**
   * The copy loop moves every buffered byte into a 32-byte local buffer, so
   * it stays in bounds only when exactly one frame is buffered.
   */
  predicate ReceiveFits(q: QueueState<Byte>, b: Byte)
    requires Wf(q, ByteQueueSize)
  {
    FrameReady(WithByte(q, b)) ==> WithByte(q, b).size == PacketSize
  }

  datatype Reception = Reception(bytes: QueueState<Byte>, frame: Option<PacketData>)

  /**
   * What the receive branch of `poll` does with byte `b`: a preamble slot
   * that does not match discards one or two bytes from the front; a complete
   * frame is drained and its last 29 bytes become a packet.
   */
  function Received(q: QueueState<Byte>, b: Byte): (r: Reception)
    requires Wf(q, ByteQueueSize) && ReceiveFits(q, b)
    ensures Wf(r.bytes, ByteQueueSize)
  {
    var q1 := WithByte(q, b);
    if q1.slots[0] != PreamblePattern then Reception(DeqN(q1, 1), None)
    else if q1.slots[1] != PreamblePattern then Reception(DeqN(q1, 2), None)
    else if FrameReady(q1) then Reception(DeqN(q1, PacketSize), Some(DeqValues(q1, PacketSize)[PreambleSfdSize..]))
    else Reception(q1, None)
  }

  /** One `poll` step's effect on a byte queue: the byte read, if the port had one. */
  function Polled(q: QueueState<Byte>, input: Option<Byte>): (r: Reception)
    requires Wf(q, ByteQueueSize) && (input.Some? ==> ReceiveFits(q, input.value))
    ensures Wf(r.bytes, ByteQueueSize)
  {
    if input.Some? then Received(q, input.value) else Reception(q, None)
  }

  /** Draining a buffered frame returns its bytes in arrival order and empties the queue. */
  lemma {:induction false} DrainInOrder(q: QueueState<Byte>, n: nat)
    requires Wf(q, ByteQueueSize) && n <= q.size < ByteQueueSize
    ensures DeqValues(q, n) == Items(q, ByteQueueSize)[..n]
    ensures DeqN(q, n).size == q.size - n
    ensures Items(DeqN(q, n), ByteQueueSize) == Items(q, ByteQueueSize)[n..]
  {
    if n > 0 {
      DrainInOrder(q, n - 1);
      var p := DeqN(q, n - 1);
      DequeueRemovesFront(p, ByteQueueSize);
      assert Items(p, ByteQueueSize)[1..] == Items(q, ByteQueueSize)[n..];
    }
  }

  /**
   * The preamble test reads raw slots rather than the oldest bytes: on a
   * freshly constructed port (slots zero, head 0) the first 0xAA is thrown
   * away, because raw slot 1 still holds 0, and the head moves to slot 1.
   */
  lemma FirstPreambleByteDiscarded()
    ensures ReceiveFits(Empty(ByteQueueSize, 0), PreamblePattern)
    ensures Received(Empty(ByteQueueSize, 0), PreamblePattern).bytes.size == 0
    ensures Received(Empty(ByteQueueSize, 0), PreamblePattern).bytes.head == 1
    ensures Received(Empty(ByteQueueSize, 0), PreamblePattern).bytes.tail == 1
    ensures Received(Empty(ByteQueueSize, 0), PreamblePattern).bytes.slots[0] == PreamblePattern
    ensures Received(Empty(ByteQueueSize, 0), PreamblePattern).frame == None
  {
    var q1 := WithByte(Empty(ByteQueueSize, 0), PreamblePattern);
    assert q1 == QueueState(Empty(ByteQueueSize, 0).slots[0 := PreamblePattern], 0, 1, 1);
    assert q1.slots[1] == 0;
    assert DeqN(q1, 1) == QueueState(q1.slots, 1, 1, 0);
    assert DeqN(q1, 2) == DeqN(q1, 1);
  }

  // ---------------------------------------------------------------------
  // Sending: one packet onto the wire
  // ---------------------------------------------------------------------

  /** The 32 bytes `poll` writes for packet `pkt`: header, `size` data bytes, zero padding. */
  function Framed(pkt: Packet): (frame: seq<Byte>)
    requires pkt.size as int <= PacketDataSize
    ensures |frame| == PacketSize
    ensures frame[..PreambleSfdSize] == [PreamblePattern, PreamblePattern, SfdPattern]
    ensures frame[PreambleSfdSize..PreambleSfdSize + pkt.size as int] == pkt.data[..pkt.size]
    ensures forall i :: PreambleSfdSize + pkt.size as int <= i < PacketSize ==> frame[i] == 0
  {
    [PreamblePattern, PreamblePattern, SfdPattern] + pkt.data[..pkt.size] +
      seq(PacketDataSize - pkt.size as int, _ => 0)
  }

  /** The wire after the send branch of `poll` on a channel whose outgoing queue is `out`. */
  function Sent(wire: seq<Byte>, out: QueueState<Packet>): seq<Byte>
    requires Wf(out, MaxQueue) && (out.size != 0 ==> Front(out, MaxQueue).size as int <= PacketDataSize)
  {
    if out.size == 0 then wire else wire + Framed(Front(out, MaxQueue))
  }

  /** With a full data field, the bytes after the delimiter are exactly the packet's data. */
  lemma FramedFull(pkt: Packet)
    requires pkt.size as int == PacketDataSize
    ensures Framed(pkt)[PreambleSfdSize..] == pkt.data
  {
  }

  // ---------------------------------------------------------------------
  // A stream of bytes through the receive branch
  // ---------------------------------------------------------------------

  /** The byte queue after a stream of polls, and the packets' data they delivered. */
  datatype Delivery = Delivery(bytes: QueueState<Byte>, frames: seq<PacketData>)

  /** One more poll receiving byte `x`; `None` once some poll has overrun. */
  function Step(d: Option<Delivery>, x: Byte): (r: Option<Delivery>)
    requires d.Some? ==> Wf(d.value.bytes, ByteQueueSize)
    ensures r.Some? ==> Wf(r.value.bytes, ByteQueueSize)
  {
    match d
    case None => None
    case Some(d) =>
      if !ReceiveFits(d.bytes, x) then None
      else
        var r := Received(d.bytes, x);
        Some(Delivery(r.bytes, d.frames + if r.frame.Some? then [r.frame.value] else []))
  }

  /**
   * Receiving the bytes of `s` one poll at a time, oldest first; `None` when
   * some poll would overrun the 32-byte copy buffer.
   */
  function Feed(q: QueueState<Byte>, s: seq<Byte>): (d: Option<Delivery>)
    requires Wf(q, ByteQueueSize)
    ensures d.Some? ==> Wf(d.value.bytes, ByteQueueSize)
    decreases |s|
  {
    if s == [] then Some(Delivery(q, [])) else Step(Feed(q, s[..|s| - 1]), s[|s| - 1])
  }

  /** The frames delivered earlier, followed by those of a later stretch of polls. */
  function After(first: Delivery, later: Option<Delivery>): Option<Delivery>
  {
    if later.None? then None else Some(Delivery(later.value.bytes, first.frames + later.value.frames))
  }

  lemma StepAfter(first: Delivery, later: Option<Delivery>, x: Byte)
    requires later.Some? ==> Wf(later.value.bytes, ByteQueueSize)
    ensures Step(After(first, later), x) == After(first, Step(later, x))
  {
    if later.Some? && ReceiveFits(later.value.bytes, x) {
      var r := Received(later.value.bytes, x);
      var extra := if r.frame.Some? then [r.frame.value] else [];
      assert (first.frames + later.value.frames) + extra == first.frames + (later.value.frames + extra);
    }
  }

  /** Receiving `a` and then `b` is receiving `a + b`. */
  lemma {:induction false} FeedAppend(q: QueueState<Byte>, a: seq<Byte>, b: seq<Byte>)
    requires Wf(q, ByteQueueSize) && Feed(q, a).Some?
    ensures Feed(q, a + b) == After(Feed(q, a).value, Feed(Feed(q, a).value.bytes, b))
    decreases |b|
  {
    var da := Feed(q, a).value;
    if b == [] {
      assert a + b == a;
      assert da.frames + [] == da.frames;
    } else {
      var b', x := b[..|b| - 1], b[|b| - 1];
      FeedAppend(q, a, b');
      assert (a + b)[..|a + b| - 1] == a + b';
      assert (a + b)[|a + b| - 1] == x;
      StepAfter(da, Feed(da.bytes, b'), x);
    }
  }

  /** One byte arriving while the preamble slots match and under 31 bytes wait is only appended. */
  lemma ReceivedQuiet(q: QueueState<Byte>, x: Byte)
    requires Wf(q, ByteQueueSize) && q.slots[0] == PreamblePattern && q.slots[1] == PreamblePattern
    requires 2 <= q.tail < ByteQueueSize - 1 && q.size < PacketSize - 1
    ensures ReceiveFits(q, x)
    ensures Received(q, x) == Reception(QueueState(q.slots[q.tail := x], q.head, q.tail + 1, q.size + 1), None)
  {
    assert WithByte(q, x) == QueueState(q.slots[q.tail := x], q.head, q.tail + 1, q.size + 1);
  }

  /**
   * While raw slots 0 and 1 hold the preamble and fewer than 32 bytes are
   * buffered, received bytes are only appended: no frame is delivered and
   * nothing is popped.
   */
  lemma {:induction false} FeedQuiet(q: QueueState<Byte>, s: seq<Byte>, k: nat)
    requires Wf(q, ByteQueueSize) && q.slots[0] == PreamblePattern && q.slots[1] == PreamblePattern
    requires 2 <= q.tail && q.tail + k < ByteQueueSize && q.size + k < PacketSize && k <= |s|
    ensures Feed(q, s[..k]).Some? && Feed(q, s[..k]).value.frames == []
    ensures var b := Feed(q, s[..k]).value.bytes;
      b.head == q.head && b.size == q.size + k && b.tail == q.tail + k &&
      (forall p :: 0 <= p < q.tail ==> b.slots[p] == q.slots[p]) &&
      (forall i :: 0 <= i < k ==> b.slots[q.tail + i] == s[i])
  {
    if k > 0 {
      FeedQuiet(q, s, k - 1);
      assert s[..k][..k - 1] == s[..k - 1];
      var b := Feed(q, s[..k - 1]).value.bytes;
      ReceivedQuiet(b, s[k - 1]);
    }
  }

  /**
   * A frame arriving at a port whose raw slots 0 to 2 already hold the
   * header, with an empty byte queue far enough from the end of the ring, is
   * delivered whole: its last 29 bytes become one packet and the queue is
   * empty again.
   */
  lemma FrameRoundTrip(q: QueueState<Byte>, frame: seq<Byte>)
    requires Wf(q, ByteQueueSize) && q.size == 0 && 3 <= q.head && q.head + PacketSize <= ByteQueueSize
    requires q.slots[0] == PreamblePattern && q.slots[1] == PreamblePattern && q.slots[2] == SfdPattern
    requires |frame| == PacketSize
    ensures Feed(q, frame).Some?
    ensures |Feed(q, frame).value.frames| == 1 && Feed(q, frame).value.frames[0] == frame[PreambleSfdSize..]
    ensures Feed(q, frame).value.bytes.size == 0
  {
    var n := |frame| - 1;
    assert q.tail == q.head by {
      PosSmall(q.head, 0, ByteQueueSize);
    }
    FeedQuiet(q, frame, n);
    var b := Feed(q, frame[..n]).value.bytes;
    FrameArrives(q.head, b, frame);
  }

  /** The last byte of a frame completes it, and the whole frame is drained. */
  lemma FrameArrives(h: nat, b: QueueState<Byte>, frame: seq<Byte>)
    requires Wf(b, ByteQueueSize) && 3 <= h && h + PacketSize <= ByteQueueSize && |frame| == PacketSize
    requires b.head == h && b.size == PacketSize - 1 && b.tail == h + PacketSize - 1
    requires b.slots[0] == PreamblePattern && b.slots[1] == PreamblePattern && b.slots[2] == SfdPattern
    requires forall i :: 0 <= i < PacketSize - 1 ==> b.slots[h + i] == frame[i]
    ensures ReceiveFits(b, frame[PacketSize - 1])
    ensures Received(b, frame[PacketSize - 1]).frame.Some?
    ensures Received(b, frame[PacketSize - 1]).frame.value == frame[PreambleSfdSize..]
    ensures Received(b, frame[PacketSize - 1]).bytes.size == 0
  {
    var q1 := WithByte(b, frame[PacketSize - 1]);
    assert q1.head == h && q1.size == PacketSize && q1.slots == b.slots[b.tail := frame[PacketSize - 1]];
    assert FrameReady(q1);
    DrainInOrder(q1, PacketSize);
    forall i | 0 <= i < PacketSize
      ensures Items(q1, ByteQueueSize)[i] == frame[i]
    {
      PosSmall(h, i, ByteQueueSize);
    }
    assert Items(q1, ByteQueueSize)[..PacketSize] == frame;
  }

  /** What one port sends, a suitably placed receiving port delivers unchanged. */
  lemma PacketRoundTrip(q: QueueState<Byte>, pkt: Packet)
    requires Wf(q, ByteQueueSize) && q.size == 0 && 3 <= q.head && q.head + PacketSize <= ByteQueueSize
    requires q.slots[0] == PreamblePattern && q.slots[1] == PreamblePattern && q.slots[2] == SfdPattern
    requires pkt.size as int == PacketDataSize
    ensures Feed(q, Framed(pkt)).Some?
    ensures Feed(q, Framed(pkt)).value.frames == [pkt.data]
    ensures Feed(q, Framed(pkt)).value.bytes.size == 0
  {
    FrameRoundTrip(q, Framed(pkt));
    FramedFull(pkt);
  }

  /**
   * Because the first preamble byte is thrown away on a fresh port, the
   * first frame it receives is never delivered: 31 of its bytes stay
   * buffered.
   */
  lemma FreshPortMissesFirstFrame(frame: seq<Byte>)
    requires |frame| == PacketSize && frame[0] == PreamblePattern && frame[1] == PreamblePattern
    ensures Feed(Empty(ByteQueueSize, 0), frame).Some?
    ensures Feed(Empty(ByteQueueSize, 0), frame).value.frames == []
    ensures Feed(Empty(ByteQueueSize, 0), frame).value.bytes.size == PacketSize - 1
  {
    FreshFeed(frame, PacketSize);
    assert frame[..PacketSize] == frame;
  }

  /**
   * After the first `k` bytes of such a frame a fresh port holds `k - 1`
   * of them from raw slot 1 on, and has delivered nothing.
   */
  lemma {:induction false} FreshFeed(frame: seq<Byte>, k: nat)
    requires |frame| == PacketSize && frame[0] == PreamblePattern && frame[1] == PreamblePattern
    requires 2 <= k <= PacketSize
    ensures Feed(Empty(ByteQueueSize, 0), frame[..k]).Some?
    ensures Feed(Empty(ByteQueueSize, 0), frame[..k]).value.frames == []
    ensures var b := Feed(Empty(ByteQueueSize, 0), frame[..k]).value.bytes;
      b.head == 1 && b.tail == k && b.size == k - 1 && b.slots[0] == PreamblePattern && b.slots[1] == PreamblePattern
  {
    if k == 2 {
      FreshPreamble(frame[..2]);
    } else {
      FreshFeed(frame, k - 1);
      assert frame[..k][..k - 1] == frame[..k - 1];
      var b := Feed(Empty(ByteQueueSize, 0), frame[..k - 1]).value.bytes;
      ReceivedQuiet(b, frame[k - 1]);
    }
  }

  /** The two preamble bytes on a fresh port leave one byte buffered at raw slot 1. */
  lemma FreshPreamble(a: seq<Byte>)
    requires a == [PreamblePattern, PreamblePattern]
    ensures Feed(Empty(ByteQueueSize, 0), a).Some?
    ensures Feed(Empty(ByteQueueSize, 0), a).value.frames == []
    ensures var b := Feed(Empty(ByteQueueSize, 0), a).value.bytes;
      b.head == 1 && b.tail == 2 && b.size == 1 && b.slots[0] == PreamblePattern && b.slots[1] == PreamblePattern
  {
    var e := Empty(ByteQueueSize, 0);
    FirstPreambleByteDiscarded();
    assert a[..1] == [PreamblePattern] && a[..1][..0] == [];
    var b1 := Received(e, PreamblePattern).bytes;
    var none: seq<PacketData> := [];
    assert Feed(e, a[..1]) == Step(Some(Delivery(e, none)), PreamblePattern);
    assert none + none == none;
    assert Feed(e, a[..1]) == Some(Delivery(b1, none));
    var q2 := WithByte(b1, PreamblePattern);
    assert q2 == QueueState(b1.slots[1 := PreamblePattern], 1, 2, 1);
    assert !FrameReady(q2);
    assert Feed(e, a) == Step(Feed(e, a[..1]), PreamblePattern);
  }

  /** Every field of a porter except the control register it drives. */
  datatype Snapshot = Snapshot(
    inbox: seq<QueueState<Packet>>, outbox: seq<QueueState<Packet>>, inBytes: seq<QueueState<Byte>>,
    current: PorterState, next: PorterState, channel: Byte, wire: seq<Byte>)

  /**
   * `ray::porter`.  Its queues are members held by value, so they are fields
   * holding queue states that the methods replace, updated by the same
   * `Enqueued`/`Dequeued` functions `sky::queue` is proved to implement.
   */
  class Porter {
    /** `m_control`: a reference to the board's control register. */
    const control: ControlRegister.ControlRegister
    /** `m_in`: packets received, per channel. */
    var inbox: seq<QueueState<Packet>>
    /** `m_out`: packets waiting to be sent, per channel. */
    var outbox: seq<QueueState<Packet>>
    /** `m_in_bytes`: raw bytes received, per channel. */
    var inBytes: seq<QueueState<Byte>>
    var current: PorterState
    var next: PorterState
    var channel: Byte
    /** Everything written to the serial port. */
    var wire: seq<Byte>

    predicate Valid()
      reads this
    {
      |inbox| == MaxChannel && |outbox| == MaxChannel && |inBytes| == MaxChannel &&
      (forall c :: 0 <= c < MaxChannel ==>
        Wf(inbox[c], MaxQueue) && Wf(outbox[c], MaxQueue) && Wf(inBytes[c], ByteQueueSize)) &&
      channel as int < MaxChannel
    }

    function Snap(): Snapshot
      reads this
    {
      Snapshot(inbox, outbox, inBytes, current, next, channel, wire)
    }

    constructor (control: ControlRegister.ControlRegister)
      ensures Valid()
      ensures this.control == control && channel == 0 && current == Wait && next == Wait && wire == []
      ensures forall c :: 0 <= c < MaxChannel ==>
        inbox[c] == Empty(MaxQueue, EmptyPacket) && outbox[c] == Empty(MaxQueue, EmptyPacket) &&
        inBytes[c] == Empty(ByteQueueSize, 0)
    {
      this.control := control;
      var packets := Empty(MaxQueue, EmptyPacket);
      var bytes := Empty(ByteQueueSize, 0 as Byte);
      inbox := [packets, packets, packets, packets];
      outbox := [packets, packets, packets, packets];
      inBytes := [bytes, bytes, bytes, bytes];
      current, next, channel, wire := Wait, Wait, 0, [];
    }

    /** `is_wait`. */
    predicate IsWait()
      reads this
    {
      current == Wait
    }

    /** `is_receive`. */
    predicate IsReceive()
      reads this
    {
      current == Receive
    }

    /** `write`: queue a packet on its channel; channels 4 and above are ignored. */
    method Write(pkt: Packet)
      requires Valid()
      modifies this
      ensures Valid()
      ensures Snap() == if pkt.channel as int < MaxChannel
        then old(Snap()).(outbox := old(outbox)[pkt.channel := Enqueued(old(outbox)[pkt.channel], MaxQueue, pkt)])
        else old(Snap())
    {
      if pkt.channel as int >= MaxChannel {
        return;
      }
      EnqueuedWf(outbox[pkt.channel], MaxQueue, pkt);
      outbox := outbox[pkt.channel := Enqueued(outbox[pkt.channel], MaxQueue, pkt)];
    }

    /** `read`: the oldest received packet of a channel, or `packet{}` when there is none. */
    method Read(ch: Byte) returns (pkt: Packet)
      requires Valid()
      modifies this
      ensures Valid()
      ensures ch as int >= MaxChannel || old(inbox)[ch].size == 0 ==> pkt == EmptyPacket && Snap() == old(Snap())
      ensures ch as int < MaxChannel && old(inbox)[ch].size != 0 ==>
        pkt == Front(old(inbox)[ch], MaxQueue) &&
        Snap() == old(Snap()).(inbox := old(inbox)[ch := Dequeued(old(inbox)[ch], MaxQueue)])
    {
      if ch as int >= MaxChannel {
        return EmptyPacket;
      }
      if inbox[ch].size == 0 {
        return EmptyPacket;
      }
      pkt := Front(inbox[ch], MaxQueue);
      DequeuedWf(inbox[ch], MaxQueue);
      inbox := inbox[ch := Dequeued(inbox[ch], MaxQueue)];
    }

    /** The receive branch of `poll`, for the byte read from the port, if there was one. */
    method ReceiveInput(input: Option<Byte>)
      requires Valid() && (input.Some? ==> ReceiveFits(inBytes[channel], input.value))
      modifies this`inBytes, this`inbox
      ensures Valid()
      ensures var r := Polled(old(inBytes)[channel], input);
        inBytes == old(inBytes)[channel := r.bytes] &&
        inbox == if r.frame.Some?
          then old(inbox)[channel := Enqueued(old(inbox)[channel], MaxQueue, Packet(channel, PacketDataSize as Byte, r.frame.value))]
          else old(inbox)
    {
      if input.None? {
        return;
      }
      var r := Absorb(inBytes[channel], input.value);
      Deliver(r);
    }

    /** Store the channel's new byte queue, and queue the frame's packet if one was completed. */
    method Deliver(r: Reception)
      requires Valid() && Wf(r.bytes, ByteQueueSize)
      modifies this`inBytes, this`inbox
      ensures Valid()
      ensures inBytes == old(inBytes)[channel := r.bytes]
      ensures inbox == if r.frame.Some?
        then old(inbox)[channel := Enqueued(old(inbox)[channel], MaxQueue, Packet(channel, PacketDataSize as Byte, r.frame.value))]
        else old(inbox)
    {
      if r.frame.Some? {
        var pkt := Packet(channel, PacketDataSize as Byte, r.frame.value);
        EnqueuedWf(inbox[channel], MaxQueue, pkt);
        inbox := inbox[channel := Enqueued(inbox[channel], MaxQueue, pkt)];
      }
      inBytes := inBytes[channel := r.bytes];
    }

    /** The send branch of `poll`: the oldest packet of the channel goes out as one frame. */
    method SendNext()
      requires Valid()
      requires outbox[channel].size != 0 ==> Front(outbox[channel], MaxQueue).size as int <= PacketDataSize
      modifies this`outbox, this`wire
      ensures Valid()
      ensures var out := old(outbox)[channel];
        outbox == (if out.size == 0 then old(outbox) else old(outbox)[channel := Dequeued(out, MaxQueue)]) &&
        wire == Sent(old(wire), out)
    {
      if outbox[channel].size != 0 {
        var pkt := Front(outbox[channel], MaxQueue);
        DequeuedWf(outbox[channel], MaxQueue);
        outbox := outbox[channel := Dequeued(outbox[channel], MaxQueue)];
        var buffer := FrameBuffer(pkt);
        wire := wire + buffer[..];
      }
    }

    /**
     * `poll`: select the channel on the control register, receive the byte
     * the port has available (if any), send one queued packet, then move to
     * the next state.
     */
    method Poll(input: Option<Byte>)
      requires Valid() && control.installed
      requires input.Some? ==> ReceiveFits(inBytes[channel], input.value)
      requires outbox[channel].size != 0 ==> Front(outbox[channel], MaxQueue).size as int <= PacketDataSize
      modifies this`inBytes, this`inbox, this`outbox, this`wire, this`current, control
      ensures Valid()
      ensures control.buffer == SetBitLevel(old(control.buffer), ControlRegister.ComMask, channel)
      ensures control.written == old(control.written) + [control.buffer] && control.installed
      ensures var r := Polled(old(inBytes)[channel], input);
        inBytes == old(inBytes)[channel := r.bytes] &&
        inbox == if r.frame.Some?
          then old(inbox)[channel := Enqueued(old(inbox)[channel], MaxQueue, Packet(channel, PacketDataSize as Byte, r.frame.value))]
          else old(inbox)
      ensures var out := old(outbox)[channel];
        outbox == (if out.size == 0 then old(outbox) else old(outbox)[channel := Dequeued(out, MaxQueue)]) &&
        wire == Sent(old(wire), out)
      ensures current == next
    {
      control.SetComChannel(channel);
      ReceiveInput(input);
      SendNext();
      current := next;
    }
  }

  /**
   * The byte-queue work of the receive branch of `poll`: push the byte,
   * check the preamble, and take a whole frame off the queue once the
   * start-of-frame delimiter is in place.
   */
  method Absorb(q: QueueState<Byte>, b: Byte) returns (r: Reception)
    requires Wf(q, ByteQueueSize) && ReceiveFits(q, b)
    ensures Wf(r.bytes, ByteQueueSize)
    ensures r == Received(q, b)
  {
    var q1 := WithByte(q, b);
    var isPreambleOk;
    isPreambleOk, q1 := CheckPreamble(q1);
    r := Reception(q1, None);
    if isPreambleOk {
      var isSfdOk := q1.slots[PreambleSize] == SfdPattern;
      if isSfdOk && q1.size >= PacketSize {
        var data;
        data, q1 := DrainFrame(q1);
        r := Reception(q1, Some(data));
      }
    }
  }

  /**
   * The preamble loop of `poll` on the channel's byte queue: when raw slot
   * `i` (of the first two) does not hold the pattern, `i + 1` bytes are
   * popped from the front.  `pop_front`, which `sky::queue` does not
   * declare, is taken to be a `deq` whose value is discarded.
   */
  method CheckPreamble(q: QueueState<Byte>) returns (isPreambleOk: bool, q': QueueState<Byte>)
    requires Wf(q, ByteQueueSize)
    ensures Wf(q', ByteQueueSize)
    ensures isPreambleOk <==> q.slots[0] == PreamblePattern && q.slots[1] == PreamblePattern
    ensures q' == if q.slots[0] != PreamblePattern then DeqN(q, 1)
                  else if q.slots[1] != PreamblePattern then DeqN(q, 2)
                  else q
  {
    q' := q;
    isPreambleOk := true;
    var i := 0;
    while i < PreambleSize
      invariant i <= PreambleSize && q' == q
      invariant forall k :: 0 <= k < i ==> q.slots[k] == PreamblePattern
    {
      if q'.slots[i] == PreamblePattern {
        isPreambleOk := true;
      } else {
        var j := 0;
        while j <= i
          invariant j <= i + 1 && q' == DeqN(q, j)
        {
          DequeuedWf(q', ByteQueueSize);
          q' := Dequeued(q', ByteQueueSize);
          j := j + 1;
        }
        isPreambleOk := false;
        break;
      }
      i := i + 1;
    }
  }

  /**
   * The copy loop of `poll`: every buffered byte is dequeued into a 32-byte
   * buffer, and the 29 bytes after the delimiter are the packet's data.
   */
  method DrainFrame(q: QueueState<Byte>) returns (data: PacketData, q': QueueState<Byte>)
    requires Wf(q, ByteQueueSize) && q.size == PacketSize
    ensures Wf(q', ByteQueueSize) && q'.size == 0
    ensures q' == DeqN(q, PacketSize)
    ensures data == DeqValues(q, PacketSize)[PreambleSfdSize..]
    ensures data == Items(q, ByteQueueSize)[PreambleSfdSize..]
  {
    var buffer := new Byte[PacketSize](_ => 0);
    var size := q.size;
    q' := q;
    for k := 0 to size
      invariant q' == DeqN(q, k)
      invariant buffer[..k] == DeqValues(q, k)
    {
      buffer[k] := Front(q', ByteQueueSize);
      DequeuedWf(q', ByteQueueSize);
      q' := Dequeued(q', ByteQueueSize);
    }
    DrainInOrder(q, PacketSize);
    data := buffer[PreambleSfdSize..];
  }

  /** The frame buffer of the send branch: header, then `memcpy` of `size` data bytes. */
  method FrameBuffer(pkt: Packet) returns (buffer: array<Byte>)
    requires pkt.size as int <= PacketDataSize
    ensures fresh(buffer) && buffer[..] == Framed(pkt)
  {
    buffer := new Byte[PacketSize](_ => 0);
    buffer[0] := PreamblePattern;
    buffer[1] := PreamblePattern;
    buffer[2] := SfdPattern;
    for k := 0 to pkt.size as int
      invariant buffer[0] == PreamblePattern && buffer[1] == PreamblePattern && buffer[2] == SfdPattern
      invariant forall i :: 0 <= i < k ==> buffer[PreambleSfdSize + i] == pkt.data[i]
      invariant forall i :: PreambleSfdSize + k <= i < PacketSize ==> buffer[i] == 0
    {
      buffer[PreambleSfdSize + k] := pkt.data[k];
    }
    forall i | 0 <= i < PacketSize
      ensures buffer[i] == Framed(pkt)[i]
    {
      FramedAt(pkt, i);
    }
  }

  /** Byte `i` of a frame. */
  lemma FramedAt(pkt: Packet, i: int)
    requires pkt.size as int <= PacketDataSize && 0 <= i < PacketSize
    ensures Framed(pkt)[i] ==
      if i < PreambleSfdSize then [PreamblePattern, PreamblePattern, SfdPattern][i]
      else if i < PreambleSfdSize + pkt.size as int then pkt.data[i - PreambleSfdSize]
      else 0
  {
    var frame := Framed(pkt);
    if i < PreambleSfdSize {
      assert frame[i] == frame[..PreambleSfdSize][i];
    } else if i < PreambleSfdSize + pkt.size as int {
      assert frame[i] == frame[PreambleSfdSize..PreambleSfdSize + pkt.size as int][i - PreambleSfdSize];
    }
  }
}
