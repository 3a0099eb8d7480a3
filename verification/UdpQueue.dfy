/** The UDP send queue: datagrams the kernel would not take are kept in order and flushed
    later, several equal-sized ones at a time when segmentation offload works. Every
    system call is an entry of an oracle; `wire` records the datagrams that left. */
module UdpQueue {

  type Bytes = seq<bv8>

  datatype Packet = Packet(data: Bytes, ecn: nat)

  /** What one sendmsg did: all bytes taken, fewer taken, EAGAIN/EWOULDBLOCK/ENOBUFS,
      EINVAL/ENOPROTOOPT/ENOTSUP, or another error. */
  datatype Outcome = Sent | Partial | WouldBlock | Unsupported | Failed

  const MAX_QUEUED_PACKETS := 1024
  const MAX_QUEUED_BYTES := 4 * 1024 * 1024
  const MAX_SEGMENT := 65535
  const MAX_BATCH := 16

  function QueuedSize(queue: seq<Packet>): nat {
    if queue == [] then 0 else |queue[0].data| + QueuedSize(queue[1..])
  }

  lemma {:induction false} QueuedSizeAppend(a: seq<Packet>, b: seq<Packet>)
    ensures QueuedSize(a + b) == QueuedSize(a) + QueuedSize(b)
  {
    if a == [] {
      assert a + b == b;
    } else {
      assert (a + b)[1..] == a[1..] + b;
      QueuedSizeAppend(a[1..], b);
    }
  }

  lemma QueuedSizeTail(queue: seq<Packet>)
    requires queue != []
    ensures QueuedSize(queue) == |queue[0].data| + QueuedSize(queue[1..])
  {
  }

  lemma QueuedSizeOne(packet: Packet)
    ensures QueuedSize([packet]) == |packet.data|
  {
  }

  // ---------------------------------------------------------------- segmentation offload

  predicate Uniform(packets: seq<Packet>, size: nat, ecn: nat) {
    forall i :: 0 <= i < |packets| ==> |packets[i].data| == size && packets[i].ecn == ecn
  }

  function Concat(packets: seq<Packet>): Bytes {
    if packets == [] then [] else packets[0].data + Concat(packets[1..])
  }

  lemma {:induction false} ConcatAppend(a: seq<Packet>, b: seq<Packet>)
    ensures Concat(a + b) == Concat(a) + Concat(b)
  {
    if a == [] {
      assert a + b == b;
    } else {
      assert (a + b)[1..] == a[1..] + b;
      ConcatAppend(a[1..], b);
      assert a[0].data + (Concat(a[1..]) + Concat(b)) == (a[0].data + Concat(a[1..])) + Concat(b);
    }
  }

  /** What the kernel does with an aggregate: datagrams of the segment size, the last one
      possibly shorter. */
  function Segmented(data: Bytes, size: nat, ecn: nat): seq<Packet>
    requires size > 0
    decreases |data|
  {
    if data == [] then []
    else if |data| <= size then [Packet(data, ecn)]
    else [Packet(data[..size], ecn)] + Segmented(data[size..], size, ecn)
  }

  /** Segmenting an aggregate of equal-sized packets gives those packets back. */
  lemma {:induction false} SegmentedConcat(packets: seq<Packet>, size: nat, ecn: nat)
    requires size > 0 && Uniform(packets, size, ecn)
    ensures Segmented(Concat(packets), size, ecn) == packets
  {
    if packets != [] {
      var data := Concat(packets);
      var rest := Concat(packets[1..]);
      SegmentedConcat(packets[1..], size, ecn);
      assert data == packets[0].data + rest;
      assert data[..size] == packets[0].data && data[size..] == rest;
      assert packets == [packets[0]] + packets[1..];
      assert packets[0] == Packet(packets[0].data, ecn);
      if |data| <= size {
        assert rest == [] && packets[1..] == [];
        assert data == packets[0].data;
      }
    }
  }

  /** Length of the longest run of packets like the first, at most 16. */
  ghost predicate BatchLength(queue: seq<Packet>, n: nat)
    requires queue != []
  {
    && 1 <= n <= |queue| && n <= MAX_BATCH
    && Uniform(queue[..n], |queue[0].data|, queue[0].ecn)
    && (n < |queue| && n < MAX_BATCH ==>
          queue[n].ecn != queue[0].ecn || |queue[n].data| != |queue[0].data|)
  }

  method CountBatch(queue: seq<Packet>) returns (count: nat)
    requires queue != []
    ensures BatchLength(queue, count)
  {
    count := 1;
    while count < |queue| && count < MAX_BATCH
      invariant 1 <= count <= |queue| && count <= MAX_BATCH
      invariant Uniform(queue[..count], |queue[0].data|, queue[0].ecn)
    {
      if queue[count].ecn != queue[0].ecn || |queue[count].data| != |queue[0].data| { return; }
      count := count + 1;
    }
  }

  method Aggregate(packets: seq<Packet>) returns (aggregate: Bytes)
    ensures aggregate == Concat(packets)
  {
    aggregate := [];
    var i := 0;
    assert packets[..0] == [];
    while i < |packets|
      invariant i <= |packets|
      invariant aggregate == Concat(packets[..i])
    {
      assert packets[..i + 1] == packets[..i] + [packets[i]];
      ConcatAppend(packets[..i], [packets[i]]);
      assert Concat([packets[i]]) == packets[i].data + [];
      aggregate := aggregate + packets[i].data;
      i := i + 1;
    }
    assert packets[..|packets|] == packets;
  }

  // ---------------------------------------------------------------- the socket

  predicate AllEqual(queue: seq<Packet>, packet: Packet) { forall i :: 0 <= i < |queue| ==> queue[i] == packet }

  lemma {:induction false} MovesThrough(queue: seq<Packet>, packet: Packet)
    ensures [packet] + queue == queue + [packet] <==> AllEqual(queue, packet)
  {
    if [packet] + queue == queue + [packet] {
      forall i | 0 <= i < |queue| ensures queue[i] == packet { ShiftedEqual(queue, packet, i); }
    }
  }

  lemma {:induction false} ShiftedEqual(queue: seq<Packet>, packet: Packet, i: nat)
    requires [packet] + queue == queue + [packet] && i < |queue|
    ensures queue[i] == packet
  {
    assert (queue + [packet])[i] == ([packet] + queue)[i];
    if i > 0 { ShiftedEqual(queue, packet, i - 1); }
  }

  /** A datagram that is sent at once takes its place behind the queue exactly when the
      queue holds nothing else. */
  lemma SentInTurn(wire: seq<Packet>, queue: seq<Packet>, packet: Packet)
    ensures wire + [packet] + queue == wire + queue + [packet] <==> AllEqual(queue, packet)
  {
    hide AllEqual;
    MovesThrough(queue, packet);
    assert wire + [packet] + queue == wire + ([packet] + queue);
    assert wire + queue + [packet] == wire + (queue + [packet]);
    var a, b := wire + ([packet] + queue), wire + (queue + [packet]);
    assert a[|wire|..] == [packet] + queue && b[|wire|..] == queue + [packet];
  }

  /** A prefix of the queue `was` has moved to the wire, in order. */
  ghost predicate Progress(was: seq<Packet>, wasWire: seq<Packet>, queue: seq<Packet>, wire: seq<Packet>) {
    && |queue| <= |was|
    && var sent := |was| - |queue|;
       queue == was[sent..] && wire == wasWire + was[..sent]
  }

  lemma NothingSent(queue: seq<Packet>, wire: seq<Packet>)
    ensures Progress(queue, wire, queue, wire)
  {
    assert queue[0..] == queue && wire + queue[..0] == wire;
  }

  lemma ProgressStep(was: seq<Packet>, wasWire: seq<Packet>, queue: seq<Packet>, wire: seq<Packet>, k: nat)
    requires Progress(was, wasWire, queue, wire) && k <= |queue|
    ensures Progress(was, wasWire, queue[k..], wire + queue[..k])
  {
    var sent := |was| - |queue|;
    assert was[..sent] + queue[..k] == was[..sent + k];
    assert wasWire + was[..sent] + queue[..k] == wasWire + (was[..sent] + queue[..k]);
  }

  predicate NonEmpty(queue: seq<Packet>) { forall i :: 0 <= i < |queue| ==> queue[i].data != [] }

  class UdpSocket {
    var sendQueue: seq<Packet>
    var queuedBytes: nat
    var gsoSupported: bool
    ghost var wire: seq<Packet>

    ghost predicate Valid()
      reads this
    {
      && queuedBytes == QueuedSize(sendQueue)
      && |sendQueue| <= MAX_QUEUED_PACKETS
      && queuedBytes <= MAX_QUEUED_BYTES
      && NonEmpty(sendQueue)
    }

    constructor ()
      ensures Valid() && sendQueue == [] && gsoSupported && wire == []
    {
      sendQueue, queuedBytes, gsoSupported, wire := [], 0, true, [];
    }

    /** Sends at once, or queues when the kernel is busy and there is room. */
    method Send(packet: Packet, outcome: Outcome) returns (ok: bool)
      requires Valid()
      modifies this`sendQueue, this`queuedBytes, this`wire
      ensures Valid()
      ensures packet.data == [] ==> !ok && wire == old(wire) && sendQueue == old(sendQueue)
      ensures packet.data != [] && outcome == Sent ==>
                ok && wire == old(wire) + [packet] && sendQueue == old(sendQueue)
      ensures packet.data != [] && outcome != Sent ==> wire == old(wire)
      ensures packet.data != [] && outcome != Sent ==>
                (ok <==> outcome == WouldBlock && |old(sendQueue)| < MAX_QUEUED_PACKETS
                         && old(queuedBytes) + |packet.data| <= MAX_QUEUED_BYTES)
      ensures packet.data != [] && outcome != Sent ==>
                sendQueue == if ok then old(sendQueue) + [packet] else old(sendQueue)
      ensures ok ==>
                (wire + sendQueue == old(wire + sendQueue) + [packet] <==>
                 outcome == WouldBlock || AllEqual(old(sendQueue), packet))
    {
      if packet.data == [] { return false; }
      SentInTurn(wire, sendQueue, packet);
      assert wire + (sendQueue + [packet]) == wire + sendQueue + [packet];
      if outcome == Sent {
        wire := wire + [packet];
        return true;
      }
      if outcome != WouldBlock { return false; }
      if |sendQueue| >= MAX_QUEUED_PACKETS || queuedBytes + |packet.data| > MAX_QUEUED_BYTES { return false; }
      QueuedSizeAppend(sendQueue, [packet]);
      QueuedSizeOne(packet);
      sendQueue := sendQueue + [packet];
      queuedBytes := queuedBytes + |packet.data|;
      return true;
    }

    /** Drops the first `count` queued packets. */
    method PopFront(count: nat)
      requires Valid() && count <= |sendQueue|
      modifies this`sendQueue, this`queuedBytes
      ensures Valid() && sendQueue == old(sendQueue)[count..]
    {
      hide QueuedSize;
      var i := 0;
      while i < count
        invariant i <= count && Valid()
        invariant sendQueue == old(sendQueue)[i..] && count <= |old(sendQueue)|
      {
        QueuedSizeTail(sendQueue);
        queuedBytes := queuedBytes - |sendQueue[0].data|;
        sendQueue := sendQueue[1..];
        i := i + 1;
      }
    }

    /** The kernel took the aggregate of the first `count` packets. */
    method AggregateSent(count: nat, ghost aggregate: Bytes)
      requires Valid() && sendQueue != [] && 1 <= count <= |sendQueue|
      requires Uniform(sendQueue[..count], |sendQueue[0].data|, sendQueue[0].ecn)
      requires aggregate == Concat(sendQueue[..count])
      modifies this`sendQueue, this`queuedBytes, this`wire
      ensures Valid() && sendQueue == old(sendQueue)[count..]
      ensures wire == old(wire) + old(sendQueue)[..count]
    {
      hide Concat, Segmented, QueuedSize, Uniform;
      SegmentedConcat(sendQueue[..count], |sendQueue[0].data|, sendQueue[0].ecn);
      wire := wire + Segmented(aggregate, |sendQueue[0].data|, sendQueue[0].ecn);
      PopFront(count);
    }

    /** The kernel took the first packet. */
    method FrontSent()
      requires Valid() && sendQueue != []
      modifies this`sendQueue, this`queuedBytes, this`wire
      ensures Valid() && sendQueue == old(sendQueue)[1..]
      ensures wire == old(wire) + old(sendQueue)[..1]
    {
      hide QueuedSize;
      wire := wire + [sendQueue[0]];
      PopFront(1);
    }

    /** Flushing with aggregates puts on the wire exactly what sending one by one would:
        a prefix of the queue, in order; the rest stays queued, in order. */
    method FlushSendQueue(oracle: nat -> Outcome) returns (ok: bool, calls: nat)
      requires Valid()
      modifies this
      ensures Valid()
      ensures Progress(old(sendQueue), old(wire), sendQueue, wire)
      ensures ok ==> sendQueue == [] || (calls > 0 && oracle(calls - 1) == WouldBlock)
      ensures !ok ==> sendQueue != [] && calls > 0 && oracle(calls - 1) in {Partial, Unsupported, Failed}
      ensures gsoSupported ==> old(gsoSupported)
      ensures old(gsoSupported) && !gsoSupported ==> exists i :: 0 <= i < calls && oracle(i) == Unsupported
      ensures calls <= |old(sendQueue)| - |sendQueue| + 2
    {
      hide QueuedSize, Concat, Segmented, Uniform, Progress;
      calls := 0;
      ghost var was, wasWire, wasGso := sendQueue, wire, gsoSupported;
      assert Progress(was, wasWire, sendQueue, wire) by { NothingSent(was, wasWire); }
      while sendQueue != []
        invariant Valid() && |sendQueue| <= |was|
        invariant Progress(was, wasWire, sendQueue, wire)
        invariant gsoSupported ==> wasGso
        invariant wasGso && !gsoSupported ==> exists i :: 0 <= i < calls && oracle(i) == Unsupported
        invariant calls <= |was| - |sendQueue| + if wasGso && !gsoSupported then 1 else 0
        decreases gsoSupported, |sendQueue|
      {
        var packet := sendQueue[0];
        if gsoSupported && |packet.data| <= MAX_SEGMENT && |sendQueue| > 1 {
          var count := CountBatch(sendQueue);
          if count > 1 {
            var aggregate := Aggregate(sendQueue[..count]);
            var outcome := oracle(calls);
            calls := calls + 1;
            if outcome == WouldBlock { return true, calls; }
            if outcome == Unsupported {
              gsoSupported := false;
              continue;
            }
            if outcome != Sent { return false, calls; }
            ProgressStep(was, wasWire, sendQueue, wire, count);
            AggregateSent(count, aggregate);
            continue;
          }
        }
        var outcome := oracle(calls);
        calls := calls + 1;
        if outcome == WouldBlock { return true, calls; }
        if outcome != Sent { return false, calls; }
        ProgressStep(was, wasWire, sendQueue, wire, 1);
        FrontSent();
      }
      return true, calls;
    }
  }

}
