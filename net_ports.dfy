/**
 * The UDP port demultiplexer of the xv6 kernel (kernel/net.c): a fixed table
 * of NPorts entries, each owning a ring of QueueSize packet slots.
 * `bind` claims an entry, `ip_rx` enqueues into it (or drops the packet),
 * `recv` dequeues from it.
 */
module NetPorts {
  import opened Bytes

  const NPorts := 32
  const QueueSize := 16
  /** Capacity of one packet slot (`char data[2048]`). */
  const MaxPayload := 2048
  /** Size of the UDP header (RFC 768). */
  const UdpHeaderLen := 8
  /** IP protocol number of UDP. */
  const IpProtoUdp := 17

  type U8 = x: int | 0 <= x < 0x100
  type U16 = x: int | 0 <= x < 0x1_0000
  type U32 = x: int | 0 <= x < 0x1_0000_0000

  /** One slot of a port's queue (`struct packet`). */
  datatype Packet = Packet(data: seq<byte>, len: int, srcIp: U32, srcPort: U16)

  /** The bookkeeping part of `struct port_entry`; the slots live in `PortTable.queues`. */
  datatype PortEntry = PortEntry(bound: bool, port: U16, head: int, tail: int, count: int)

  const Unbound := PortEntry(false, 0, 0, 0, 0)

  predicate PacketValid(p: Packet) {
    0 <= p.len <= MaxPayload && |p.data| == p.len
  }

  /** Ring bookkeeping: indices in range, count bounded, tail = head + count (mod QueueSize). */
  predicate EntryValid(e: PortEntry) {
    && 0 <= e.head < QueueSize
    && 0 <= e.tail < QueueSize
    && 0 <= e.count <= QueueSize
    && e.tail == (e.head + e.count) % QueueSize
  }

  predicate Matches(e: PortEntry, port: int) {
    e.bound && e.port == port
  }

  /** No two bound entries carry the same port number. */
  predicate UniquePorts(es: seq<PortEntry>) {
    forall i, j :: 0 <= i < |es| && 0 <= j < |es| && es[i].bound && es[j].bound && es[i].port == es[j].port ==> i == j
  }

  /** Index of the first bound entry for `port`, or -1 when the port is not bound. */
  function FindBound(es: seq<PortEntry>, port: int): (r: int)
    ensures -1 <= r < |es|
    ensures r == -1 <==> forall j :: 0 <= j < |es| ==> !Matches(es[j], port)
    ensures r >= 0 ==> Matches(es[r], port) && forall j :: 0 <= j < r ==> !Matches(es[j], port)
  {
    if |es| == 0 then -1
    else if Matches(es[0], port) then 0
    else var r := FindBound(es[1..], port); if r == -1 then -1 else r + 1
  }

  /** Index of the lowest unbound entry, or -1 when every entry is bound. */
  function FirstFree(es: seq<PortEntry>): (r: int)
    ensures -1 <= r < |es|
    ensures r == -1 <==> forall j :: 0 <= j < |es| ==> es[j].bound
    ensures r >= 0 ==> !es[r].bound && forall j :: 0 <= j < r ==> es[j].bound
  {
    if |es| == 0 then -1
    else if !es[0].bound then 0
    else var r := FirstFree(es[1..]); if r == -1 then -1 else r + 1
  }

  /** Payload length of a datagram whose UDP length field is `udpLen` (may be negative). */
  function PayloadLen(udpLen: U16): int {
    udpLen - UdpHeaderLen
  }

  /** The length check of `ip_rx`: the payload must fit one slot. */
  predicate PayloadLenOk(udpLen: U16) {
    0 <= PayloadLen(udpLen) <= MaxPayload
  }

  /** Why `ip_rx` kept or dropped a packet. */
  datatype RxVerdict = NotUdp | BadLength | NoPort | QueueFull | Queued

  /** Outcome of `sys_recv`: -1, a wait for a packet, or the bytes copied out. */
  datatype RecvResult =
    | Failed
    | Blocked
    | Copied(n: int, data: seq<byte>, srcIp: U32, srcPort: U16)

  /** The packets held by a ring, oldest first: `count` slots starting at `head`. */
  function RingContents(e: PortEntry, slots: seq<Packet>): (q: seq<Packet>)
    requires EntryValid(e) && |slots| == QueueSize
    ensures |q| == e.count
  {
    seq(e.count, k requires 0 <= k < e.count => slots[(e.head + k) % QueueSize])
  }

  /** Writing slot `tail` and advancing `tail` appends exactly one packet to the ring. */
  lemma EnqueueAppends(e: PortEntry, slots: seq<Packet>, p: Packet)
    requires EntryValid(e) && |slots| == QueueSize && e.count < QueueSize
    ensures var e' := e.(tail := (e.tail + 1) % QueueSize, count := e.count + 1);
      && EntryValid(e')
      && RingContents(e', slots[e.tail := p]) == RingContents(e, slots) + [p]
  {
    var e' := e.(tail := (e.tail + 1) % QueueSize, count := e.count + 1);
    var q, q' := RingContents(e, slots), RingContents(e', slots[e.tail := p]);
    AdvanceSlot(e.head + e.count);
    forall k | 0 <= k < e.count
      ensures q'[k] == q[k]
    {
      SlotsDistinct(e.head, k, e.count);
    }
    assert q'[e.count] == p;
    assert q' == q + [p];
  }

  /** Two positions fewer than QueueSize apart fall in different slots. */
  lemma SlotsDistinct(h: int, k: int, c: int)
    requires 0 <= h < QueueSize && 0 <= k < c < QueueSize
    ensures (h + k) % QueueSize != (h + c) % QueueSize
  {
  }

  /** Advancing a slot index is advancing the position it came from. */
  lemma AdvanceSlot(a: int)
    requires 0 <= a
    ensures (a % QueueSize + 1) % QueueSize == (a + 1) % QueueSize
  {
  }

  /** Advancing `head` removes exactly the oldest packet from the ring. */
  lemma DequeueRemovesOldest(e: PortEntry, slots: seq<Packet>)
    requires EntryValid(e) && |slots| == QueueSize && e.count > 0
    ensures var e' := e.(head := (e.head + 1) % QueueSize, count := e.count - 1);
      && EntryValid(e')
      && RingContents(e, slots)[0] == slots[e.head]
      && RingContents(e', slots) == RingContents(e, slots)[1..]
  {
    var e' := e.(head := (e.head + 1) % QueueSize, count := e.count - 1);
    NextSlot(e.head, e.count - 1);
    var q, q' := RingContents(e, slots), RingContents(e', slots);
    assert e.head % QueueSize == e.head;
    assert q[0] == slots[e.head];
    forall k | 0 <= k < e.count - 1
      ensures q'[k] == q[k + 1]
    {
      NextSlot(e.head, k);
    }
    assert q' == q[1..];
  }

  /** Starting one slot later is the same as counting one slot further. */
  lemma NextSlot(h: int, k: int)
    requires 0 <= h < QueueSize && 0 <= k
    ensures ((h + 1) % QueueSize + k) % QueueSize == (h + 1 + k) % QueueSize
  {
    if h + 1 == QueueSize {
      assert (QueueSize + k) % QueueSize == k % QueueSize;
    }
  }

  /** The queue of every entry of a table. */
  function Contents(es: seq<PortEntry>, slots: seq<seq<Packet>>): (qs: seq<seq<Packet>>)
    requires |slots| == |es|
    requires forall i :: 0 <= i < |es| ==> EntryValid(es[i]) && |slots[i]| == QueueSize
    ensures |qs| == |es|
  {
    seq(|es|, i requires 0 <= i < |es| => RingContents(es[i], slots[i]))
  }

  class PortTable {
    var ports: array<PortEntry>
    /** `queues[i, s]` is slot s of `ports[i].queue`. */
    var queues: array2<Packet>

    ghost predicate Valid()
      reads this, ports, queues
    {
      && ports.Length == NPorts
      && queues.Length0 == NPorts && queues.Length1 == QueueSize
      && (forall i :: 0 <= i < NPorts ==> EntryValid(ports[i]))
      && UniquePorts(ports[..])
      && (forall i, s :: 0 <= i < NPorts && 0 <= s < QueueSize ==> PacketValid(queues[i, s]))
    }

    /** The slot arrays, row by row. */
    ghost function Slots(): (rows: seq<seq<Packet>>)
      reads this, queues
      requires queues.Length0 == NPorts && queues.Length1 == QueueSize
      ensures |rows| == NPorts
      ensures forall i :: 0 <= i < NPorts ==> |rows[i]| == QueueSize
      ensures forall i, s :: 0 <= i < NPorts && 0 <= s < QueueSize ==> rows[i][s] == queues[i, s]
    {
      var q := queues;
      seq(NPorts, i requires 0 <= i < NPorts reads q =>
        seq(QueueSize, s requires 0 <= s < QueueSize reads q => q[i, s]))
    }

    /** What the table holds: for entry i, the packets queued on it, oldest first. */
    ghost function Queues(): (qs: seq<seq<Packet>>)
      reads this, ports, queues
      requires Valid()
      ensures |qs| == NPorts
    {
      Contents(ports[..], Slots())
    }

    /** `netinit`: every entry unbound with an empty ring. */
    constructor ()
      ensures Valid() && fresh(ports) && fresh(queues)
      ensures forall i :: 0 <= i < NPorts ==> ports[i] == Unbound
      ensures forall i :: 0 <= i < NPorts ==> Queues()[i] == []
    {
      var es := new PortEntry[NPorts];
      for i := 0 to NPorts
        invariant forall j :: 0 <= j < i ==> es[j] == Unbound
      {
        es[i] := Unbound;
      }
      ports := es;
      queues := new Packet[NPorts, QueueSize]((i, s) => Packet([], 0, 0, 0));
    }

    /** The scan `ip_rx` and `sys_recv` make for the entry bound to `port`: its index, or -1. */
    method Lookup(port: int) returns (pe: int)
      requires Valid()
      ensures pe == FindBound(ports[..], port)
    {
      for i := 0 to NPorts
        invariant forall j :: 0 <= j < i ==> !Matches(ports[j], port)
      {
        if ports[i].bound && ports[i].port == port {
          return i;
        }
      }
      return -1;
    }

    /** `sys_bind`: 0 on success (including an already bound port), -1 otherwise. */
    method Bind(portArg: int) returns (r: int)
      requires Valid()
      modifies ports
      ensures Valid()
      ensures !(0 <= portArg <= 65535) ==> r == -1 && ports[..] == old(ports[..])
      ensures 0 <= portArg <= 65535 && FindBound(old(ports[..]), portArg) >= 0 ==>
        r == 0 && ports[..] == old(ports[..])
      ensures 0 <= portArg <= 65535 && FindBound(old(ports[..]), portArg) == -1 ==>
        var f := FirstFree(old(ports[..]));
        && (f == -1 ==> r == -1 && ports[..] == old(ports[..]))
        && (f >= 0 ==> r == 0 && ports[..] == old(ports[..])[f := PortEntry(true, portArg, 0, 0, 0)]
                          && Queues() == old(Queues())[f := []])
      ensures 0 <= portArg <= 65535 && r == 0 ==> FindBound(ports[..], portArg) >= 0
    {
      if portArg < 0 || portArg > 65535 {
        return -1;
      }
      var port: U16 := portArg;

      for i := 0 to NPorts
        invariant forall j :: 0 <= j < i ==> !Matches(ports[j], port)
      {
        if ports[i].bound && ports[i].port == port {
          return 0;
        }
      }

      for i := 0 to NPorts
        invariant forall j :: 0 <= j < i ==> ports[j].bound
      {
        if !ports[i].bound {
          ports[i] := PortEntry(true, port, 0, 0, 0);
          assert ports[..] == old(ports[..])[i := PortEntry(true, port, 0, 0, 0)];
          assert Matches(ports[..][i], port);
          assert Queues() == old(Queues())[i := []];
          return 0;
        }
      }
      return -1;
    }

    /** `sys_unbind` is a stub: it returns 0 and leaves the table alone. */
    method Unbind(portArg: int) returns (r: int)
      ensures r == 0
    {
      r := 0;
    }

    /** The enqueue step of `ip_rx`: write slot `tail` of entry `pe`, advance `tail`, bump `count`. */
    method EnqueueAt(pe: int, pkt: Packet)
      requires Valid() && 0 <= pe < NPorts && ports[pe].count < QueueSize && PacketValid(pkt)
      modifies ports, queues
      ensures Valid()
      ensures ports[..] == old(ports[..])[pe := old(ports[pe]).(tail := (old(ports[pe].tail) + 1) % QueueSize,
                                                              count := old(ports[pe].count) + 1)]
      ensures Slots() == old(Slots())[pe := old(Slots())[pe][old(ports[pe].tail) := pkt]]
      ensures Queues() == old(Queues())[pe := old(Queues())[pe] + [pkt]]
    {
      var e := ports[pe];
      ghost var es0, rows0 := ports[..], Slots();
      queues[pe, e.tail] := pkt;
      ports[pe] := e.(tail := (e.tail + 1) % QueueSize, count := e.count + 1);
      ghost var es1, rows1 := ports[..], Slots();
      assert es1 == es0[pe := ports[pe]];
      forall j | 0 <= j < NPorts
        ensures rows1[j] == rows0[pe := rows0[pe][e.tail := pkt]][j]
      {
        assert forall s :: 0 <= s < QueueSize ==> rows1[j][s] == if (j, s) == (pe, e.tail) then pkt else rows0[j][s];
      }
      assert UniquePorts(es1) by {
        assert forall j :: 0 <= j < NPorts ==> es1[j].bound == es0[j].bound && es1[j].port == es0[j].port;
      }
      EnqueueAppends(e, rows0[pe], pkt);
      assert Contents(es1, rows1) == Contents(es0, rows0)[pe := Contents(es0, rows0)[pe] + [pkt]];
    }

    /** The dequeue of `sys_recv`: take the packet at `head` and advance `head`. */
    method DequeueAt(pe: int) returns (pkt: Packet)
      requires Valid() && 0 <= pe < NPorts && ports[pe].count > 0
      modifies ports
      ensures Valid()
      ensures pkt == old(Queues())[pe][0] && PacketValid(pkt)
      ensures ports[..] == old(ports[..])[pe := old(ports[pe]).(head := (old(ports[pe].head) + 1) % QueueSize,
                                                              count := old(ports[pe].count) - 1)]
      ensures Queues() == old(Queues())[pe := old(Queues())[pe][1..]]
    {
      var e := ports[pe];
      pkt := queues[pe, e.head];
      ghost var es0, rows := ports[..], Slots();
      ports[pe] := e.(head := (e.head + 1) % QueueSize, count := e.count - 1);
      ghost var es1 := ports[..];
      assert es1 == es0[pe := ports[pe]];
      assert UniquePorts(es1) by {
        assert forall j :: 0 <= j < NPorts ==> es1[j].bound == es0[j].bound && es1[j].port == es0[j].port;
      }
      DequeueRemovesOldest(e, rows[pe]);
      assert Contents(es1, rows) == Contents(es0, rows)[pe := Contents(es0, rows)[pe][1..]];
    }

    /**
     * `ip_rx` after the headers are parsed. `body` is the rest of the receive
     * buffer after the UDP header (a 4096-byte page, so at least MaxPayload bytes).
     */
    method IpRx(proto: U8, dport: U16, sport: U16, srcIp: U32, udpLen: U16, body: seq<byte>)
      returns (v: RxVerdict)
      requires Valid()
      requires |body| >= MaxPayload
      modifies ports, queues
      ensures Valid()
      ensures var payloadLen := PayloadLen(udpLen);
              var i := FindBound(old(ports[..]), dport);
        && v == (if proto != IpProtoUdp then NotUdp
                 else if !PayloadLenOk(udpLen) then BadLength
                 else if i == -1 then NoPort
                 else if old(ports[i].count) >= QueueSize then QueueFull
                 else Queued)
        && (v != Queued ==> ports[..] == old(ports[..]) && Slots() == old(Slots()))
        && (v == Queued ==>
              var pkt := Packet(body[..payloadLen], payloadLen, srcIp, sport);
              && PacketValid(pkt)
              && ports[..] == old(ports[..])[i := old(ports[i]).(tail := (old(ports[i].tail) + 1) % QueueSize,
                                                              count := old(ports[i].count) + 1)]
              && Slots() == old(Slots())[i := old(Slots())[i][old(ports[i].tail) := pkt]]
              && Queues() == old(Queues())[i := old(Queues())[i] + [pkt]])
    {
      if proto != IpProtoUdp {
        return NotUdp;
      }
      var payloadLen := udpLen - UdpHeaderLen;
      if payloadLen < 0 || payloadLen > MaxPayload {
        return BadLength;
      }

      var pe := Lookup(dport);

      if pe == -1 {
        return NoPort;
      }
      if ports[pe].count >= QueueSize {
        return QueueFull;
      }

      EnqueueAt(pe, Packet(body[..payloadLen], payloadLen, srcIp, sport));
      v := Queued;
    }

    /**
     * `sys_recv`. `copyOk` says whether the `copyout`s into the caller's memory
     * succeed; they run after the packet has left the queue.
     */
    method Recv(portArg: int, maxlen: int, copyOk: bool) returns (r: RecvResult)
      requires Valid()
      modifies ports
      ensures Valid()
      ensures !(0 <= portArg <= 65535) || maxlen < 0 ==> r == Failed && ports[..] == old(ports[..])
      ensures 0 <= portArg <= 65535 && maxlen >= 0 ==>
        var i := FindBound(old(ports[..]), portArg);
        && (i == -1 ==> r == Failed && ports[..] == old(ports[..]))
        && (i >= 0 && old(ports[i].count) == 0 ==> r == Blocked && ports[..] == old(ports[..]))
        && (i >= 0 && old(ports[i].count) > 0 ==>
              var p := old(Queues())[i][0];
              var n := if p.len < maxlen then p.len else maxlen;
              && ports[..] == old(ports[..])[i := old(ports[i]).(head := (old(ports[i].head) + 1) % QueueSize,
                                                              count := old(ports[i].count) - 1)]
              && Queues() == old(Queues())[i := old(Queues())[i][1..]]
              && r == (if copyOk then Copied(n, p.data[..n], p.srcIp, p.srcPort) else Failed))
    {
      if portArg < 0 || portArg > 65535 || maxlen < 0 {
        return Failed;
      }
      var port: U16 := portArg;

      var pe := Lookup(port);

      if pe == -1 {
        return Failed;
      }
      if ports[pe].count == 0 {
        // the caller sleeps until `ip_rx` queues a packet for this port
        return Blocked;
      }

      var pkt := DequeueAt(pe);
      var copyLen := if pkt.len < maxlen then pkt.len else maxlen;
      r := if copyOk then Copied(copyLen, pkt.data[..copyLen], pkt.srcIp, pkt.srcPort) else Failed;
    }
  }
}
