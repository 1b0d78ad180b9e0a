/**
 * Frame-level decisions of kernel/net.c: the EtherType dispatch of `net_rx`
 * and the lengths and IPv4 header that `sys_send` writes.
 */
module NetFrames {
  import opened Bytes
  import opened Wrappers
  import opened NetPorts
  import opened InternetChecksum

  /** Header sizes of the packed kernel structs (Ethernet II, IPv4 without options, ARP for IPv4). */
  const EthHeaderLen := 14
  const IpHeaderLen := 20
  const ArpLen := 28
  const EthTypeIp := 0x0800
  const EthTypeArp := 0x0806
  const PageSize := 4096
  const IpTtl := 100
  /** xv6's address 10.0.2.15. */
  const LocalIp := 0x0A00_020F

  datatype Dispatch = ToArp | ToIp | Freed

  /** `net_rx`: hand the frame to `arp_rx`, to `ip_rx`, or free it. */
  function NetRx(len: nat, etherType: U16): (d: Dispatch)
    ensures d == ToArp <==> len >= EthHeaderLen + ArpLen && etherType == EthTypeArp
    ensures d == ToIp <==> len >= EthHeaderLen + IpHeaderLen && etherType == EthTypeIp
  {
    if len >= EthHeaderLen + ArpLen && etherType == EthTypeArp then ToArp
    else if len >= EthHeaderLen + IpHeaderLen && etherType == EthTypeIp then ToIp
    else Freed
  }

  /**
   * Every frame that reaches `arp_rx` or `ip_rx` holds the header its handler
   * reads first, and a frame of any other EtherType, or a runt, is freed.
   */
  lemma NetRxGuardsHeaders(len: nat, etherType: U16)
    ensures NetRx(len, etherType) == ToArp ==> len >= EthHeaderLen + ArpLen
    ensures NetRx(len, etherType) == ToIp ==> len >= EthHeaderLen + IpHeaderLen
    ensures len < EthHeaderLen + IpHeaderLen ==> NetRx(len, etherType) == Freed
    ensures etherType != EthTypeIp && etherType != EthTypeArp ==> NetRx(len, etherType) == Freed
  {
  }

  /** The length fields `sys_send` writes; `htons` keeps the low 16 bits. */
  datatype SendLengths = SendLengths(total: int, ipLen: U16, udpLen: U16)

  /** A C `int`, as `argint` hands `len` to `sys_send`. */
  type I32 = x: int | -0x8000_0000 <= x < 0x8000_0000

  /** Header bytes in front of the payload: Ethernet, IPv4 and UDP. */
  const FrameOverhead := EthHeaderLen + IpHeaderLen + UdpHeaderLen

  /** Narrowing to a 32-bit `int`, two's complement (what GCC does on RISC-V). */
  function ToInt32(x: int): (r: I32)
    ensures (x - r) % 0x1_0000_0000 == 0
    ensures -0x8000_0000 <= x < 0x8000_0000 ==> r == x
  {
    var m := x % 0x1_0000_0000;
    if m < 0x8000_0000 then m else m - 0x1_0000_0000
  }

  /**
   * `total` as written: `len + sizeof(...)` is computed as `size_t` and stored
   * in an `int`, so a payload length near 2^31 wraps to a negative total.
   */
  function SendTotalAsWritten(len: I32): (t: I32)
    ensures len + FrameOverhead < 0x8000_0000 ==> t == len + FrameOverhead
    ensures len + FrameOverhead >= 0x8000_0000 ==> t == len + FrameOverhead - 0x1_0000_0000 && t < 0
  {
    ToInt32(len + FrameOverhead)
  }

  /**
   * The size rule of `sys_send` as written: the page check sees the wrapped
   * total, so it rejects an oversized frame only when the sum does not wrap.
   */
  function SysSendAsWritten(len: I32, allocOk: bool, copyOk: bool): (r: Option<SendLengths>)
    ensures r.None? <==> PageSize < len + FrameOverhead < 0x8000_0000 || !allocOk || !copyOk
    ensures r.Some? ==> r.value.total == SendTotalAsWritten(len)
    ensures r.Some? ==> r.value.udpLen == (len + UdpHeaderLen) % 0x1_0000
    ensures r.Some? ==> r.value.ipLen == (IpHeaderLen + UdpHeaderLen + len) % 0x1_0000
  {
    var total := SendTotalAsWritten(len);
    if total > PageSize || !allocOk || !copyOk then None
    else Some(SendLengths(total, (IpHeaderLen + UdpHeaderLen + len) % 0x1_0000, (len + UdpHeaderLen) % 0x1_0000))
  }

  /**
   * The wrap lets the largest payload lengths through: `len` = 2^31 - 1 passes
   * the page check with a negative total and goes on to `copyin` of len bytes
   * into a one-page buffer, where the intended rule refuses it.
   */
  lemma OversizedSendAccepted(len: I32)
    requires len + FrameOverhead >= 0x8000_0000
    ensures SysSendAsWritten(len, true, true).Some? && SysSendAsWritten(len, true, true).value.total < 0
    ensures SysSend(len, true, true).None?
    ensures len > PageSize - FrameOverhead
  {
  }

  /**
   * A negative `len` passes too: the total stays below a page, and `copyin`
   * is then handed `len` read as an unsigned 64-bit count (2^64 - 1 for -1).
   */
  lemma NegativeSendAccepted(len: I32)
    requires len < 0
    ensures SysSendAsWritten(len, true, true).Some?
    ensures SysSendAsWritten(len, true, true).value.total < PageSize
    ensures SysSend(len, true, true).None?
  {
  }

  /** The two rules differ exactly on negative lengths and on the lengths whose sum wraps. */
  lemma AsWrittenDiffersOnlyOnWrap(len: I32, allocOk: bool, copyOk: bool)
    ensures SysSendAsWritten(len, allocOk, copyOk).Some? != SysSend(len, allocOk, copyOk).Some?
        <==> allocOk && copyOk && (len < 0 || len + FrameOverhead >= 0x8000_0000)
  {
  }

  /**
   * The size rule of `sys_send` as intended, the total computed without
   * overflow and the length taken as a byte count: -1 (None) for a negative
   * length, when the frame would not fit one page, or when
   * `kalloc` or `copyin` fails; otherwise the lengths written, and the
   * payload copied in fits the page after the headers.
   */
  function SysSend(len: I32, allocOk: bool, copyOk: bool): (r: Option<SendLengths>)
    ensures r.None? <==> len < 0 || len + FrameOverhead > PageSize || !allocOk || !copyOk
    ensures r.Some? ==> r.value.total == len + FrameOverhead && 0 <= len <= PageSize - FrameOverhead
    ensures r.Some? ==> r.value.udpLen == (len + UdpHeaderLen) % 0x1_0000
    ensures r.Some? ==> r.value.ipLen == (IpHeaderLen + UdpHeaderLen + len) % 0x1_0000
  {
    var total := len + FrameOverhead;
    if len < 0 || total > PageSize || !allocOk || !copyOk then None
    else Some(SendLengths(total, (IpHeaderLen + UdpHeaderLen + len) % 0x1_0000, (len + UdpHeaderLen) % 0x1_0000))
  }

  /**
   * For a non-negative payload the fields are exact (RFC 768: UDP length is
   * payload plus its 8-byte header; RFC 791: total length adds the IP header),
   * and `ip_rx` on the receiving side recovers the payload length and accepts
   * it exactly when it fits one 2048-byte slot.
   */
  lemma SendLengthsRoundTrip(len: nat)
    requires len + EthHeaderLen + IpHeaderLen + UdpHeaderLen <= PageSize
    ensures var r := SysSend(len, true, true);
      && r.Some?
      && r.value.udpLen == len + UdpHeaderLen
      && r.value.ipLen == r.value.udpLen + IpHeaderLen
      && r.value.total == r.value.ipLen + EthHeaderLen
      && PayloadLen(r.value.udpLen) == len
      && (PayloadLenOk(r.value.udpLen) <==> len <= MaxPayload)
  {
  }

  /** A 16-bit value as two bytes in network order. */
  function BE16(v: U16): seq<byte> {
    [(v / 256) as byte, (v % 256) as byte]
  }

  /** A 32-bit value as four bytes in network order. */
  function BE32(v: U32): seq<byte> {
    [(v / 0x100_0000) as byte, (v / 0x1_0000 % 256) as byte, (v / 256 % 256) as byte, (v % 256) as byte]
  }

  /** The IPv4 header `sys_send` fills in before the checksum (the page is zeroed first). */
  function IpHeaderBeforeSum(ipLen: U16, dst: int): (h: seq<byte>)
    ensures |h| == IpHeaderLen && h[10] == 0 && h[11] == 0
  {
    [0x45, 0] + BE16(ipLen) + [0, 0, 0, 0, IpTtl as byte, IpProtoUdp as byte, 0, 0]
      + BE32(LocalIp) + BE32(dst % 0x1_0000_0000)
  }

  /** The header as transmitted: `ip_sum` holds `in_cksum` of the header, stored little-endian. */
  function IpHeader(ipLen: U16, dst: int): (h: seq<byte>)
    ensures |h| == IpHeaderLen
  {
    var h0 := IpHeaderBeforeSum(ipLen, dst);
    StoreLE(h0, 10, Checksum(h0))
  }

  /**
   * The header `sys_send` transmits passes the receiver's checksum test, and
   * its checksum field holds the RFC 791 checksum in network order.
   */
  lemma SentHeaderChecks(ipLen: U16, dst: int)
    ensures Checksum(IpHeader(ipLen, dst)) == 0
    ensures var h0 := IpHeaderBeforeSum(ipLen, dst);
      IpHeader(ipLen, dst)[10..12] == BE16(ChecksumBE(h0))
  {
    var h0 := IpHeaderBeforeSum(ipLen, dst);
    ChecksumVerifies(h0, 10);
    StoredChecksumIsNetworkOrder(h0);
  }

  /** `sys_send` computes the header checksum with `in_cksum` over the 20 header bytes. */
  method SendHeaderChecksum(ipLen: U16, dst: int) returns (sum: int)
    ensures sum == Checksum(IpHeaderBeforeSum(ipLen, dst))
    ensures IpHeader(ipLen, dst) == StoreLE(IpHeaderBeforeSum(ipLen, dst), 10, sum)
  {
    sum := InCksum(IpHeaderBeforeSum(ipLen, dst));
  }
}
