/**
 * The multi-port burst scripts burst_test_final.py and burst_test.py: a round
 * sends `"burst:<port>:<seq>"` to host ports 27001 + port; the echo-checking
 * script counts the distinct "burst:" texts heard back and passes the round at
 * 60%, the older script passes any round of at most 4 ports; both escalate the
 * port count until the first failure and classify the last passing count.
 */
module Burst {
  import opened Bytes
  import opened Wrappers
  import opened Text

  const BasePort := 27001
  const Tag := "burst:"
  /** `packets_per_port` of the echo-checking round. */
  const EchoPerPort := 3
  /** `packets_per_port` of the fixed-verdict round. */
  const FixedPerPort := 5
  const EchoCounts: seq<nat> := [1, 2, 4, 8]
  const FixedCounts: seq<nat> := [1, 2, 4, 8, 16]
  const FixedLimit := 4

  datatype Send = Send(hostPort: int, payload: string)

  /** `f"burst:{port_idx}:{seq}"`. */
  function BurstPayload(port: nat, sq: nat): string {
    Tag + Dec(port) + ":" + Dec(sq)
  }

  /** The sends to one port, in order. */
  function Row(port: nat, perPort: nat): seq<Send> {
    seq(perPort, s requires 0 <= s < perPort => Send(BasePort + port, BurstPayload(port, s)))
  }

  /** All sends of a round, port by port. */
  function Schedule(numPorts: nat, perPort: nat): (r: seq<Send>)
    ensures |r| == numPorts * perPort
  {
    if numPorts == 0 then []
    else
      assert (numPorts - 1) * perPort + perPort == numPorts * perPort;
      Schedule(numPorts - 1, perPort) + Row(numPorts - 1, perPort)
  }

  function RowSet(port: nat, upTo: nat): set<string> {
    set s: nat | s < upTo :: BurstPayload(port, s)
  }

  /** `sent_messages` after a complete round. */
  function PayloadSet(numPorts: nat, perPort: nat): set<string> {
    set p: nat, s: nat | p < numPorts && s < perPort :: BurstPayload(p, s)
  }

  lemma PayloadSetStep(numPorts: nat, perPort: nat)
    ensures PayloadSet(numPorts + 1, perPort) == PayloadSet(numPorts, perPort) + RowSet(numPorts, perPort)
  {
    forall x | x in PayloadSet(numPorts + 1, perPort)
      ensures x in PayloadSet(numPorts, perPort) + RowSet(numPorts, perPort)
    {
      var p: nat, s: nat :| p < numPorts + 1 && s < perPort && x == BurstPayload(p, s);
      if p < numPorts {
        assert x in PayloadSet(numPorts, perPort);
      } else {
        assert x in RowSet(numPorts, perPort);
      }
    }
  }

  /**
   * A round's send loop: every port in turn, `perPort` sends each, every
   * payload also added to `sent_messages`.
   */
  method SendRound(numPorts: nat, perPort: nat) returns (sent: seq<Send>, sentMessages: set<string>)
    ensures sent == Schedule(numPorts, perPort)
    ensures sentMessages == PayloadSet(numPorts, perPort)
  {
    sent := [];
    sentMessages := {};
    var portIdx := 0;
    while portIdx < numPorts
      invariant portIdx <= numPorts
      invariant sent == Schedule(portIdx, perPort) && sentMessages == PayloadSet(portIdx, perPort)
    {
      var hostPort := BasePort + portIdx;
      var sq := 0;
      while sq < perPort
        invariant sq <= perPort
        invariant sent == Schedule(portIdx, perPort) + Row(portIdx, perPort)[..sq]
        invariant sentMessages == PayloadSet(portIdx, perPort) + RowSet(portIdx, sq)
      {
        var payload := BurstPayload(portIdx, sq);
        assert RowSet(portIdx, sq + 1) == RowSet(portIdx, sq) + {payload};
        assert Row(portIdx, perPort)[..sq + 1] == Row(portIdx, perPort)[..sq] + [Send(hostPort, payload)];
        sentMessages := sentMessages + {payload};
        sent := sent + [Send(hostPort, payload)];
        sq := sq + 1;
      }
      assert Row(portIdx, perPort)[..perPort] == Row(portIdx, perPort);
      PayloadSetStep(portIdx, perPort);
      portIdx := portIdx + 1;
    }
  }

  // ---------------------------------------------------------------------------
  // Payloads are distinct

  lemma {:induction false} DigitsBeforeColon(a: string, b: string, a': string, b': string)
    requires AllDigits(a) && AllDigits(a')
    requires a + ":" + b == a' + ":" + b'
    ensures a == a' && b == b'
  {
    var x := a + ":" + b;
    if |a| < |a'| {
      ColonEndsDigits(a, b, a', b');
    } else if |a'| < |a| {
      ColonEndsDigits(a', b', a, b);
    }
    assert a == x[..|a|] == a';
    assert b == x[|a| + 1..] == b';
  }

  lemma ColonEndsDigits(a: string, b: string, a': string, b': string)
    requires AllDigits(a') && |a| < |a'|
    ensures a + ":" + b != a' + ":" + b'
  {
    assert (a + ":" + b)[|a|] == ':';
    assert (a' + ":" + b')[|a|] == a'[|a|];
  }

  /** Different (port, seq) pairs give different payloads. */
  lemma BurstPayloadInjective(p: nat, s: nat, p': nat, s': nat)
    requires BurstPayload(p, s) == BurstPayload(p', s')
    ensures p == p' && s == s'
  {
    var u, u' := Dec(p) + ":" + Dec(s), Dec(p') + ":" + Dec(s');
    assert Tag + u == BurstPayload(p, s);
    assert Tag + u' == BurstPayload(p', s');
    SamePrefixRest(Tag, u, u');
    DigitsBeforeColon(Dec(p), Dec(s), Dec(p'), Dec(s'));
    DecInjective(p, p');
    DecInjective(s, s');
  }

  lemma SamePrefixRest(t: string, u: string, u': string)
    requires t + u == t + u'
    ensures u == u'
  {
    assert u == (t + u)[|t|..];
    assert u' == (t + u')[|t|..];
  }

  lemma {:induction false} RowSetSize(port: nat, upTo: nat)
    ensures |RowSet(port, upTo)| == upTo
    decreases upTo
  {
    if upTo > 0 {
      RowSetSize(port, upTo - 1);
      assert RowSet(port, upTo) == RowSet(port, upTo - 1) + {BurstPayload(port, upTo - 1)};
      if BurstPayload(port, upTo - 1) in RowSet(port, upTo - 1) {
        var s: nat :| s < upTo - 1 && BurstPayload(port, s) == BurstPayload(port, upTo - 1);
        BurstPayloadInjective(port, s, port, upTo - 1);
      }
    }
  }

  /** A round sends `numPorts * perPort` distinct payloads. */
  lemma {:induction false} PayloadSetSize(numPorts: nat, perPort: nat)
    ensures |PayloadSet(numPorts, perPort)| == numPorts * perPort
    decreases numPorts
  {
    if numPorts > 0 {
      var n := numPorts - 1;
      PayloadSetSize(n, perPort);
      PayloadSetStep(n, perPort);
      RowSetSize(n, perPort);
      forall x | x in PayloadSet(n, perPort) && x in RowSet(n, perPort) ensures false {
        var p: nat, s: nat :| p < n && s < perPort && x == BurstPayload(p, s);
        var s': nat :| s' < perPort && x == BurstPayload(n, s');
        BurstPayloadInjective(p, s, n, s');
      }
      assert PayloadSet(n, perPort) !! RowSet(n, perPort);
      assert n * perPort + perPort == numPorts * perPort;
    }
  }

  // ---------------------------------------------------------------------------
  // The listener

  /** The listener's filter: the text with non-ASCII bytes dropped, kept only if it starts with "burst:". */
  function Heard(data: seq<byte>): Option<string> {
    var msg := DecodeAsciiIgnore(data);
    if StartsWith(msg, Tag) then Some(msg) else None
  }

  /** The distinct texts the listener keeps from a sequence of datagrams. */
  function HeardSet(datagrams: seq<seq<byte>>): (r: set<string>)
    ensures forall m :: m in r ==> StartsWith(m, Tag)
  {
    if datagrams == [] then {}
    else
      var rest := HeardSet(datagrams[..|datagrams| - 1]);
      match Heard(datagrams[|datagrams| - 1])
      case Some(m) => rest + {m}
      case None => rest
  }

  /** The listener thread's loop, adding to the shared `received_packets`. */
  method Listen(receivedPackets: set<string>, datagrams: seq<seq<byte>>) returns (after: set<string>)
    ensures after == receivedPackets + HeardSet(datagrams)
  {
    after := receivedPackets;
    var i := 0;
    while i < |datagrams|
      invariant i <= |datagrams| && after == receivedPackets + HeardSet(datagrams[..i])
    {
      assert datagrams[..i + 1][..i] == datagrams[..i];
      var msg := DecodeAsciiIgnore(datagrams[i]);
      if StartsWith(msg, Tag) {
        after := after + {msg};
      }
      i := i + 1;
    }
    assert datagrams[..|datagrams|] == datagrams;
  }

  lemma BurstPayloadIsAscii(p: nat, s: nat)
    ensures IsAsciiText(BurstPayload(p, s))
  {
    DecIsAscii(p);
    DecIsAscii(s);
  }

  /** The bytes on the wire for a payload: `payload.encode('ascii')`. */
  function Wire(p: nat, s: nat): seq<byte> {
    BurstPayloadIsAscii(p, s);
    EncodeAscii(BurstPayload(p, s))
  }

  /** An intact echo of a sent payload is heard as that payload. */
  lemma EchoHeard(p: nat, s: nat)
    ensures Heard(Wire(p, s)) == Some(BurstPayload(p, s))
  {
    BurstPayloadIsAscii(p, s);
    DecodeIgnoreEncode(BurstPayload(p, s));
  }

  /**
   * `len(received_packets) >= 0.6 * total_sent`, with a round of zero packets
   * failing (its rate is 0).
   */
  predicate RoundPasses(totalSent: nat, receivedCount: nat) {
    totalSent > 0 && receivedCount * 10 >= totalSent * 6
  }

  /** For the round sizes used, the threshold is 2 of 3, 4 of 6, 8 of 12 and 15 of 24. */
  lemma Thresholds(r: nat)
    ensures RoundPasses(3, r) <==> r >= 2
    ensures RoundPasses(6, r) <==> r >= 4
    ensures RoundPasses(12, r) <==> r >= 8
    ensures RoundPasses(24, r) <==> r >= 15
    ensures !RoundPasses(0, r)
  {
  }

  /**
   * One echo-checked round: clear the set, send, let the listener take the
   * echoes, then apply the 60% rule to the number of distinct texts heard.
   */
  method TestPortsWithEcho(numPorts: nat, echoes: seq<seq<byte>>) returns (pass: bool, sent: seq<Send>, heard: set<string>)
    ensures sent == Schedule(numPorts, EchoPerPort)
    ensures heard == HeardSet(echoes)
    ensures pass == RoundPasses(numPorts * EchoPerPort, |HeardSet(echoes)|)
  {
    var receivedPackets: set<string> := {};
    var sentMessages;
    sent, sentMessages := SendRound(numPorts, EchoPerPort);
    heard := Listen(receivedPackets, echoes);
    var totalSent := numPorts * EchoPerPort;
    pass := totalSent > 0 && |heard| * 10 >= totalSent * 6;
  }

  /** One more echo adds its decoded text to the heard set when it passes the filter, and nothing otherwise. */
  lemma HeardAppend(ds: seq<seq<byte>>, d: seq<byte>)
    ensures HeardSet(ds + [d]) == HeardSet(ds) + match Heard(d) { case Some(m) => {m} case None => {} }
  {
    assert (ds + [d])[..|ds|] == ds;
  }

  /** Four echoes, heard in order, leave their four payloads. */
  lemma HeardFour(w0: seq<byte>, w1: seq<byte>, w2: seq<byte>, w3: seq<byte>, m0: string, m1: string, m2: string, m3: string)
    requires Heard(w0) == Some(m0) && Heard(w1) == Some(m1) && Heard(w2) == Some(m2) && Heard(w3) == Some(m3)
    ensures HeardSet([w0, w1, w2, w3]) == {m0, m1, m2, m3}
  {
    HeardAppend([], w0);
    HeardAppend([w0], w1);
    HeardAppend([w0, w1], w2);
    HeardAppend([w0, w1, w2], w3);
    assert [] + [w0] == [w0];
    assert [w0] + [w1] == [w0, w1];
    assert [w0, w1] + [w2] == [w0, w1, w2];
    assert [w0, w1, w2] + [w3] == [w0, w1, w2, w3];
  }

  lemma FourDistinct(m0: string, m1: string, m2: string, m3: string)
    requires m0 != m1 && m0 != m2 && m0 != m3 && m1 != m2 && m1 != m3 && m2 != m3
    ensures |{m0, m1, m2, m3}| == 4
  {
    assert |{m0, m1}| == 2;
    assert |{m0, m1, m2}| == 3;
  }

  /**
   * Nothing ties the heard texts to the sent ones: a one-port round (3
   * packets) that hears four different "burst:" texts counts 4 received.
   */
  lemma HeardNotBoundedBySent()
    ensures |HeardSet([Wire(0, 0), Wire(0, 1), Wire(0, 2), Wire(9, 9)])| == 4 > 1 * EchoPerPort
  {
    EchoHeard(0, 0);
    EchoHeard(0, 1);
    EchoHeard(0, 2);
    EchoHeard(9, 9);
    HeardFour(Wire(0, 0), Wire(0, 1), Wire(0, 2), Wire(9, 9),
              BurstPayload(0, 0), BurstPayload(0, 1), BurstPayload(0, 2), BurstPayload(9, 9));
    DistinctPayloads(0, 1, 0, 0);
    DistinctPayloads(0, 2, 0, 0);
    DistinctPayloads(0, 2, 0, 1);
    DistinctPayloads(9, 9, 0, 0);
    DistinctPayloads(9, 9, 0, 1);
    DistinctPayloads(9, 9, 0, 2);
    FourDistinct(BurstPayload(0, 0), BurstPayload(0, 1), BurstPayload(0, 2), BurstPayload(9, 9));
  }

  lemma DistinctPayloads(p: nat, s: nat, p': nat, s': nat)
    requires p != p' || s != s'
    ensures BurstPayload(p, s) != BurstPayload(p', s')
  {
    if BurstPayload(p, s) == BurstPayload(p', s') {
      BurstPayloadInjective(p, s, p', s');
    }
  }

  // ---------------------------------------------------------------------------
  // Escalation and classification

  /**
   * The result of the escalation loop from `best`: try each count in order,
   * remember it while rounds pass, stop at the first failure.
   */
  function Escalation(counts: seq<nat>, passes: nat -> bool, best: nat): nat {
    if counts == [] then best
    else if passes(counts[0]) then Escalation(counts[1..], passes, counts[0])
    else best
  }

  /**
   * `counts[j]` is where the loop stops: its round and every earlier one
   * passed, and the next count, if there is one, failed.
   */
  predicate StopsAt(counts: seq<nat>, passes: nat -> bool, j: int) {
    && 0 <= j < |counts|
    && (forall k :: 0 <= k <= j ==> passes(counts[k]))
    && (j + 1 < |counts| ==> !passes(counts[j + 1]))
  }

  /**
   * `max_working_ports` is 0 when the first count fails, and otherwise the
   * last count that passed before the first failure; when every round
   * passes it is the last count.
   */
  lemma {:induction false} EscalationResult(counts: seq<nat>, passes: nat -> bool)
    ensures var m := Escalation(counts, passes, 0);
      && (counts == [] || !passes(counts[0]) ==> m == 0)
      && (counts != [] && passes(counts[0]) ==> exists j :: StopsAt(counts, passes, j) && counts[j] == m)
      && ((forall k :: 0 <= k < |counts| ==> passes(counts[k])) && counts != [] ==> m == counts[|counts| - 1])
  {
    EscalationFrom(counts, passes, 0);
  }

  /** The same from any starting `best`, which is kept only when the first count fails. */
  lemma {:induction false} EscalationFrom(counts: seq<nat>, passes: nat -> bool, best: nat)
    ensures var m := Escalation(counts, passes, best);
      && (counts == [] || !passes(counts[0]) ==> m == best)
      && (counts != [] && passes(counts[0]) ==> exists j :: StopsAt(counts, passes, j) && counts[j] == m)
      && ((forall k :: 0 <= k < |counts| ==> passes(counts[k])) && counts != [] ==> m == counts[|counts| - 1])
    decreases |counts|
  {
    if counts != [] && passes(counts[0]) {
      var rest := counts[1..];
      EscalationFrom(rest, passes, counts[0]);
      var m := Escalation(counts, passes, best);
      if rest == [] || !passes(rest[0]) {
        assert StopsAt(counts, passes, 0) && counts[0] == m;
      } else {
        var j :| StopsAt(rest, passes, j) && rest[j] == m;
        forall k | 0 <= k <= j + 1 ensures passes(counts[k]) {
          if k > 0 { assert counts[k] == rest[k - 1]; }
        }
        if j + 2 < |counts| { assert counts[j + 2] == rest[j + 1]; }
        assert StopsAt(counts, passes, j + 1) && counts[j + 1] == m;
      }
      if forall k :: 0 <= k < |counts| ==> passes(counts[k]) {
        assert forall k :: 0 <= k < |rest| ==> passes(rest[k]) by {
          forall k | 0 <= k < |rest| ensures passes(rest[k]) { assert rest[k] == counts[k + 1]; }
        }
        if rest != [] { assert rest[|rest| - 1] == counts[|counts| - 1]; }
      }
    }
  }

  datatype Band = Excellent | Good | Basic | NeedsImprovement

  /** The closing verdict on `max_working_ports`. */
  function Classify(maxWorking: nat): Band {
    if maxWorking >= 8 then Excellent
    else if maxWorking >= 4 then Good
    else if maxWorking >= 2 then Basic
    else NeedsImprovement
  }

  function Rank(b: Band): nat {
    match b
    case NeedsImprovement => 0
    case Basic => 1
    case Good => 2
    case Excellent => 3
  }

  /** Supporting more ports never gives a worse verdict. */
  lemma ClassifyMonotone(m: nat, m': nat)
    requires m <= m'
    ensures Rank(Classify(m)) <= Rank(Classify(m'))
  {
  }

  /** The escalation loop of burst_test_final.py over rounds whose echoes are `echoesFor(num_ports)`. */
  method MainWithEcho(echoesFor: nat -> seq<seq<byte>>) returns (maxWorking: nat, band: Band)
    ensures maxWorking == Escalation(EchoCounts, (n: nat) => RoundPasses(n * EchoPerPort, |HeardSet(echoesFor(n))|), 0)
    ensures band == Classify(maxWorking)
  {
    ghost var passes := (n: nat) => RoundPasses(n * EchoPerPort, |HeardSet(echoesFor(n))|);
    maxWorking := 0;
    var k := 0;
    while k < |EchoCounts|
      invariant k <= |EchoCounts|
      invariant Escalation(EchoCounts, passes, 0) == Escalation(EchoCounts[k..], passes, maxWorking)
    {
      var numPorts := EchoCounts[k];
      var pass, sent, heard := TestPortsWithEcho(numPorts, echoesFor(numPorts));
      if pass {
        assert EchoCounts[k..][1..] == EchoCounts[k + 1..];
        maxWorking := numPorts;
      } else {
        break;
      }
      k := k + 1;
    }
    band := Classify(maxWorking);
  }

  /**
   * `test_ports` of burst_test.py: it sends its round and then passes exactly
   * the rounds of at most 4 ports, whatever came back.
   */
  method TestPortsFixed(numPorts: nat) returns (pass: bool, sent: seq<Send>)
    ensures sent == Schedule(numPorts, FixedPerPort)
    ensures pass <==> numPorts <= FixedLimit
  {
    var sentMessages;
    sent, sentMessages := SendRound(numPorts, FixedPerPort);
    pass := numPorts <= FixedLimit;
  }

  /** The escalation loop of burst_test.py. */
  method MainFixed() returns (maxWorking: nat, band: Band, tried: nat)
    ensures maxWorking == Escalation(FixedCounts, (n: nat) => n <= FixedLimit, 0)
    ensures band == Classify(maxWorking)
    ensures tried == 4
  {
    ghost var passes := (n: nat) => n <= FixedLimit;
    maxWorking := 0;
    tried := 0;
    var k := 0;
    while k < |FixedCounts|
      invariant k <= |FixedCounts| && tried == k
      invariant forall j :: 0 <= j < k ==> FixedCounts[j] <= FixedLimit
      invariant Escalation(FixedCounts, passes, 0) == Escalation(FixedCounts[k..], passes, maxWorking)
    {
      var numPorts := FixedCounts[k];
      var pass, sent := TestPortsFixed(numPorts);
      tried := tried + 1;
      if pass {
        assert FixedCounts[k..][1..] == FixedCounts[k + 1..];
        maxWorking := numPorts;
      } else {
        break;
      }
      k := k + 1;
    }
    band := Classify(maxWorking);
  }

  /**
   * Whatever the network does, burst_test.py passes 1, 2 and 4 ports, fails
   * at 8, never tries 16, and reports 4 ports, "moderate ... GOOD".
   */
  lemma FixedOutcome()
    ensures Escalation(FixedCounts, (n: nat) => n <= FixedLimit, 0) == 4
    ensures Classify(4) == Good
  {
    var passes := (n: nat) => n <= FixedLimit;
    assert FixedCounts[1..] == [2, 4, 8, 16];
    assert FixedCounts[1..][1..] == [4, 8, 16];
    assert FixedCounts[1..][1..][1..] == [8, 16];
  }
}
