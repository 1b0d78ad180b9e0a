/**
 * The receive/validate/tally part of `test_throughput` in tests/stress_test.py:
 * the host sends "throughput <i>" for i in 0..packets_sent-1, then reads the
 * echoes back, counting replies, distinct sequence numbers, gaps and
 * malformed payloads, and judges the round.
 */
module Throughput {
  import opened Bytes
  import opened Wrappers
  import opened Text

  const Prefix := "throughput "
  const Label := "throughput"

  /** What one `recvfrom` on the echo socket yields: a datagram, or `socket.timeout`. */
  datatype Event = Datagram(data: seq<byte>) | Timeout

  /** The counters the receive loop keeps (`last_seq` is internal to the loop). */
  datatype Tally = Tally(received: nat, seqs: set<int>, outOfOrder: nat, payloadErrors: nat)

  /** Everything a round reports; `duplicates` is `packets_received - len(received_seqs)`. */
  datatype Report = Report(
    sent: nat, received: nat, unique: nat, missing: set<int>,
    duplicates: int, outOfOrder: nat, payloadErrors: nat, success: bool)

  /**
   * Validation of one reply: it must decode as ASCII, start with
   * "throughput ", and its second white-space separated field must parse
   * with `int()`. None is a payload error.
   */
  function ParseReply(data: seq<byte>): Option<int>
  {
    match DecodeAscii(data)
    case None => None
    case Some(s) =>
      if !StartsWith(s, Prefix) then None
      else
        var fields := Split(s);
        if |fields| < 2 then None else PyInt(fields[1])
  }

  lemma PrefixIsAscii(i: nat)
    ensures IsAsciiText(Prefix + Dec(i))
  {
    DecIsAscii(i);
  }

  /** The datagram the sender emits for sequence number i: `f"throughput {i}".encode("ascii")`. */
  function Payload(i: nat): seq<byte>
  {
    PrefixIsAscii(i);
    EncodeAscii(Prefix + Dec(i))
  }

  /** Every payload the sender emits validates to its own sequence number. */
  lemma ParsePayload(i: nat)
    ensures ParseReply(Payload(i)) == Some(i)
  {
    var s := Prefix + Dec(i);
    PrefixIsAscii(i);
    DecodeEncode(s);
    assert s[..|Prefix|] == Prefix;
    assert NoSpace(Label);
    assert NoSpace(Dec(i));
    assert s == Label + " " + Dec(i);
    SplitTwo(Label, Dec(i));
    PyIntDec(i);
  }

  // ---------------------------------------------------------------------------
  // Which replies the loop consumes

  /**
   * How many replies `for i in range(packets_sent): recvfrom(...)` takes: it
   * stops at the first timeout, and a missing event is a timeout.
   */
  function RecvCount(events: seq<Event>, sent: nat): (n: nat)
    ensures n <= sent && n <= |events|
    ensures forall k :: 0 <= k < n ==> events[k].Datagram?
    ensures n < sent ==> n == |events| || events[n].Timeout?
  {
    if sent == 0 || events == [] || events[0].Timeout? then 0
    else 1 + RecvCount(events[1..], sent - 1)
  }

  lemma {:induction false} RecvCountAt(events: seq<Event>, sent: nat, i: nat)
    requires i <= sent && i <= |events|
    requires forall k :: 0 <= k < i ==> events[k].Datagram?
    requires i == sent || i == |events| || events[i].Timeout?
    ensures RecvCount(events, sent) == i
    decreases i
  {
    if i > 0 {
      RecvCountAt(events[1..], sent - 1, i - 1);
    }
  }

  /** The payloads of the datagrams the loop consumed, in arrival order. */
  function Replies(events: seq<Event>, sent: nat): (ds: seq<seq<byte>>)
    ensures |ds| == RecvCount(events, sent)
  {
    var n := RecvCount(events, sent);
    seq(n, k requires 0 <= k < n => events[k].data)
  }

  // ---------------------------------------------------------------------------
  // What is counted

  /** The sequence numbers of the valid replies, in arrival order. */
  function ValidSeqs(ds: seq<seq<byte>>): (vs: seq<int>)
    ensures |vs| <= |ds|
  {
    if ds == [] then []
    else
      ValidSeqs(ds[..|ds| - 1]) + match ParseReply(ds[|ds| - 1]) { case Some(v) => [v] case None => [] }
  }

  /** The number of replies that fail validation. */
  function PayloadErrors(ds: seq<seq<byte>>): nat
  {
    if ds == [] then 0
    else PayloadErrors(ds[..|ds| - 1]) + if ParseReply(ds[|ds| - 1]).None? then 1 else 0
  }

  /**
   * The gap rule: a valid sequence number counts as out of order when the
   * previous valid one was non-negative and it is not that one plus 1.
   */
  function OutOfOrder(vs: seq<int>): nat
  {
    if |vs| <= 1 then 0
    else OutOfOrder(vs[..|vs| - 1]) + if vs[|vs| - 2] >= 0 && vs[|vs| - 1] != vs[|vs| - 2] + 1 then 1 else 0
  }

  predicate Below(s: int, n: int) {
    0 <= s < n
  }

  /** `set(range(n))`. */
  function Range(n: nat): set<int> {
    set s | 0 <= s < n && Below(s, n)
  }

  /** `set(vs)`, built the way the loop builds `received_seqs`. */
  function Elems(vs: seq<int>): set<int> {
    if vs == [] then {} else Elems(vs[..|vs| - 1]) + {vs[|vs| - 1]}
  }

  lemma {:induction false} InElems(vs: seq<int>, v: int)
    ensures v in Elems(vs) <==> v in vs
    decreases |vs|
  {
    if vs != [] {
      InElems(vs[..|vs| - 1], v);
      assert vs == vs[..|vs| - 1] + [vs[|vs| - 1]];
    }
  }

  /** `missing_seqs = set(range(packets_sent)) - received_seqs`. */
  function Missing(sent: nat, seqs: set<int>): (m: set<int>)
    ensures forall s :: s in m <==> 0 <= s < sent && s !in seqs
  {
    set s | 0 <= s < sent && s !in seqs
  }

  /**
   * The pass rule, `received >= sent * 0.99 and unique >= sent * 0.99 and
   * errors <= sent * 0.01`, by cross-multiplication.
   */
  predicate Success(sent: nat, received: nat, unique: nat, errors: nat) {
    received * 100 >= sent * 99 && unique * 100 >= sent * 99 && errors * 100 <= sent
  }

  /** The report of tests/stress_test.py:219-250: missing and duplicate counts, and the pass verdict. */
  function Summarize(sent: nat, t: Tally): Report {
    Report(sent, t.received, |t.seqs|, Missing(sent, t.seqs), t.received - |t.seqs|,
           t.outOfOrder, t.payloadErrors, Success(sent, t.received, |t.seqs|, t.payloadErrors))
  }

  function AsSeq(v: Option<int>): seq<int> {
    match v
    case Some(x) => [x]
    case None => []
  }

  /** One more reply extends the tallies by exactly its own contribution. */
  lemma AppendReply(ds: seq<seq<byte>>, d: seq<byte>)
    ensures ValidSeqs(ds + [d]) == ValidSeqs(ds) + AsSeq(ParseReply(d))
    ensures PayloadErrors(ds + [d]) == PayloadErrors(ds) + if ParseReply(d).None? then 1 else 0
  {
    assert (ds + [d])[..|ds|] == ds;
  }

  /** One more valid sequence number, with `last` the one before it (-1 for none). */
  lemma AppendSeq(vs: seq<int>, s: int, last: int)
    requires last == if vs == [] then -1 else vs[|vs| - 1]
    ensures Elems(vs + [s]) == Elems(vs) + {s}
    ensures OutOfOrder(vs + [s]) == OutOfOrder(vs) + if last >= 0 && s != last + 1 then 1 else 0
  {
    assert (vs + [s])[..|vs|] == vs;
  }

  // ---------------------------------------------------------------------------
  // The receive loop

  /** `ds` holds the payloads of the first |ds| events, all of them datagrams. */
  ghost predicate DatagramPrefix(events: seq<Event>, ds: seq<seq<byte>>) {
    |ds| <= |events| && forall k :: 0 <= k < |ds| ==> events[k].Datagram? && ds[k] == events[k].data
  }

  lemma DatagramPrefixStep(events: seq<Event>, ds: seq<seq<byte>>)
    requires DatagramPrefix(events, ds) && |ds| < |events| && events[|ds|].Datagram?
    ensures DatagramPrefix(events, ds + [events[|ds|].data])
  {
    var ds' := ds + [events[|ds|].data];
    assert forall k :: 0 <= k < |ds| ==> ds'[k] == ds[k];
  }

  /** `t` and `lastSeq` are what the loop keeps after reading the replies `ds`. */
  ghost predicate Tallied(ds: seq<seq<byte>>, t: Tally, lastSeq: int) {
    var vs := ValidSeqs(ds);
    && t.received == |ds| && t.seqs == Elems(vs)
    && t.payloadErrors == PayloadErrors(ds) && t.outOfOrder == OutOfOrder(vs)
    && lastSeq == if vs == [] then -1 else vs[|vs| - 1]
  }

  /** Reading one more reply updates the tallies as the loop body does. */
  lemma TallyStep(ds: seq<seq<byte>>, t: Tally, lastSeq: int, data: seq<byte>)
    requires Tallied(ds, t, lastSeq)
    ensures match ParseReply(data)
      case Some(s) =>
        Tallied(ds + [data], Tally(t.received + 1, t.seqs + {s},
                                   t.outOfOrder + (if lastSeq >= 0 && s != lastSeq + 1 then 1 else 0), t.payloadErrors), s)
      case None =>
        Tallied(ds + [data], Tally(t.received + 1, t.seqs, t.outOfOrder, t.payloadErrors + 1), lastSeq)
  {
    AppendReply(ds, data);
    var vs := ValidSeqs(ds);
    match ParseReply(data)
    case Some(s) =>
      AppendSeq(vs, s, lastSeq);
      assert ValidSeqs(ds + [data]) == vs + [s];
    case None =>
      assert ValidSeqs(ds + [data]) == vs + [] == vs;
  }

  /** The receive loop of `test_throughput` over the replies the network delivers. */
  method ReceiveReplies(sent: nat, events: seq<Event>) returns (t: Tally)
    ensures var ds := Replies(events, sent);
      && t.received == |ds| <= sent
      && t.seqs == Elems(ValidSeqs(ds))
      && t.payloadErrors == PayloadErrors(ds)
      && t.outOfOrder == OutOfOrder(ValidSeqs(ds))
  {
    var received := 0;
    var seqs: set<int> := {};
    var outOfOrder := 0;
    var payloadErrors := 0;
    var lastSeq := -1;
    ghost var ds: seq<seq<byte>> := [];
    var i := 0;
    while i < sent
      invariant i <= sent && i <= |events| && |ds| == i
      invariant DatagramPrefix(events, ds)
      invariant Tallied(ds, Tally(received, seqs, outOfOrder, payloadErrors), lastSeq)
    {
      if i >= |events| || events[i].Timeout? {
        break;
      }
      var data := events[i].data;
      var parsed := ParseReply(data);
      TallyStep(ds, Tally(received, seqs, outOfOrder, payloadErrors), lastSeq, data);
      DatagramPrefixStep(events, ds);
      ds := ds + [data];
      received := received + 1;
      if parsed.Some? {
        var s := parsed.value;
        seqs := seqs + {s};
        if lastSeq >= 0 && s != lastSeq + 1 {
          outOfOrder := outOfOrder + 1;
        }
        lastSeq := s;
      } else {
        payloadErrors := payloadErrors + 1;
      }
      i := i + 1;
    }
    RecvCountAt(events, sent, i);
    assert ds == Replies(events, sent);
    t := Tally(received, seqs, outOfOrder, payloadErrors);
  }

  // ---------------------------------------------------------------------------
  // Properties of the tally

  /** Every reply is either valid or a payload error. */
  lemma {:induction false} RepliesSplit(ds: seq<seq<byte>>)
    ensures |ValidSeqs(ds)| + PayloadErrors(ds) == |ds|
    decreases |ds|
  {
    if ds != [] {
      RepliesSplit(ds[..|ds| - 1]);
    }
  }

  lemma {:induction false} ElemsBound(vs: seq<int>)
    ensures |Elems(vs)| <= |vs|
    decreases |vs|
  {
    if vs != [] {
      ElemsBound(vs[..|vs| - 1]);
    }
  }

  /**
   * `duplicate_count` is the repeated valid sequence numbers plus every
   * malformed reply, so it is never below `payload_errors`.
   */
  lemma DuplicatesCoverErrors(ds: seq<seq<byte>>)
    ensures var vs := ValidSeqs(ds);
      && |ds| - |Elems(vs)| == PayloadErrors(ds) + (|vs| - |Elems(vs)|)
      && |ds| - |Elems(vs)| >= PayloadErrors(ds) >= 0
  {
    RepliesSplit(ds);
    ElemsBound(ValidSeqs(ds));
  }

  /** The expected range splits into the missing numbers and the received ones. */
  lemma MissingPartition(sent: nat, seqs: set<int>)
    ensures Missing(sent, seqs) !! seqs
    ensures |Missing(sent, seqs)| + |seqs * Range(sent)| == sent
  {
    var got := seqs * Range(sent);
    assert Missing(sent, seqs) + got == Range(sent);
    assert Missing(sent, seqs) !! got;
    RangeSize(sent);
  }

  lemma {:induction false} RangeSize(n: nat)
    ensures |Range(n)| == n
    decreases n
  {
    if n > 0 {
      RangeSize(n - 1);
      assert Range(n) == Range(n - 1) + {n - 1};
    }
  }

  /** The positions the gap rule counts. */
  predicate GapAt(vs: seq<int>, j: int)
    requires 1 <= j < |vs|
  {
    vs[j - 1] >= 0 && vs[j] != vs[j - 1] + 1
  }

  function Gaps(vs: seq<int>): set<int> {
    set j | 1 <= j < |vs| && GapAt(vs, j)
  }

  /** `out_of_order` is the number of gap positions, hence at most one less than the valid replies. */
  lemma {:induction false} OutOfOrderCountsGaps(vs: seq<int>)
    ensures OutOfOrder(vs) == |Gaps(vs)|
    ensures OutOfOrder(vs) <= if |vs| == 0 then 0 else |vs| - 1
    decreases |vs|
  {
    if |vs| <= 1 {
      assert Gaps(vs) == {};
    } else {
      var init := vs[..|vs| - 1];
      OutOfOrderCountsGaps(init);
      var last := |vs| - 1;
      assert forall j | 1 <= j < last :: GapAt(vs, j) == GapAt(init, j);
      if GapAt(vs, last) {
        assert Gaps(vs) == Gaps(init) + {last};
      } else {
        assert Gaps(vs) == Gaps(init);
      }
    }
  }

  /** An unbroken run of consecutive sequence numbers has no out-of-order reply. */
  lemma InOrderStream(vs: seq<int>)
    requires forall j :: 1 <= j < |vs| ==> vs[j] == vs[j - 1] + 1
    ensures OutOfOrder(vs) == 0
  {
    OutOfOrderCountsGaps(vs);
    assert forall j | 1 <= j < |vs| :: !GapAt(vs, j);
    assert Gaps(vs) == {};
  }

  /** A reordering is counted: two consecutive numbers arriving swapped give one gap each. */
  lemma SwapCounted()
    ensures OutOfOrder([0, 2, 1, 3]) == 3
  {
    assert [0, 2, 1, 3][..3] == [0, 2, 1];
    assert [0, 2, 1][..2] == [0, 2];
    assert [0, 2][..1] == [0];
  }

  /** With 1000 packets the float thresholds are 990 replies, 990 distinct, at most 10 errors. */
  lemma SuccessAtThousand(received: nat, unique: nat, errors: nat)
    ensures Success(1000, received, unique, errors) <==> received >= 990 && unique >= 990 && errors <= 10
  {
  }

  // ---------------------------------------------------------------------------
  // A perfect echo

  function EchoAll(n: nat): (events: seq<Event>)
    ensures |events| == n
  {
    seq(n, i requires 0 <= i < n => Datagram(Payload(i)))
  }

  /** Replies that each validate to their own position count as a clean in-order run. */
  lemma {:induction false} ValidInPlace(ds: seq<seq<byte>>)
    requires forall k :: 0 <= k < |ds| ==> ParseReply(ds[k]) == Some(k)
    ensures |ValidSeqs(ds)| == |ds| && PayloadErrors(ds) == 0
    ensures forall k :: 0 <= k < |ds| ==> ValidSeqs(ds)[k] == k
    decreases |ds|
  {
    if ds != [] {
      ValidInPlace(ds[..|ds| - 1]);
    }
  }

  lemma EchoReplies(n: nat)
    ensures Replies(EchoAll(n), n) == seq(n, i requires 0 <= i < n => Payload(i))
  {
    RecvCountAt(EchoAll(n), n, n);
  }

  lemma {:induction false} ElemsOfIota(vs: seq<int>)
    requires forall k :: 0 <= k < |vs| ==> vs[k] == k
    ensures Elems(vs) == Range(|vs|)
  {
    forall s ensures s in Elems(vs) <==> Below(s, |vs|) {
      InElems(vs, s);
      if Below(s, |vs|) {
        assert vs[s] == s;
      }
    }
  }

  /** The tallies of a perfect echo of n packets: n distinct, in-order, valid replies. */
  lemma EchoTally(n: nat)
    ensures var ds := Replies(EchoAll(n), n);
      && |ds| == n && PayloadErrors(ds) == 0
      && Elems(ValidSeqs(ds)) == Range(n) && OutOfOrder(ValidSeqs(ds)) == 0
  {
    var ds := Replies(EchoAll(n), n);
    EchoReplies(n);
    forall k | 0 <= k < n ensures ParseReply(ds[k]) == Some(k) {
      ParsePayload(k);
    }
    ValidInPlace(ds);
    InOrderStream(ValidSeqs(ds));
    ElemsOfIota(ValidSeqs(ds));
  }

  lemma MissingNone(n: nat)
    ensures Missing(n, Range(n)) == {}
  {
    assert forall s :: s !in Missing(n, Range(n));
  }

  /**
   * When every packet comes back once, in order, the round is perfect:
   * nothing missing, no duplicates, nothing out of order, no errors, success.
   * At least one packet is sent: with none, the loss rate printed before the
   * verdict divides by zero.
   */
  method PerfectEcho(n: nat) returns (r: Report)
    requires n > 0
    ensures r.received == n && r.unique == n && r.missing == {}
    ensures r.duplicates == 0 && r.outOfOrder == 0 && r.payloadErrors == 0 && r.success
  {
    var t := ReceiveReplies(n, EchoAll(n));
    EchoTallied(n, t);
    PerfectSummary(n, t);
    r := Summarize(n, t);
  }

  /** The tallies `ReceiveReplies` keeps over a perfect echo. */
  lemma EchoTallied(n: nat, t: Tally)
    requires var ds := Replies(EchoAll(n), n);
      && t.received == |ds|
      && t.seqs == Elems(ValidSeqs(ds))
      && t.payloadErrors == PayloadErrors(ds)
      && t.outOfOrder == OutOfOrder(ValidSeqs(ds))
    ensures t.received == n && t.seqs == Range(n) && t.payloadErrors == 0 && t.outOfOrder == 0
  {
    EchoTally(n);
  }

  /** The report of n distinct, in-order, valid replies to n packets. */
  lemma PerfectSummary(n: nat, t: Tally)
    requires n > 0
    requires t.received == n && t.seqs == Range(n) && t.payloadErrors == 0 && t.outOfOrder == 0
    ensures var r := Summarize(n, t);
      && r.received == n && r.unique == n && r.missing == {}
      && r.duplicates == 0 && r.outOfOrder == 0 && r.payloadErrors == 0 && r.success
  {
    RangeSize(n);
    MissingNone(n);
  }
}
