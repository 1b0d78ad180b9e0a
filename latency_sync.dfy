/**
 * The `latency_sync` mode of tests/nettest.py: for one rate, send
 * `rate * 5` ids one at a time, wait for each echo, keep the round-trip time
 * only when the echo carries the id just sent, then summarise the kept
 * samples with min, max, sum, count and three percentiles of the sorted copy.
 */
module LatencySync {
  import opened Bytes
  import opened Wrappers
  import opened IdCodec
  import opened Samples

  const SecondsPerRate := 5

  /** What the wait after one send yields: a reply with its measured round trip, or `socket.timeout`. */
  datatype Answer = Reply(data: seq<byte>, rtt: int) | TimedOut

  /** The reply is the echo of packet `id`. */
  predicate Matches(a: Answer, id: nat) {
    a.Reply? && DecodeId(a.data) == id
  }

  /**
   * The samples kept after the first `n` sends; the answer to send i is
   * `answers[i]`, and a send with no answer listed timed out.
   */
  function Recorded(answers: seq<Answer>, n: nat): (lat: seq<int>)
    ensures |lat| <= n
  {
    if n == 0 then []
    else Recorded(answers, n - 1) + if n - 1 < |answers| && Matches(answers[n - 1], n - 1) then [answers[n - 1].rtt] else []
  }

  /** The send/wait loop for one rate: `packet_id` advances on every send, matched or not. */
  method SyncRound(rate: nat, answers: seq<Answer>) returns (latencies: seq<int>, packetId: nat)
    ensures packetId == rate * SecondsPerRate
    ensures latencies == Recorded(answers, rate * SecondsPerRate)
  {
    latencies := [];
    packetId := 0;
    var i := 0;
    while i < rate * SecondsPerRate
      invariant i <= rate * SecondsPerRate && packetId == i
      invariant latencies == Recorded(answers, i)
    {
      var answer := if i < |answers| then answers[i] else TimedOut;
      if answer.Reply? {
        var replyId := DecodeId(answer.data);
        if replyId == packetId {
          latencies := latencies + [answer.rtt];
        }
      }
      packetId := packetId + 1;
      i := i + 1;
    }
  }

  function MatchingSends(answers: seq<Answer>, n: nat): set<nat> {
    set i: nat | i < n && i < |answers| && Matches(answers[i], i)
  }

  /** One sample per send whose echo carried its own id, and no other. */
  lemma {:induction false} RecordedCountsMatches(answers: seq<Answer>, n: nat)
    ensures |Recorded(answers, n)| == |MatchingSends(answers, n)|
    decreases n
  {
    if n > 0 {
      RecordedCountsMatches(answers, n - 1);
      MatchingSendsStep(answers, n);
    }
  }

  lemma MatchingSendsStep(answers: seq<Answer>, n: nat)
    requires n > 0
    ensures var hit := n - 1 < |answers| && Matches(answers[n - 1], n - 1);
      && |Recorded(answers, n)| == |Recorded(answers, n - 1)| + (if hit then 1 else 0)
      && MatchingSends(answers, n) == MatchingSends(answers, n - 1) + (if hit then {n - 1} else {})
  {
  }

  /** `a` is packet i's own 8-byte message, echoed back unchanged. */
  predicate IntactEcho(a: Answer, i: nat) {
    i < IdLimit && a.Reply? && a.data == EncodeId(i).value
  }

  /** The echo of packet i, intact, matches packet i. */
  lemma EchoMatches(a: Answer, i: nat)
    requires IntactEcho(a, i)
    ensures Matches(a, i)
  {
    IdRoundTrip(i, []);
    assert EncodeId(i).value + [] == a.data;
  }

  /** When every send is echoed back intact, every send yields its own round trip. */
  lemma {:induction false} AllEchoed(answers: seq<Answer>, n: nat)
    requires n <= |answers|
    requires forall i :: 0 <= i < n ==> IntactEcho(answers[i], i)
    ensures |Recorded(answers, n)| == n
    ensures forall i :: 0 <= i < n ==> answers[i].Reply? && Recorded(answers, n)[i] == answers[i].rtt
    decreases n
  {
    if n > 0 {
      AllEchoed(answers, n - 1);
      EchoMatches(answers[n - 1], n - 1);
      RecordedStep(answers, n);
      var prev := Recorded(answers, n - 1);
      forall i | 0 <= i < n ensures answers[i].Reply? && Recorded(answers, n)[i] == answers[i].rtt {
        if i < n - 1 {
          assert Recorded(answers, n)[i] == prev[i];
        }
      }
    }
  }

  lemma RecordedStep(answers: seq<Answer>, n: nat)
    requires 0 < n <= |answers| && Matches(answers[n - 1], n - 1)
    ensures Recorded(answers, n) == Recorded(answers, n - 1) + [answers[n - 1].rtt]
  {
  }

  /** A stale echo of an earlier id is not taken for the current packet. */
  lemma StaleEchoIgnored(id: nat, earlier: nat, rtt: int)
    requires earlier < id < IdLimit
    ensures !Matches(Reply(EncodeId(earlier).value, rtt), id)
  {
    IdRoundTrip(earlier, []);
    assert EncodeId(earlier).value + [] == EncodeId(earlier).value;
  }

  /** An empty datagram decodes as id 0, so it is taken as the echo of the first packet. */
  lemma EmptyReplyMatchesFirst(rtt: int)
    ensures Matches(Reply([], rtt), 0)
  {
  }

  // ---------------------------------------------------------------------------
  // Statistics

  datatype Stats = Stats(min: int, max: int, p50: int, p95: int, p99: int, count: nat, sum: int)

  /** `n // 2`. */
  function P50(n: nat): nat { n / 2 }

  /** `int(n * 0.95)`; for the list lengths this test can produce the float product truncates to this. */
  function P95(n: nat): nat { n * 95 / 100 }

  /** `int(n * 0.99)` from 100 samples on, the last index below that. */
  function P99(n: nat): nat
    requires n > 0
  {
    if n >= 100 then n * 99 / 100 else n - 1
  }

  /** The percentile indices are valid positions and ascend. */
  lemma PercentileIndices(n: nat)
    requires n > 0
    ensures P50(n) <= P95(n) <= P99(n) < n
  {
  }

  /**
   * The statistics block: nothing when no sample was kept, otherwise the
   * summary of the samples, percentiles read from the sorted copy.
   */
  function StatsOf(lat: seq<int>): (r: Option<Stats>)
    ensures r.Some? <==> |lat| > 0
    ensures r.Some? ==> r.value.count == |lat| && r.value.sum == Sum(lat)
  {
    if lat == [] then None
    else
      var s := SortSeq(lat);
      var n := |s|;
      PercentileIndices(n);
      Some(Stats(Min(lat), Max(lat), s[P50(n)], s[P95(n)], s[P99(n)], n, Sum(lat)))
  }

  /** The summary is ordered: min <= p50 <= p95 <= p99 <= max, with min and max actual samples. */
  lemma StatsOrdered(lat: seq<int>)
    requires |lat| > 0
    ensures var st := StatsOf(lat).value;
      st.min <= st.p50 <= st.p95 <= st.p99 <= st.max && st.min in lat && st.max in lat
  {
    var s := SortSeq(lat);
    var n := |s|;
    PercentileIndices(n);
    assert StatsOf(lat).value == Stats(Min(lat), Max(lat), s[P50(n)], s[P95(n)], s[P99(n)], n, Sum(lat));
    SortedEnds(lat);
    SortedBetween(s, P50(n), P95(n), P99(n));
    MinFromIsLeast(lat[0], lat);
    MaxFromIsGreatest(lat[0], lat);
  }

  lemma SortedBetween(s: seq<int>, i: nat, j: nat, k: nat)
    requires IsSorted(s) && i <= j <= k < |s|
    ensures s[0] <= s[i] <= s[j] <= s[k] <= s[|s| - 1]
  {
  }

  /** The summary does not depend on the order the samples arrived in. */
  lemma StatsPermutation(a: seq<int>, b: seq<int>)
    requires multiset(a) == multiset(b)
    ensures StatsOf(a) == StatsOf(b)
  {
    assert |a| == |multiset(a)| == |multiset(b)| == |b|;
    if |a| > 0 {
      SortedUnique(SortSeq(a), SortSeq(b));
      SortedEnds(a);
      SortedEnds(b);
      SumPermutation(a, b);
    }
  }

  /**
   * The outer loop over the test order: each rate runs its round with the
   * answers `answersFor(rate)`, and `results` gains an entry for the rate
   * exactly when the round kept a sample.
   */
  method SyncAll(order: seq<nat>, answersFor: nat -> seq<Answer>) returns (results: map<nat, Stats>)
    ensures forall r :: r in results <==> r in order && |Recorded(answersFor(r), r * SecondsPerRate)| > 0
    ensures forall r :: r in results ==> Some(results[r]) == StatsOf(Recorded(answersFor(r), r * SecondsPerRate))
  {
    ghost var outcome := (r: nat) => StatsOf(Recorded(answersFor(r), r * SecondsPerRate));
    results := map[];
    var k := 0;
    while k < |order|
      invariant k <= |order| && Collected(order[..k], outcome, results)
    {
      var rate := order[k];
      var latencies, packetId := SyncRound(rate, answersFor(rate));
      var st := StatsOf(latencies);
      CollectStep(order[..k], outcome, results, rate, st);
      if st.Some? {
        results := results[rate := st.value];
      }
      PrefixStep(order, k);
      k := k + 1;
    }
    assert order[..|order|] == order;
  }

  lemma PrefixStep<T>(s: seq<T>, k: nat)
    requires k < |s|
    ensures s[..k + 1] == s[..k] + [s[k]]
  {
  }

  /** `results` holds, for exactly the rates seen whose round kept a sample, that round's statistics. */
  ghost predicate Collected(seen: seq<nat>, outcome: nat -> Option<Stats>, results: map<nat, Stats>) {
    && (forall r :: r in results <==> r in seen && outcome(r).Some?)
    && (forall r :: r in results ==> Some(results[r]) == outcome(r))
  }

  lemma CollectStep(seen: seq<nat>, outcome: nat -> Option<Stats>, results: map<nat, Stats>, rate: nat, st: Option<Stats>)
    requires Collected(seen, outcome, results) && st == outcome(rate)
    ensures Collected(seen + [rate], outcome, if st.Some? then results[rate := st.value] else results)
  {
  }
}
