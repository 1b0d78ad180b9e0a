/**
 * The `latency` mode of tests/nettest.py: every rate in the (shuffled) test
 * order sends `10 * rate` packets with consecutive ids, recording a
 * `LatencyInfo` per id; a receiver thread stamps the record named by each
 * echo; afterwards each rate in ascending order is summarised over its
 * answered records.
 */
module LatencyMode {
  import opened Bytes
  import opened Wrappers
  import opened IdCodec
  import opened Samples

  const SecondsPerRate := 10
  /** The rates, in the ascending order the summary walks them. */
  const Rates: seq<nat> := [1, 10, 100, 1000]
  /** The starting value of `min_latency`. */
  const MinSentinel := 1000000000

  /** A `LatencyInfo` record: its rate, its send time, and its receive time once an echo named it. */
  datatype Info = Info(rate: nat, sendTime: int, recvTime: Option<int>)

  /** An echo as the receiver thread reads it, with the clock reading taken on arrival. */
  datatype Arrival = Arrival(data: seq<byte>, time: int)

  /** `total_sent`: the sum of `10 * rate` over the test order. */
  function TotalSent(order: seq<nat>): nat {
    if order == [] then 0 else TotalSent(order[..|order| - 1]) + SecondsPerRate * order[|order| - 1]
  }

  lemma {:induction false} TotalSentGrows(order: seq<nat>, i: nat, j: nat)
    requires i <= j <= |order|
    ensures TotalSent(order[..i]) <= TotalSent(order[..j])
    decreases j
  {
    if i < j {
      TotalSentGrows(order, i, j - 1);
      assert order[..j][..j - 1] == order[..j - 1];
    }
  }

  /** The rate whose block of ids contains `id`; ids past the last block belong to none. */
  function RateOf(order: seq<nat>, id: nat): (r: Option<nat>)
    ensures r.Some? <==> id < TotalSent(order)
  {
    if order == [] then None
    else
      var init := order[..|order| - 1];
      if TotalSent(init) <= id < TotalSent(order) then Some(order[|order| - 1])
      else RateOf(init, id)
  }

  /** The j-th rate of the order owns the ids from the total of the rates before it. */
  lemma {:induction false} RateOfBlock(order: seq<nat>, j: nat, id: nat)
    requires j < |order|
    requires TotalSent(order[..j]) <= id < TotalSent(order[..j]) + SecondsPerRate * order[j]
    ensures RateOf(order, id) == Some(order[j])
    decreases |order|
  {
    var init := order[..|order| - 1];
    assert order[..|order|] == order;
    if j < |order| - 1 {
      assert init[..j] == order[..j];
      assert order[..j + 1] == init[..j + 1];
      assert order[..j + 1][..j] == order[..j];
      assert TotalSent(order[..j + 1]) == TotalSent(order[..j]) + SecondsPerRate * order[j];
      TotalSentGrows(init, j + 1, |init|);
      assert init[..|init|] == init;
      RateOfBlock(init, j, id);
    }
  }

  /**
   * The send phase: `total_sent` is summed first, then every rate in the order
   * sends its block, each send creating the record for the next id with the
   * clock reading `clock(id)` and no receive time.
   */
  method SendAll(order: seq<nat>, clock: nat -> int) returns (infos: map<nat, Info>, totalSent: nat, nextId: nat)
    ensures totalSent == TotalSent(order) && nextId == totalSent
    ensures forall id: nat :: id in infos <==> id < nextId
    ensures forall id :: id in infos ==> infos[id] == Info(RateOf(order, id).value, clock(id), None)
  {
    totalSent := 0;
    var j := 0;
    while j < |order|
      invariant j <= |order| && totalSent == TotalSent(order[..j])
    {
      assert order[..j + 1][..j] == order[..j];
      totalSent := totalSent + SecondsPerRate * order[j];
      j := j + 1;
    }
    assert order[..|order|] == order;

    infos := map[];
    nextId := 0;
    j := 0;
    while j < |order|
      invariant j <= |order| && nextId == TotalSent(order[..j]) <= TotalSent(order)
      invariant forall id: nat :: id in infos <==> id < nextId
      invariant forall id :: id in infos ==> infos[id] == Info(RateOf(order, id).value, clock(id), None)
    {
      var rate := order[j];
      assert order[..j + 1][..j] == order[..j];
      TotalSentGrows(order, j + 1, |order|);
      var i := 0;
      while i < SecondsPerRate * rate
        invariant i <= SecondsPerRate * rate && nextId == TotalSent(order[..j]) + i <= TotalSent(order)
        invariant forall id: nat :: id in infos <==> id < nextId
        invariant forall id :: id in infos ==> infos[id] == Info(RateOf(order, id).value, clock(id), None)
      {
        RateOfBlock(order, j, nextId);
        infos := infos[nextId := Info(rate, clock(nextId), None)];
        nextId := nextId + 1;
        i := i + 1;
      }
      j := j + 1;
    }
  }

  // ---------------------------------------------------------------------------
  // The receiver thread

  /** What the receiver thread leaves behind, and whether a `KeyError` ended it. */
  datatype Received = Received(infos: map<nat, Info>, stopped: bool)

  /**
   * Each echo stamps the record its id names with its arrival time; an id with
   * no record raises `KeyError`, which ends the thread and leaves later echoes
   * unread.
   */
  function Stamp(infos: map<nat, Info>, arrivals: seq<Arrival>): Received {
    if arrivals == [] then Received(infos, false)
    else
      var id := DecodeId(arrivals[0].data);
      if id !in infos then Received(infos, true)
      else Stamp(infos[id := infos[id].(recvTime := Some(arrivals[0].time))], arrivals[1..])
  }

  /** The receiver thread's loop over the echoes, in arrival order. */
  method ReceiverThread(infos0: map<nat, Info>, arrivals: seq<Arrival>) returns (infos: map<nat, Info>, stopped: bool)
    ensures Received(infos, stopped) == Stamp(infos0, arrivals)
  {
    infos := infos0;
    stopped := false;
    var i := 0;
    while i < |arrivals|
      invariant i <= |arrivals| && Stamp(infos0, arrivals) == Stamp(infos, arrivals[i..])
    {
      assert arrivals[i..][1..] == arrivals[i + 1..];
      var recvId := DecodeId(arrivals[i].data);
      if recvId !in infos {
        stopped := true;
        return;
      }
      infos := infos[recvId := infos[recvId].(recvTime := Some(arrivals[i].time))];
      i := i + 1;
    }
  }

  /**
   * Echoes only stamp receive times: the ids, rates and send times stay, and
   * a record no echo names is untouched.
   */
  lemma {:induction false} StampKeeps(infos: map<nat, Info>, arrivals: seq<Arrival>)
    ensures var out := Stamp(infos, arrivals).infos;
      && out.Keys == infos.Keys
      && (forall id :: id in out ==> out[id].rate == infos[id].rate && out[id].sendTime == infos[id].sendTime)
      && (forall id :: id in out && (forall k :: 0 <= k < |arrivals| ==> DecodeId(arrivals[k].data) != id) ==> out[id] == infos[id])
    decreases |arrivals|
  {
    if arrivals != [] {
      var id := DecodeId(arrivals[0].data);
      if id in infos {
        var next := infos[id := infos[id].(recvTime := Some(arrivals[0].time))];
        StampKeeps(next, arrivals[1..]);
        var out := Stamp(infos, arrivals).infos;
        forall x | x in out && (forall k :: 0 <= k < |arrivals| ==> DecodeId(arrivals[k].data) != x)
          ensures out[x] == infos[x]
        {
          assert DecodeId(arrivals[0].data) != x;
          forall k | 0 <= k < |arrivals| - 1 ensures DecodeId(arrivals[1..][k].data) != x {
            assert arrivals[1..][k] == arrivals[k + 1];
          }
        }
      }
    }
  }

  /** Once the thread has read an echo of an id it never sent, nothing after it is recorded. */
  lemma UnknownIdStops(infos: map<nat, Info>, arrivals: seq<Arrival>)
    requires arrivals != [] && DecodeId(arrivals[0].data) !in infos
    ensures Stamp(infos, arrivals) == Received(infos, true)
  {
  }

  // ---------------------------------------------------------------------------
  // Per-rate summary

  /** The latencies (`recv_time - send_time`) of the answered records of `rate` among ids below n, in id order. */
  function Latencies(infos: map<nat, Info>, rate: nat, n: nat): (lat: seq<int>)
    ensures |lat| <= n
  {
    if n == 0 then []
    else
      var id := n - 1;
      Latencies(infos, rate, id) +
        if id in infos && infos[id].rate == rate && infos[id].recvTime.Some?
        then [infos[id].recvTime.value - infos[id].sendTime] else []
  }

  /** `min_latency`, `max_latency`, `total_latency` and `num_valid` for one rate. */
  datatype RateSummary = RateSummary(rate: nat, min: int, max: int, total: int, count: nat)

  function SummaryOf(infos: map<nat, Info>, total: nat, rate: nat): RateSummary {
    var lat := Latencies(infos, rate, total);
    RateSummary(rate, MinFrom(MinSentinel, lat), MaxFrom(0, lat), Sum(lat), |lat|)
  }

  function Answered(infos: map<nat, Info>, rate: nat, n: nat): set<nat> {
    set id: nat | id < n && id in infos && infos[id].rate == rate && infos[id].recvTime.Some?
  }

  /** `num_valid` counts exactly the records of the rate that an echo stamped. */
  lemma {:induction false} CountIsAnswered(infos: map<nat, Info>, rate: nat, n: nat)
    ensures |Latencies(infos, rate, n)| == |Answered(infos, rate, n)|
    decreases n
  {
    if n > 0 {
      CountIsAnswered(infos, rate, n - 1);
      AnsweredStep(infos, rate, n);
    }
  }

  /** Record n - 1 joins the answered set exactly when an echo stamped it. */
  lemma AnsweredStep(infos: map<nat, Info>, rate: nat, n: nat)
    requires n > 0
    ensures var id := n - 1;
      && id !in Answered(infos, rate, n - 1)
      && Answered(infos, rate, n) ==
           Answered(infos, rate, n - 1) + if id in infos && infos[id].rate == rate && infos[id].recvTime.Some? then {id} else {}
  {
  }

  /**
   * The summary's bounds: the minimum never exceeds the 10^9 start nor any
   * latency and is one of them, the maximum never falls below 0 nor any
   * latency and is one of them.
   */
  lemma SummaryBounds(infos: map<nat, Info>, total: nat, rate: nat)
    ensures var s := SummaryOf(infos, total, rate); var lat := Latencies(infos, rate, total);
      && s.min <= MinSentinel && (forall k :: 0 <= k < |lat| ==> s.min <= lat[k]) && (s.min == MinSentinel || s.min in lat)
      && s.max >= 0 && (forall k :: 0 <= k < |lat| ==> s.max >= lat[k]) && (s.max == 0 || s.max in lat)
  {
    MinFromIsLeast(MinSentinel, Latencies(infos, rate, total));
    MaxFromIsGreatest(0, Latencies(infos, rate, total));
  }

  /** The inner loop for one rate over `send_infos.values()`, which hold ids 0..total-1 in insertion order. */
  method SummarizeRate(infos: map<nat, Info>, total: nat, rate: nat) returns (s: RateSummary)
    requires forall id: nat :: id in infos <==> id < total
    ensures s == SummaryOf(infos, total, rate)
  {
    var minLatency := MinSentinel;
    var maxLatency := 0;
    var totalLatency := 0;
    var numValid := 0;
    ghost var lat: seq<int> := [];
    var id := 0;
    while id < total
      invariant id <= total && lat == Latencies(infos, rate, id)
      invariant minLatency == MinFrom(MinSentinel, lat) && maxLatency == MaxFrom(0, lat)
      invariant totalLatency == Sum(lat) && numValid == |lat|
    {
      if id in infos && infos[id].rate == rate && infos[id].recvTime.Some? {
        var latency := infos[id].recvTime.value - infos[id].sendTime;
        assert (lat + [latency])[..|lat|] == lat;
        lat := lat + [latency];
        numValid := numValid + 1;
        totalLatency := totalLatency + latency;
        if latency < minLatency {
          minLatency := latency;
        }
        if latency > maxLatency {
          maxLatency := latency;
        }
      }
      id := id + 1;
    }
    s := RateSummary(rate, minLatency, maxLatency, totalLatency, numValid);
  }

  /**
   * The summary over the rates in ascending order: a rate with no answered
   * record divides by `num_valid == 0` and the script ends there, so only the
   * rates before it are summarised. `numRecv` counts every answered record
   * walked. The records are keyed by exactly the ids 0..total-1 that
   * `SendAll` assigned and `Stamp` keeps.
   */
  method SummarizeAll(infos: map<nat, Info>, total: nat) returns (summaries: seq<RateSummary>, numRecv: nat, failed: bool)
    requires forall id: nat :: id in infos <==> id < total
    ensures |summaries| <= |Rates|
    ensures forall k :: 0 <= k < |summaries| ==> summaries[k] == SummaryOf(infos, total, Rates[k]) && summaries[k].count > 0
    ensures failed <==> |summaries| < |Rates|
    ensures failed ==> SummaryOf(infos, total, Rates[|summaries|]).count == 0
    ensures numRecv == CountSum(summaries)
  {
    summaries := [];
    numRecv := 0;
    failed := false;
    ghost var summary := (r: nat) => SummaryOf(infos, total, r);
    var k := 0;
    while k < |Rates|
      invariant k <= |Rates| && |summaries| == k
      invariant forall j :: 0 <= j < k ==> summaries[j] == summary(Rates[j]) && summaries[j].count > 0
      invariant numRecv == CountSum(summaries)
    {
      var s := SummarizeRate(infos, total, Rates[k]);
      assert s == summary(Rates[k]);
      numRecv := numRecv + s.count;
      if s.count == 0 {
        failed := true;
        return;
      }
      CountSumAppend(summaries, s);
      summaries := summaries + [s];
      k := k + 1;
    }
  }

  function CountSum(ss: seq<RateSummary>): nat {
    if ss == [] then 0 else CountSum(ss[..|ss| - 1]) + ss[|ss| - 1].count
  }

  lemma CountSumAppend(ss: seq<RateSummary>, s: RateSummary)
    ensures CountSum(ss + [s]) == CountSum(ss) + s.count
  {
    assert (ss + [s])[..|ss|] == ss;
  }
}
