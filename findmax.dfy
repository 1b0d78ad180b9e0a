/**
 * The binary search for the highest sustainable packet rate in
 * tests/stress_test.py: probe the middle of [low, high], move `low` above it
 * when at least 99% of the 1000 packets came back, `high` below it otherwise,
 * for at most 10 rounds.
 */
module CapacitySearch {
  import opened Bytes
  import opened Wrappers
  import opened Throughput

  const LowRate := 1000
  const HighRate := 50000
  const MaxIterations := 10
  const PacketsSent := 1000
  /** After 10 halvings of the 49001 candidate rates at most 47 remain undecided. */
  const Resolution := 47

  /** An entry of `results`: the rate probed and what the round reported. */
  datatype Probe = Probe(rate: int, report: Report)

  /** The search's own rule, `received / sent >= 0.99`; it does not look at `success`. */
  predicate RateHolds(r: Report) {
    r.received * 100 >= r.sent * 99
  }

  /** Every round sends `packets_sent = 1000`. */
  ghost predicate FixedRounds(round: int -> Report) {
    forall rate :: round(rate).sent == PacketsSent
  }

  /** A network whose delivery only gets worse as the rate grows. */
  ghost predicate Monotone(round: int -> Report) {
    forall r, r' :: LowRate <= r <= r' <= HighRate && RateHolds(round(r')) ==> RateHolds(round(r))
  }

  function Pow2(k: nat): (p: nat)
    ensures p >= 1
  {
    if k == 0 then 1 else 2 * Pow2(k - 1)
  }

  /** The rate the search settled on, with 999 standing for "none of the range works". */
  function Floor(bestRate: int): int {
    if bestRate == 0 then LowRate - 1 else bestRate
  }

  /** `results` holds the network's answer at each probed rate, all inside the search range. */
  ghost predicate Recorded(round: int -> Report, results: seq<Probe>) {
    forall k :: 0 <= k < |results| ==>
      LowRate <= results[k].rate <= HighRate && results[k].report == round(results[k].rate)
  }

  /** Probed rates that held lie below `low`, the others above `high`. */
  predicate Separated(results: seq<Probe>, low: int, high: int) {
    forall k :: 0 <= k < |results| ==>
      (RateHolds(results[k].report) <==> results[k].rate < low) && (results[k].rate < low || results[k].rate > high)
  }

  predicate Probed(results: seq<Probe>, rate: int, holds: bool) {
    exists k :: 0 <= k < |results| && results[k].rate == rate && RateHolds(results[k].report) == holds
  }

  /** What holds at the top of every round of the search. */
  ghost predicate Searching(round: int -> Report, low: int, high: int, bestRate: int, iteration: nat, results: seq<Probe>) {
    && LowRate <= low <= high + 1 && high <= HighRate
    && iteration == |results| <= MaxIterations
    && (high - low + 1) * Pow2(iteration) <= HighRate - LowRate + 1
    && bestRate == (if low == LowRate then 0 else low - 1)
    && (iteration == 0 ==> low <= high)
    && Recorded(round, results)
    && Separated(results, low, high)
    && (low > LowRate ==> Probed(results, low - 1, true))
    && (high < HighRate ==> Probed(results, high + 1, false))
  }

  /** One round probes the middle and halves the range on the side the answer rules out. */
  lemma Step(round: int -> Report, low: int, high: int, bestRate: int, iteration: nat, results: seq<Probe>, mid: int,
              low': int, high': int, bestRate': int)
    requires Searching(round, low, high, bestRate, iteration, results)
    requires low <= high && iteration < MaxIterations && mid == (low + high) / 2
    requires var holds := RateHolds(round(mid));
      && low' == (if holds then mid + 1 else low)
      && high' == (if holds then high else mid - 1)
      && bestRate' == (if holds then mid else bestRate)
    ensures Searching(round, low', high', bestRate', iteration + 1, results + [Probe(mid, round(mid))])
  {
    var p := Probe(mid, round(mid));
    var holds := RateHolds(p.report);
    RecordedAppend(round, results, mid);
    SeparatedAppend(results, low, high, p, low', high');
    HalvingStep(high - low + 1, high' - low' + 1, iteration);
    if low' > LowRate {
      if holds { ProbedLast(results, p); } else { ProbedKept(results, low - 1, true, p); }
    }
    if high' < HighRate {
      if !holds { ProbedLast(results, p); } else { ProbedKept(results, high + 1, false, p); }
    }
  }

  lemma RecordedAppend(round: int -> Report, results: seq<Probe>, mid: int)
    requires Recorded(round, results) && LowRate <= mid <= HighRate
    ensures Recorded(round, results + [Probe(mid, round(mid))])
  {
    var rs := results + [Probe(mid, round(mid))];
    assert forall k :: 0 <= k < |results| ==> rs[k] == results[k];
  }

  /** A probe of a rate inside [low, high] moves `low` above it when it held, `high` below it otherwise. */
  lemma SeparatedAppend(results: seq<Probe>, low: int, high: int, p: Probe, low': int, high': int)
    requires Separated(results, low, high) && low <= p.rate <= high
    requires low' == (if RateHolds(p.report) then p.rate + 1 else low)
    requires high' == (if RateHolds(p.report) then high else p.rate - 1)
    ensures Separated(results + [p], low', high')
  {
    var rs := results + [p];
    assert forall k :: 0 <= k < |results| ==> rs[k] == results[k];
    assert rs[|results|] == p;
  }

  lemma ProbedLast(results: seq<Probe>, p: Probe)
    ensures Probed(results + [p], p.rate, RateHolds(p.report))
  {
    assert (results + [p])[|results|] == p;
  }

  lemma ProbedKept(results: seq<Probe>, rate: int, holds: bool, p: Probe)
    requires Probed(results, rate, holds)
    ensures Probed(results + [p], rate, holds)
  {
    var k :| 0 <= k < |results| && results[k].rate == rate && RateHolds(results[k].report) == holds;
    assert (results + [p])[k] == results[k];
  }

  /**
   * The search, with the network's answer at each rate given as `round`.
   * `bestRate` is the highest probed rate that held (0 if none), every probe
   * is recorded in order, and on a network whose delivery is monotone in the
   * rate the true limit lies within `Resolution` of `bestRate` — exactly at it
   * when the range closed before the tenth round.
   */
  method FindMax(round: int -> Report) returns (bestRate: int, results: seq<Probe>)
    requires FixedRounds(round)
    ensures 1 <= |results| <= MaxIterations
    ensures Recorded(round, results)
    ensures bestRate == 0 || LowRate <= bestRate <= HighRate
    ensures bestRate != 0 ==> Probed(results, bestRate, true)
    ensures forall k :: 0 <= k < |results| && RateHolds(results[k].report) ==> results[k].rate <= bestRate
    ensures forall k :: 0 <= k < |results| && !RateHolds(results[k].report) ==> results[k].rate > bestRate
    ensures Monotone(round) ==> forall r :: LowRate <= r <= Floor(bestRate) ==> RateHolds(round(r))
    ensures Monotone(round) ==> forall r :: Floor(bestRate) + Resolution < r <= HighRate ==> !RateHolds(round(r))
    ensures Monotone(round) && |results| < MaxIterations ==>
      forall r :: Floor(bestRate) < r <= HighRate ==> !RateHolds(round(r))
  {
    var low := LowRate;
    var high := HighRate;
    bestRate := 0;
    results := [];
    var iteration := 0;
    while low <= high && iteration < MaxIterations
      invariant Searching(round, low, high, bestRate, iteration, results)
      decreases high - low + 1
    {
      var mid := (low + high) / 2;
      ghost var low0, high0, bestRate0, results0 := low, high, bestRate, results;
      iteration := iteration + 1;
      var result := round(mid);
      results := results + [Probe(mid, result)];
      if result.received * 100 >= result.sent * 99 {
        bestRate := mid;
        low := mid + 1;
      } else {
        high := mid - 1;
      }
      Step(round, low0, high0, bestRate0, iteration - 1, results0, mid, low, high, bestRate);
    }
    Conclude(round, low, high, bestRate, iteration, results);
  }

  lemma HalvingStep(width: int, width': int, i: nat)
    requires 0 <= 2 * width' <= width && width * Pow2(i) <= HighRate - LowRate + 1
    ensures width' * Pow2(i + 1) <= HighRate - LowRate + 1
  {
    assert width' * Pow2(i + 1) == 2 * width' * Pow2(i);
  }

  /** When the search stops, a monotone network's limit is pinned between `low - 1` and `high`. */
  lemma Conclude(round: int -> Report, low: int, high: int, bestRate: int, iteration: nat, results: seq<Probe>)
    requires Searching(round, low, high, bestRate, iteration, results)
    requires !(low <= high && iteration < MaxIterations)
    ensures 1 <= |results| && (bestRate == 0 || LowRate <= bestRate <= HighRate)
    ensures bestRate != 0 ==> Probed(results, bestRate, true)
    ensures forall k :: 0 <= k < |results| && RateHolds(results[k].report) ==> results[k].rate <= bestRate
    ensures forall k :: 0 <= k < |results| && !RateHolds(results[k].report) ==> results[k].rate > bestRate
    ensures high - Floor(bestRate) <= Resolution
    ensures iteration < MaxIterations ==> high == Floor(bestRate)
    ensures Monotone(round) ==> forall r :: LowRate <= r <= Floor(bestRate) ==> RateHolds(round(r))
    ensures Monotone(round) ==> forall r :: high < r <= HighRate ==> !RateHolds(round(r))
  {
    if low <= high {
      WidthBound(high - low + 1, iteration);
    }
    if Monotone(round) && low > LowRate {
      var k :| 0 <= k < |results| && results[k].rate == low - 1 && RateHolds(results[k].report);
      assert RateHolds(round(low - 1));
    }
    if Monotone(round) && high < HighRate {
      var k :| 0 <= k < |results| && results[k].rate == high + 1 && !RateHolds(results[k].report);
      assert !RateHolds(round(high + 1));
    }
  }

  /** Ten halvings leave at most `Resolution` of the 49001 candidate rates. */
  lemma WidthBound(width: int, iteration: nat)
    requires iteration >= MaxIterations && width >= 0
    requires width * Pow2(iteration) <= HighRate - LowRate + 1
    ensures width <= Resolution
  {
    Pow2Grows(MaxIterations, iteration);
    Pow2Ten();
    MulMono(width, 1024, Pow2(iteration));
  }

  lemma Pow2Ten()
    ensures Pow2(MaxIterations) == 1024
  {
    assert Pow2(2) == 4;
    assert Pow2(4) == 16;
    assert Pow2(6) == 64;
    assert Pow2(8) == 256;
  }

  lemma MulMono(a: int, b: int, c: int)
    requires a >= 0 && b <= c
    ensures a * b <= a * c
  {
  }

  lemma {:induction false} Pow2Grows(i: nat, j: nat)
    requires i <= j
    ensures Pow2(i) <= Pow2(j)
    decreases j
  {
    if i < j {
      Pow2Grows(i, j - 1);
    }
  }

  /**
   * A network that keeps up with exactly the rates up to 8000 packets/s: the
   * search reports a best rate no more than `Resolution` below 8000.
   */
  method ThresholdNetwork(round: int -> Report) returns (bestRate: int)
    requires FixedRounds(round)
    requires forall r :: RateHolds(round(r)) <==> r <= 8000
    ensures 8000 - Resolution <= bestRate <= 8000
  {
    var results;
    bestRate, results := FindMax(round);
    assert Monotone(round);
    assert RateHolds(round(8000));
    if Floor(bestRate) >= LowRate {
      assert RateHolds(round(Floor(bestRate)));
    }
  }

  /** Replies that all validate to `v` give `v` at every position. */
  lemma {:induction false} ValidRepeated(ds: seq<seq<byte>>, v: int)
    requires forall k :: 0 <= k < |ds| ==> ParseReply(ds[k]) == Some(v)
    ensures |ValidSeqs(ds)| == |ds|
    ensures forall k :: 0 <= k < |ds| ==> ValidSeqs(ds)[k] == v
    decreases |ds|
  {
    if ds != [] {
      ValidRepeated(ds[..|ds| - 1], v);
    }
  }

  /** Replies that all validate to the same number leave exactly that one number. */
  lemma RepeatedReply(ds: seq<seq<byte>>, v: int)
    requires |ds| > 0
    requires forall k :: 0 <= k < |ds| ==> ParseReply(ds[k]) == Some(v)
    ensures Elems(ValidSeqs(ds)) == {v}
  {
    ValidRepeated(ds, v);
    OnlyValue(ValidSeqs(ds), v);
  }

  lemma OnlyValue(vs: seq<int>, v: int)
    requires |vs| > 0 && forall k :: 0 <= k < |vs| ==> vs[k] == v
    ensures Elems(vs) == {v}
  {
    forall s | s in Elems(vs) ensures s == v {
      InElems(vs, s);
    }
    InElems(vs, v);
    assert vs[0] == v;
  }

  /**
   * A round in which the echo server answers every packet with the reply to
   * packet 0: `received` is 1000, so the search counts the rate as held, while
   * the round itself fails with a single distinct sequence number.
   */
  method RepeatedEcho() returns (r: Report)
    ensures r.sent == PacketsSent && r.received == PacketsSent && r.unique == 1
    ensures RateHolds(r) && !r.success
  {
    var events := seq(PacketsSent, _ => Datagram(Payload(0)));
    var t := ReceiveReplies(PacketsSent, events);
    RecvCountAt(events, PacketsSent, PacketsSent);
    ghost var ds := Replies(events, PacketsSent);
    ParsePayload(0);
    RepeatedReply(ds, 0);
    r := Summarize(PacketsSent, t);
  }
}
