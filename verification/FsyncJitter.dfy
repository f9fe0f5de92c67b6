// The fsync-jitter rule of the loader: latencies of drained events collect in
// a buffer, each tick takes their P50 and feeds one breach bit to the counter.
module FsyncJitter {
  import opened Machine
  import opened Sums
  import opened BlockIo
  import opened Window
  import Runs

  // ---- P50 ---------------------------------------------------------------

  function Above(t: int): U64 -> int {
    x => if t < x then 1 else 0
  }

  function Below(t: int): U64 -> int {
    x => if x < t then 1 else 0
  }

  // Number of samples strictly above, and strictly below, t.
  function CountAbove(s: seq<U64>, t: int): int {
    Sum(s, Above(t))
  }

  function CountBelow(s: seq<U64>, t: int): int {
    Sum(s, Below(t))
  }

  // v is a sample with at most n/2 samples below it and at least n/2 + 1 not above it.
  predicate IsUpperMedian(s: seq<U64>, v: U64) {
    v in s && CountBelow(s, v) <= |s| / 2 < |s| - CountAbove(s, v)
  }

  lemma {:induction false} CountBounds(s: seq<U64>, v: int, t: int)
    ensures 0 <= CountAbove(s, t) <= |s| && 0 <= CountBelow(s, t) <= |s|
    ensures t < v ==> |s| - CountBelow(s, v) <= CountAbove(s, t)
    ensures v <= t ==> CountAbove(s, t) <= CountAbove(s, v)
  {
    if s != [] {
      CountBounds(s[..|s| - 1], v, t);
    }
  }

  // The median exceeds t exactly when at least half of the samples, rounded
  // up, exceed t.
  lemma {:induction false} MedianRankLaw(s: seq<U64>, v: U64, t: int)
    requires IsUpperMedian(s, v)
    ensures t < v <==> |s| - |s| / 2 <= CountAbove(s, t)
  {
    CountBounds(s, v, t);
  }

  // There is only one such sample, and it does not depend on arrival order.
  lemma {:induction false} MedianOfPermutation(s: seq<U64>, v: U64, s': seq<U64>, v': U64)
    requires multiset(s) == multiset(s')
    requires IsUpperMedian(s, v) && IsUpperMedian(s', v')
    ensures v == v'
  {
    assert |s| == |multiset(s)| == |multiset(s')| == |s'|;
    SumPermutation(s, s', Above(v));
    SumPermutation(s, s', Above(v'));
    MedianRankLaw(s, v, v');
    MedianRankLaw(s', v', v);
    MedianRankLaw(s, v, v);
    MedianRankLaw(s', v', v');
  }

  ghost predicate Sorted(s: seq<U64>) {
    forall i, j :: 0 <= i < j < |s| ==> s[i] <= s[j]
  }

  lemma {:induction false} CountZero(s: seq<U64>, f: U64 -> int)
    requires forall x :: x in s ==> f(x) == 0
    ensures Sum(s, f) == 0
  {
    if s != [] {
      assert s[|s| - 1] in s;
      CountZero(s[..|s| - 1], f);
    }
  }

  lemma {:induction false} SortedMiddle(s: seq<U64>)
    requires Sorted(s) && s != []
    ensures IsUpperMedian(s, s[|s| / 2])
  {
    var m := |s| / 2;
    var v := s[m];
    assert s == s[..m] + s[m..] == s[..m + 1] + s[m + 1..];
    SumConcat(s[..m], s[m..], Below(v));
    CountZero(s[m..], Below(v));
    CountBounds(s[..m], v, v);
    SumConcat(s[..m + 1], s[m + 1..], Above(v));
    CountZero(s[..m + 1], Above(v));
    CountBounds(s[m + 1..], v, v);
  }

  // Stand-in for the library sort: any in-place sort with this contract.
  method SortUnstable(a: array<U64>)
    modifies a
    ensures Sorted(a[..])
    ensures multiset(a[..]) == multiset(old(a[..]))
  {
    for n := 0 to a.Length
      invariant Sorted(a[..n])
      invariant multiset(a[..]) == multiset(old(a[..]))
    {
      SinkInto(a, n);
    }
    assert a[..a.Length] == a[..];
  }

  // Moves the element at n down to its place among the sorted ones before it.
  method SinkInto(a: array<U64>, n: nat)
    requires n < a.Length && Sorted(a[..n])
    modifies a
    ensures Sorted(a[..n + 1])
    ensures multiset(a[..]) == multiset(old(a[..]))
  {
    var i := n;
    while 0 < i && a[i - 1] > a[i]
      invariant 0 <= i <= n
      invariant forall p, q :: 0 <= p < q <= n && q != i ==> a[p] <= a[q]
      invariant multiset(a[..]) == multiset(old(a[..]))
    {
      SwapBack(a, i);
      i := i - 1;
    }
  }

  method SwapBack(a: array<U64>, i: nat)
    requires 0 < i < a.Length
    modifies a
    ensures a[i - 1] == old(a[i]) && a[i] == old(a[i - 1])
    ensures forall k :: 0 <= k < a.Length && k != i && k != i - 1 ==> a[k] == old(a[k])
    ensures multiset(a[..]) == multiset(old(a[..]))
  {
    a[i - 1], a[i] := a[i], a[i - 1];
  }

  method P50(samples: seq<U64>) returns (r: Option<U64>)
    ensures r.None? <==> samples == []
    ensures r.Some? ==> IsUpperMedian(samples, r.value)
  {
    if samples == [] {
      return None;
    }
    var v := new U64[|samples|](i requires 0 <= i < |samples| => samples[i]);
    assert v[..] == samples;
    SortUnstable(v);
    SortedMiddle(v[..]);
    assert |v[..]| == |multiset(v[..])| == |multiset(samples)|;
    var p := v[v.Length / 2];
    assert p in multiset(v[..]);
    SumPermutation(v[..], samples, Above(p));
    SumPermutation(v[..], samples, Below(p));
    return Some(p);
  }

  // ---- The rule over a trace of drained events and ticks -----------------

  datatype LoopStep = Drained(event: LatencyEvent) | Ticked

  datatype Finding = Finding(p50Ms: U64, thresholdMs: U64, streak: U32)

  // The threshold as the program compares it.
  function ThresholdNs(thresholdMs: U64): U64 {
    SatMul64(thresholdMs, 1_000_000)
  }

  // Saturation is harmless: no sample exceeds either form when it happens.
  lemma {:induction false} ThresholdIsExact(samples: seq<U64>, thresholdMs: U64)
    ensures CountAbove(samples, ThresholdNs(thresholdMs)) == CountAbove(samples, thresholdMs * 1_000_000)
  {
    if samples != [] {
      ThresholdIsExact(samples[..|samples| - 1], thresholdMs);
    }
  }

  predicate IsWrite(e: LatencyEvent) {
    e.opClass == Write || e.opClass == WriteFlush
  }

  // Write and write+flush latencies drained since the last tick.
  function Pending(trace: seq<LoopStep>): seq<U64> {
    if trace == [] then []
    else
      match trace[|trace| - 1]
      case Ticked => []
      case Drained(e) =>
        var before := Pending(trace[..|trace| - 1]);
        if IsWrite(e) then before + [e.latencyNs] else before
  }

  // The samples each tick of the trace sees, oldest tick first.
  function Intervals(trace: seq<LoopStep>): seq<seq<U64>> {
    if trace == [] then []
    else
      var before := trace[..|trace| - 1];
      if trace[|trace| - 1].Ticked? then Intervals(before) + [Pending(before)] else Intervals(before)
  }

  lemma {:induction false} ExtendTrace(trace: seq<LoopStep>, step: LoopStep)
    ensures Pending(trace + [step]) ==
            match step
            case Ticked => []
            case Drained(e) => if IsWrite(e) then Pending(trace) + [e.latencyNs] else Pending(trace)
    ensures Intervals(trace + [step]) == if step.Ticked? then Intervals(trace) + [Pending(trace)] else Intervals(trace)
  {
    assert (trace + [step])[..|trace|] == trace;
  }

  function Flatten(parts: seq<seq<U64>>): seq<U64> {
    if parts == [] then [] else Flatten(parts[..|parts| - 1]) + parts[|parts| - 1]
  }

  // Latencies of all drained write and write+flush events, in order.
  function DrainedWrites(trace: seq<LoopStep>): seq<U64> {
    if trace == [] then []
    else
      DrainedWrites(trace[..|trace| - 1]) +
      match trace[|trace| - 1]
      case Ticked => []
      case Drained(e) => if IsWrite(e) then [e.latencyNs] else []
  }

  // No sample is lost, repeated or reordered: cutting the drained writes at
  // the ticks gives the interval buffers and what is still pending.
  lemma {:induction false} EachWriteInOneInterval(trace: seq<LoopStep>)
    ensures Flatten(Intervals(trace)) + Pending(trace) == DrainedWrites(trace)
  {
    if trace != [] {
      var before := trace[..|trace| - 1];
      EachWriteInOneInterval(before);
      var all, parts, rest := Intervals(trace), Intervals(before), Pending(before);
      match trace[|trace| - 1]
      case Ticked =>
        assert all == parts + [rest] && all[..|parts|] == parts;
        assert Flatten(all) == Flatten(parts) + rest;
      case Drained(e) =>
        assert all == parts;
        assert Flatten(all) + Pending(trace) ==
               Flatten(parts) + rest + if IsWrite(e) then [e.latencyNs] else [];
    }
  }

  // At least half of the interval's samples, and at least one, took longer than
  // the threshold's milliseconds.
  predicate Slow(samples: seq<U64>, thresholdMs: U64) {
    samples != [] && |samples| <= 2 * CountAbove(samples, thresholdMs * 1_000_000)
  }

  function SlowBits(intervals: seq<seq<U64>>, thresholdMs: U64): seq<bool> {
    seq(|intervals|, i requires 0 <= i < |intervals| => Slow(intervals[i], thresholdMs))
  }

  lemma {:induction false} SlowBitsExtend(intervals: seq<seq<U64>>, samples: seq<U64>, thresholdMs: U64)
    ensures SlowBits(intervals + [samples], thresholdMs) ==
            SlowBits(intervals, thresholdMs) + [Slow(samples, thresholdMs)]
  {
  }

  // The last tick ends a run of exactly max(1, fireAfter) slow intervals.
  ghost predicate Due(intervals: seq<seq<U64>>, thresholdMs: U64, fireAfter: U32) {
    Runs.EndsBlock(SlowBits(intervals, thresholdMs), true, Max(1, fireAfter))
  }

  class RuleState {
    const thresholdMs: U64
    const fireAfter: U32
    var writeFlushSamplesNs: seq<U64>
    const counter: ConsecutiveBreachCounter
    ghost var trace: seq<LoopStep>

    ghost predicate Valid()
      reads this, counter
    {
      && counter.Valid()
      && writeFlushSamplesNs == Pending(trace)
      && Fixed(counter.history, fireAfter)
      && Breaches(counter.history) == SlowBits(Intervals(trace), thresholdMs)
    }

    constructor (thresholdMs: U64, fireAfter: U32)
      ensures Valid() && fresh(counter) && trace == []
      ensures this.thresholdMs == thresholdMs && this.fireAfter == fireAfter
    {
      this.thresholdMs, this.fireAfter := thresholdMs, fireAfter;
      writeFlushSamplesNs, trace := [], [];
      counter := new ConsecutiveBreachCounter();
    }

    method Drain(event: LatencyEvent)
      requires Valid()
      modifies this
      ensures Valid() && trace == old(trace) + [Drained(event)]
      ensures counter.history == old(counter.history)
    {
      ExtendTrace(trace, Drained(event));
      trace := trace + [Drained(event)];
      if event.opClass == Write || event.opClass == WriteFlush {
        writeFlushSamplesNs := writeFlushSamplesNs + [event.latencyNs];
      }
    }

    method Tick() returns (finding: Option<Finding>)
      requires Valid()
      modifies this, counter
      ensures Valid() && trace == old(trace) + [Ticked]
      ensures finding.Some? <==> Due(Intervals(trace), thresholdMs, fireAfter)
      ensures finding.Some? ==> IsFinding(finding.value, old(Pending(trace)), thresholdMs, fireAfter)
    {
      ExtendTrace(trace, Ticked);
      var p50 := P50(writeFlushSamplesNs);
      var p50Ns := if p50.Some? then p50.value else 0;
      writeFlushSamplesNs := [];
      var breached := p50.Some? && ThresholdNs(thresholdMs) < p50.value;
      if p50.Some? { MedianRankLaw(Pending(trace), p50.value, ThresholdNs(thresholdMs)); }
      ThresholdIsExact(Pending(trace), thresholdMs);
      BreachesExtend(counter.history, Obs(breached, fireAfter));
      SlowBitsExtend(Intervals(trace), Pending(trace), thresholdMs);
      var state := counter.Observe(breached, fireAfter);
      trace := trace + [Ticked];
      JustFiredEndsBlock(counter.history, fireAfter);
      if state.JustFired? {
        finding := Some(Finding(p50Ns / 1_000_000, thresholdMs, state.streak));
      } else {
        finding := None;
      }
    }
  }

  // The evidence in a Finding: the whole milliseconds of the median of the
  // interval, never less than the configured threshold, and the streak.
  ghost predicate IsFinding(f: Finding, samples: seq<U64>, thresholdMs: U64, fireAfter: U32) {
    && (exists v: U64 :: IsUpperMedian(samples, v) && f.p50Ms == v / 1_000_000)
    && f.thresholdMs == thresholdMs <= f.p50Ms
    && f.streak == Max(1, fireAfter)
  }

  // Tick k has a Finding exactly when it is due, with the evidence of its own interval.
  ghost predicate ReportAt(intervals: seq<seq<U64>>, k: nat, outcome: Option<Finding>, thresholdMs: U64, fireAfter: U32)
    requires k < |intervals|
  {
    && (outcome.Some? <==> Due(intervals[..k + 1], thresholdMs, fireAfter))
    && (outcome.Some? ==> IsFinding(outcome.value, intervals[k], thresholdMs, fireAfter))
  }

  ghost predicate Reports(intervals: seq<seq<U64>>, outcomes: seq<Option<Finding>>, thresholdMs: U64, fireAfter: U32) {
    && |outcomes| == |intervals|
    && forall k :: 0 <= k < |outcomes| ==> ReportAt(intervals, k, outcomes[k], thresholdMs, fireAfter)
  }

  // The select loop over any interleaving of drains and ticks: a Finding comes
  // out of tick k exactly when tick k ends a run of exactly max(1, fireAfter)
  // slow intervals.
  method RunLoop(steps: seq<LoopStep>, thresholdMs: U64, fireAfter: U32) returns (outcomes: seq<Option<Finding>>)
    ensures Reports(Intervals(steps), outcomes, thresholdMs, fireAfter)
  {
    var state := new RuleState(thresholdMs, fireAfter);
    outcomes := [];
    for i := 0 to |steps|
      invariant fresh(state) && fresh(state.counter) && state.Valid()
      invariant state.thresholdMs == thresholdMs && state.fireAfter == fireAfter
      invariant state.trace == steps[..i]
      invariant Reports(Intervals(state.trace), outcomes, thresholdMs, fireAfter)
    {
      ghost var before := Intervals(state.trace);
      assert steps[..i + 1] == steps[..i] + [steps[i]];
      assert (steps[..i] + [steps[i]])[..i] == steps[..i];
      match steps[i]
      case Drained(e) =>
        state.Drain(e);
        assert Intervals(state.trace) == before;
      case Ticked =>
        var f := state.Tick();
        outcomes := outcomes + [f];
        ReportsExtend(before, outcomes[..|before|], thresholdMs, fireAfter, Pending(steps[..i]), f);
    }
    assert steps[..|steps|] == steps;
  }

  lemma {:induction false} ReportsExtend(intervals: seq<seq<U64>>, outcomes: seq<Option<Finding>>, thresholdMs: U64,
                                         fireAfter: U32, samples: seq<U64>, f: Option<Finding>)
    requires Reports(intervals, outcomes, thresholdMs, fireAfter)
    requires f.Some? <==> Due(intervals + [samples], thresholdMs, fireAfter)
    requires f.Some? ==> IsFinding(f.value, samples, thresholdMs, fireAfter)
    ensures Reports(intervals + [samples], outcomes + [f], thresholdMs, fireAfter)
  {
    var all := intervals + [samples];
    assert all[..|all|] == all;
    forall k | 0 <= k < |all|
      ensures ReportAt(all, k, (outcomes + [f])[k], thresholdMs, fireAfter)
    {
      if k < |intervals| { assert all[..k + 1] == intervals[..k + 1]; }
    }
  }
}
