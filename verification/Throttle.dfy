// The cgroup-throttle rule: consecutive cpu.stat samples are differenced, the
// rate is compared with the threshold, the breach counter fires on the result.
module Throttle {
  import opened Machine
  import opened CpuStat
  import opened Window
  import Runs

  datatype BreachValue = BreachValue(
    throttledUsecDelta: U64,
    throttledMsPerSec: U64,
    periodsDelta: U64,
    throttledPeriodsDelta: U64)

  datatype Finding = Finding(value: BreachValue, thresholdMsPerSec: U64, streak: U32)

  datatype Config = Config(intervalMs: U64, thresholdMsPerSec: U64, fireAfter: U32)

  function BreachValueOf(prev: Option<Stat>, cur: Stat, intervalMs: U64): Option<BreachValue> {
    match prev
    case None => None
    case Some(p) =>
      var delta := SatSub64(cur.throttledUsec, p.throttledUsec);
      Some(BreachValue(
             delta,
             if intervalMs == 0 then 0 else delta / intervalMs,
             SatSub64(cur.nrPeriods, p.nrPeriods),
             SatSub64(cur.nrThrottled, p.nrThrottled)))
  }

  // The evidence of a sample: the rise of each counter since the sample before,
  // 0 for one that fell, and the rate, 0 for an interval of 0.
  lemma {:induction false} BreachValueIs(p: Stat, cur: Stat, intervalMs: U64)
    ensures BreachValueOf(None, cur, intervalMs).None? && BreachValueOf(Some(p), cur, intervalMs).Some?
    ensures var v := BreachValueOf(Some(p), cur, intervalMs).value;
            && v.throttledUsecDelta == Max(0, cur.throttledUsec - p.throttledUsec)
            && v.periodsDelta == Max(0, cur.nrPeriods - p.nrPeriods)
            && v.throttledPeriodsDelta == Max(0, cur.nrThrottled - p.nrThrottled)
            && (forall t: nat :: t <= v.throttledMsPerSec <==>
                  t == 0 || (0 < intervalMs && p.throttledUsec + t * intervalMs <= cur.throttledUsec))
  {
    forall t: nat
      ensures t <= BreachValueOf(Some(p), cur, intervalMs).value.throttledMsPerSec <==>
              t == 0 || (0 < intervalMs && p.throttledUsec + t * intervalMs <= cur.throttledUsec)
    {
      if 0 < intervalMs {
        QuotientAtLeast(SatSub64(cur.throttledUsec, p.throttledUsec), intervalMs, t);
        if 0 < t { MulMonotone(1, t, intervalMs); }
      }
    }
  }

  // The samples that could be read, oldest first.
  function Samples(polls: seq<Option<Stat>>): seq<Stat> {
    if polls == [] then []
    else
      var before, r := Samples(polls[..|polls| - 1]), polls[|polls| - 1];
      if r.None? then before else before + [r.value]
  }

  function LastSample(samples: seq<Stat>): Option<Stat> {
    if samples == [] then None else Some(samples[|samples| - 1])
  }

  predicate Breached(prev: Option<Stat>, cur: Stat, cfg: Config) {
    var b := BreachValueOf(prev, cur, cfg.intervalMs);
    b.Some? && cfg.thresholdMsPerSec < b.value.throttledMsPerSec
  }

  // Whether each sample breaches, against the sample before it.
  function Bits(samples: seq<Stat>, cfg: Config): (bits: seq<bool>)
    ensures |bits| == |samples|
  {
    if samples == [] then []
    else
      var before := samples[..|samples| - 1];
      Bits(before, cfg) + [Breached(LastSample(before), samples[|samples| - 1], cfg)]
  }

  // The newest sample is the max(1, n)-th breach in a row.
  ghost predicate Due(samples: seq<Stat>, cfg: Config) {
    Runs.EndsBlock(Bits(samples, cfg), true, Max(1, cfg.fireAfter))
  }

  // ---- What a firing means -----------------------------------------------

  // The last m samples each rose by at least rise over the sample before them.
  ghost predicate Rose(samples: seq<Stat>, m: nat, rise: int) {
    && m < |samples|
    && (forall i :: |samples| - m <= i < |samples| ==>
          samples[i - 1].throttledUsec + rise <= samples[i].throttledUsec)
    && samples[|samples| - 1 - m].throttledUsec + m * rise <= samples[|samples| - 1].throttledUsec
  }

  // A sample breaches exactly when it rose by (threshold + 1) units of the
  // interval: the integer division loses nothing against the comparison.
  lemma {:induction false} BreachedIff(prev: Option<Stat>, cur: Stat, cfg: Config)
    ensures Breached(prev, cur, cfg) <==>
            && prev.Some? && 0 < cfg.intervalMs
            && prev.value.throttledUsec + (cfg.thresholdMsPerSec + 1) * cfg.intervalMs <= cur.throttledUsec
  {
    if prev.Some? && 0 < cfg.intervalMs {
      QuotientAtLeast(SatSub64(cur.throttledUsec, prev.value.throttledUsec), cfg.intervalMs, cfg.thresholdMsPerSec + 1);
      MulMonotone(1, cfg.thresholdMsPerSec + 1, cfg.intervalMs);
    }
  }

  lemma {:induction false} RoseExtend(before: seq<Stat>, cur: Stat, m: nat, rise: int)
    requires Rose(before, m, rise)
    requires before[|before| - 1].throttledUsec + rise <= cur.throttledUsec
    ensures Rose(before + [cur], m + 1, rise)
  {
    MulStep(m + 1, rise);
  }

  // The last m samples breach.
  predicate LastBreached(samples: seq<Stat>, cfg: Config, m: nat) {
    m == 0 ||
    (samples != [] &&
     var before := samples[..|samples| - 1];
     Breached(LastSample(before), samples[|samples| - 1], cfg) && LastBreached(before, cfg, m - 1))
  }

  lemma {:induction false} BitsLastBreached(samples: seq<Stat>, cfg: Config, m: nat)
    requires m <= |samples|
    requires forall i :: |samples| - m <= i < |samples| ==> Bits(samples, cfg)[i]
    ensures LastBreached(samples, cfg, m)
  {
    if 0 < m {
      var n := |samples| - 1;
      assert Bits(samples, cfg)[n];
      assert forall i :: 0 <= i < n ==> Bits(samples[..n], cfg)[i] == Bits(samples, cfg)[i];
      BitsLastBreached(samples[..n], cfg, m - 1);
    }
  }

  lemma {:induction false} BreachesRise(samples: seq<Stat>, cfg: Config, m: nat)
    requires samples != [] && LastBreached(samples, cfg, m)
    ensures Rose(samples, m, (cfg.thresholdMsPerSec + 1) * cfg.intervalMs)
    ensures 0 < m ==> 0 < cfg.intervalMs
  {
    if 0 < m {
      var before, cur := samples[..|samples| - 1], samples[|samples| - 1];
      BreachedIff(LastSample(before), cur, cfg);
      BreachesRise(before, cfg, m - 1);
      RoseExtend(before, cur, m - 1, (cfg.thresholdMsPerSec + 1) * cfg.intervalMs);
      assert samples == before + [cur];
    }
  }

  // A firing is backed by that much throttled time: over the max(1, n) samples
  // of the streak throttled_usec rose by at least max(1, n) times the rise that
  // one breach takes. It rose at every one of them, so no reset is inside.
  lemma {:induction false} FiringHasRealBound(samples: seq<Stat>, cfg: Config)
    requires Due(samples, cfg)
    ensures Rose(samples, Max(1, cfg.fireAfter), (cfg.thresholdMsPerSec + 1) * cfg.intervalMs)
    ensures 0 < cfg.intervalMs
  {
    BitsLastBreached(samples, cfg, Max(1, cfg.fireAfter));
    BreachesRise(samples, cfg, Max(1, cfg.fireAfter));
  }

  // Sample i rose by at least rise over the one before it.
  predicate RoseAt(samples: seq<Stat>, i: int, rise: int)
    requires 0 <= i < |samples|
  {
    0 < i && samples[i - 1].throttledUsec + rise <= samples[i].throttledUsec
  }

  lemma {:induction false} BitsAre(samples: seq<Stat>, cfg: Config, i: nat)
    requires i < |samples|
    ensures Bits(samples, cfg)[i] <==>
            0 < cfg.intervalMs && RoseAt(samples, i, (cfg.thresholdMsPerSec + 1) * cfg.intervalMs)
  {
    var before := samples[..|samples| - 1];
    if i < |before| {
      BitsAre(before, cfg, i);
    } else {
      BreachedIff(LastSample(before), samples[i], cfg);
    }
  }

  // And the rule is due exactly when the last max(1, n) samples each rose that
  // much and the one before them did not.
  lemma {:induction false} DueIff(samples: seq<Stat>, cfg: Config)
    ensures var m, rise := Max(1, cfg.fireAfter), (cfg.thresholdMsPerSec + 1) * cfg.intervalMs;
            Due(samples, cfg) <==>
            && 0 < cfg.intervalMs && m < |samples|
            && (forall i :: |samples| - m <= i < |samples| ==> RoseAt(samples, i, rise))
            && !RoseAt(samples, |samples| - m - 1, rise)
  {
    var m, rise, bits := Max(1, cfg.fireAfter), (cfg.thresholdMsPerSec + 1) * cfg.intervalMs, Bits(samples, cfg);
    forall i | 0 <= i < |samples|
      ensures bits[i] <==> 0 < cfg.intervalMs && RoseAt(samples, i, rise)
    {
      BitsAre(samples, cfg, i);
    }
    if Due(samples, cfg) {
      assert bits[|samples| - 1];
      assert !bits[0];
      assert forall i :: |samples| - m <= i < |samples| ==> bits[i];
    }
  }

  // ---- The polling loop --------------------------------------------------

  class ThrottlePoller {
    const cfg: Config
    var prev: Option<Stat>
    const counter: ConsecutiveBreachCounter
    ghost var polls: seq<Option<Stat>>

    ghost predicate Valid()
      reads this, counter
    {
      && counter.Valid() && Fixed(counter.history, cfg.fireAfter)
      && prev == LastSample(Samples(polls))
      && Breaches(counter.history) == Bits(Samples(polls), cfg)
    }

    constructor (cfg: Config)
      ensures Valid() && fresh(counter) && polls == [] && this.cfg == cfg
    {
      this.cfg, prev, polls := cfg, None, [];
      counter := new ConsecutiveBreachCounter();
    }

    // One tick; a failed read changes nothing.
    method Tick(read: Option<Stat>) returns (finding: Option<Finding>)
      requires Valid()
      modifies this, counter
      ensures Valid() && polls == old(polls) + [read]
      ensures read.None? ==> finding.None? && prev == old(prev) && counter.history == old(counter.history)
      ensures read.Some? ==> (finding.Some? <==> Due(Samples(polls), cfg))
      ensures finding.Some? ==>
                && finding.value.streak == Max(1, cfg.fireAfter)
                && finding.value.thresholdMsPerSec == cfg.thresholdMsPerSec
                && Some(finding.value.value) == BreachValueOf(old(prev), read.value, cfg.intervalMs)
    {
      SamplesExtend(polls, read);
      ghost var samples := Samples(polls);
      polls := polls + [read];
      if read.None? {
        return None;
      }
      var cur := read.value;
      assert (samples + [cur])[..|samples|] == samples;
      var breach := BreachValueOf(prev, cur, cfg.intervalMs);
      var breached := breach.Some? && cfg.thresholdMsPerSec < breach.value.throttledMsPerSec;
      BreachesExtend(counter.history, Obs(breached, cfg.fireAfter));
      var state := counter.Observe(breached, cfg.fireAfter);
      JustFiredEndsBlock(counter.history, cfg.fireAfter);
      finding := None;
      if state.JustFired? {
        match breach
        case None => assert false;  // fired with no breach value: not reachable
        case Some(b) => finding := Some(Finding(b, cfg.thresholdMsPerSec, state.streak));
      }
      prev := Some(cur);
    }
  }

  lemma {:induction false} SamplesExtend(polls: seq<Option<Stat>>, read: Option<Stat>)
    ensures Samples(polls + [read]) == if read.None? then Samples(polls) else Samples(polls) + [read.value]
  {
    assert (polls + [read])[..|polls|] == polls;
  }
}
