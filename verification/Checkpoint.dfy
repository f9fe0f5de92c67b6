// The checkpoint-storm rule: consecutive snapshots of cumulative counters are
// classified into buckets, and the dominant-bucket streak fires on them.
module Checkpoint {
  import opened Machine
  import opened Sums
  import opened Dominant
  import Runs

  datatype Snapshot = Snapshot(
    numTimed: U64,
    numRequested: U64,
    writeTimeMs: real,
    syncTimeMs: real,
    buffersWritten: U64,
    walFpi: U64)

  function ClampReal(x: real): real {
    if x < 0.0 then 0.0 else x
  }

  function Classify(prev: Snapshot, cur: Snapshot): Option<Bucket> {
    var timed, requested := SatSub64(cur.numTimed, prev.numTimed), SatSub64(cur.numRequested, prev.numRequested);
    var write, sync := ClampReal(cur.writeTimeMs - prev.writeTimeMs), ClampReal(cur.syncTimeMs - prev.syncTimeMs);
    var checkpoints := SatAdd64(timed, requested);
    if checkpoints == 0 then None
    else if timed < requested then Some(Forced)
    else if sync * 1.5 < write then Some(WritePhaseDominant)
    else if write * 1.5 < sync then Some(SyncPhaseDominant)
    else if 1_000 <= SatSub64(cur.walFpi, prev.walFpi) / Max(checkpoints, 1) then Some(FpwFlood)
    else None
  }

  // Two consecutive successful polls, and what each counter rose by between
  // them; one that fell counts as 0.
  datatype Interval = Interval(prev: Snapshot, cur: Snapshot) {
    function Timed(): nat { Max(0, cur.numTimed - prev.numTimed) }
    function Requested(): nat { Max(0, cur.numRequested - prev.numRequested) }
    function Fpi(): nat { Max(0, cur.walFpi - prev.walFpi) }
    function WriteMs(): real { if cur.writeTimeMs < prev.writeTimeMs then 0.0 else cur.writeTimeMs - prev.writeTimeMs }
    function SyncMs(): real { if cur.syncTimeMs < prev.syncTimeMs then 0.0 else cur.syncTimeMs - prev.syncTimeMs }
  }

  function BucketOf(i: Interval): Option<Bucket> {
    Classify(i.prev, i.cur)
  }

  // ---- What a streak of intervals says about their totals ----------------

  function SumReal(s: seq<Interval>, f: Interval -> real): real {
    if s == [] then 0.0 else SumReal(s[..|s| - 1], f) + f(s[|s| - 1])
  }

  const TIMED: Interval -> int := (i: Interval) => i.Timed()
  const REQUESTED: Interval -> int := (i: Interval) => i.Requested()
  const FPI: Interval -> int := (i: Interval) => i.Fpi()
  const WRITE_MS: Interval -> real := (i: Interval) => i.WriteMs()
  const SYNC_MS: Interval -> real := (i: Interval) => i.SyncMs()

  // The bucket's description, read on the totals over all the intervals.
  ghost predicate Dominates(s: seq<Interval>, b: Bucket) {
    match b
    case Forced => Sum(s, TIMED) + |s| <= Sum(s, REQUESTED)
    case WritePhaseDominant =>
      Sum(s, REQUESTED) <= Sum(s, TIMED) && SumReal(s, SYNC_MS) * 1.5 < SumReal(s, WRITE_MS)
    case SyncPhaseDominant =>
      Sum(s, REQUESTED) <= Sum(s, TIMED) && SumReal(s, WRITE_MS) * 1.5 < SumReal(s, SYNC_MS)
    case FpwFlood =>
      && Sum(s, REQUESTED) <= Sum(s, TIMED)
      && 1_000 * (Sum(s, TIMED) + Sum(s, REQUESTED)) <= Sum(s, FPI)
      && |s| <= Sum(s, TIMED) + Sum(s, REQUESTED)
      && SumReal(s, WRITE_MS) <= SumReal(s, SYNC_MS) * 1.5
      && SumReal(s, SYNC_MS) <= SumReal(s, WRITE_MS) * 1.5
  }

  // The classification without saturation, division or order of tests: the
  // buckets exclude one another, and the saturating checkpoint count never matters.
  lemma {:induction false} ClassifyIff(i: Interval)
    ensures BucketOf(i) == Some(Forced) <==> i.Timed() < i.Requested()
    ensures BucketOf(i) == Some(WritePhaseDominant) <==>
            i.Requested() <= i.Timed() && 0 < i.Timed() && i.SyncMs() * 1.5 < i.WriteMs()
    ensures BucketOf(i) == Some(SyncPhaseDominant) <==>
            i.Requested() <= i.Timed() && 0 < i.Timed() && i.WriteMs() * 1.5 < i.SyncMs()
    ensures BucketOf(i) == Some(FpwFlood) <==>
            && i.Requested() <= i.Timed() && 0 < i.Timed()
            && i.WriteMs() <= i.SyncMs() * 1.5 && i.SyncMs() <= i.WriteMs() * 1.5
            && 1_000 * (i.Timed() + i.Requested()) <= i.Fpi()
  {
    var checkpoints := SatAdd64(i.Timed(), i.Requested());
    if 0 < checkpoints { QuotientAtLeast(i.Fpi(), checkpoints, 1_000); }
  }

  // No counter is lower in the second snapshot.
  predicate NoFall(prev: Snapshot, cur: Snapshot) {
    && prev.numTimed <= cur.numTimed && prev.numRequested <= cur.numRequested && prev.walFpi <= cur.walFpi
    && prev.writeTimeMs <= cur.writeTimeMs && prev.syncTimeMs <= cur.syncTimeMs
  }

  // The same between two snapshots in which no counter falls, on their fields.
  lemma {:induction false} ClassifySteadyIff(prev: Snapshot, cur: Snapshot)
    requires NoFall(prev, cur)
    ensures var timed, requested := cur.numTimed - prev.numTimed, cur.numRequested - prev.numRequested;
            var write, sync := cur.writeTimeMs - prev.writeTimeMs, cur.syncTimeMs - prev.syncTimeMs;
            && (Classify(prev, cur) == Some(Forced) <==> timed < requested)
            && (Classify(prev, cur) == Some(WritePhaseDominant) <==>
                  requested <= timed && 0 < timed && sync * 1.5 < write)
            && (Classify(prev, cur) == Some(SyncPhaseDominant) <==>
                  requested <= timed && 0 < timed && write * 1.5 < sync)
            && (Classify(prev, cur) == Some(FpwFlood) <==>
                  && requested <= timed && 0 < timed
                  && write <= sync * 1.5 && sync <= write * 1.5
                  && 1_000 * (timed + requested) <= cur.walFpi - prev.walFpi)
  {
    ClassifyIff(Interval(prev, cur));
  }

  // What n intervals of a bucket in a row say about the snapshots at their ends.
  ghost predicate EndsDominate(first: Snapshot, last: Snapshot, n: nat, b: Bucket) {
    var timed, requested := last.numTimed - first.numTimed, last.numRequested - first.numRequested;
    var write, sync := last.writeTimeMs - first.writeTimeMs, last.syncTimeMs - first.syncTimeMs;
    match b
    case Forced => timed + n <= requested
    case WritePhaseDominant => requested <= timed && n <= timed && sync * 1.5 < write
    case SyncPhaseDominant => requested <= timed && n <= timed && write * 1.5 < sync
    case FpwFlood =>
      && requested <= timed && n <= timed
      && write <= sync * 1.5 && sync <= write * 1.5
      && 1_000 * (timed + requested) <= last.walFpi - first.walFpi
  }

  // While no counter falls, a row of polls that each close an interval of one
  // bucket has the bucket's imbalance between its first and last snapshots.
  lemma {:induction false} SteadyStreak(snaps: seq<Snapshot>, b: Bucket)
    requires 2 <= |snaps|
    requires forall i :: 0 < i < |snaps| ==> NoFall(snaps[i - 1], snaps[i])
    requires forall i :: 0 < i < |snaps| ==> Classify(snaps[i - 1], snaps[i]) == Some(b)
    ensures EndsDominate(snaps[0], snaps[|snaps| - 1], |snaps| - 1, b)
  {
    var n := |snaps| - 1;
    ClassifySteadyIff(snaps[n - 1], snaps[n]);
    if 2 < |snaps| {
      SteadyStreak(snaps[..n], b);
    }
  }

  lemma {:induction false} BucketDominates(s: seq<Interval>, b: Bucket)
    requires s != [] && forall i :: i in s ==> BucketOf(i) == Some(b)
    ensures Dominates(s, b)
  {
    var before, last := s[..|s| - 1], s[|s| - 1];
    assert last in s;
    ClassifyIff(last);
    if before != [] {
      BucketDominates(before, b);
    } else {
      assert Sum(before, TIMED) == Sum(before, REQUESTED) == Sum(before, FPI) == 0;
    }
  }

  // ---- The polling loop --------------------------------------------------

  // The snapshots of the polls that succeeded, oldest first.
  function Snapshots(polls: seq<Option<Snapshot>>): seq<Snapshot> {
    if polls == [] then []
    else
      var before, p := Snapshots(polls[..|polls| - 1]), polls[|polls| - 1];
      if p.None? then before else before + [p.value]
  }

  // The intervals between consecutive snapshots that have a bucket.
  function Classified(snaps: seq<Snapshot>): seq<Interval> {
    if |snaps| < 2 then []
    else
      var before := Classified(snaps[..|snaps| - 1]);
      if ClosesInterval(snaps) then before + [Interval(snaps[|snaps| - 2], snaps[|snaps| - 1])] else before
  }

  // The last snapshot closes an interval that has a bucket.
  predicate ClosesInterval(snaps: seq<Snapshot>) {
    2 <= |snaps| && Classify(snaps[|snaps| - 2], snaps[|snaps| - 1]).Some?
  }

  ghost predicate BucketsMatch(intervals: seq<Interval>, buckets: seq<Bucket>) {
    |intervals| == |buckets| && forall k :: 0 <= k < |buckets| ==> BucketOf(intervals[k]) == Some(buckets[k])
  }

  datatype Finding = Finding(bucket: Bucket, streak: U32)

  // The newest m classified intervals.
  function Newest(intervals: seq<Interval>, m: nat): seq<Interval>
    requires m <= |intervals|
  {
    intervals[|intervals| - m..]
  }

  // The newest m classified intervals are all of bucket b, the one before is not.
  ghost predicate Storm(intervals: seq<Interval>, b: Bucket, m: nat) {
    && m <= |intervals|
    && (forall i :: i in Newest(intervals, m) ==> BucketOf(i) == Some(b))
    && (m < |intervals| ==> BucketOf(intervals[|intervals| - m - 1]) != Some(b))
  }

  // The last snapshot closes the max(1, n)-th interval in a row of some bucket.
  ghost predicate StormStarts(snaps: seq<Snapshot>, n: U32) {
    ClosesInterval(snaps) && exists b :: Storm(Classified(snaps), b, Max(1, n))
  }

  // The bucket of the storm, which dominates the totals of its intervals.
  ghost predicate IsFinding(f: Finding, intervals: seq<Interval>, n: U32) {
    && Storm(intervals, f.bucket, Max(1, n))
    && f.streak == Max(1, n)
    && Dominates(Newest(intervals, Max(1, n)), f.bucket)
  }

  class CheckpointStorm {
    const fireAfter: U32
    var prev: Option<Snapshot>
    const streak: DominantStreak
    ghost var polls: seq<Option<Snapshot>>

    ghost predicate Valid()
      reads this, streak
    {
      var snaps := Snapshots(polls);
      && streak.Valid() && Fixed(streak.history, fireAfter)
      && prev == (if snaps == [] then None else Some(snaps[|snaps| - 1]))
      && BucketsMatch(Classified(snaps), Buckets(Kept(streak.history)))
    }

    constructor (fireAfter: U32)
      ensures Valid() && fresh(streak) && polls == [] && this.fireAfter == fireAfter
    {
      this.fireAfter, prev, polls := fireAfter, None, [];
      streak := new DominantStreak();
    }

    // One tick. A failed poll changes nothing. A Finding for a bucket comes
    // out exactly when this poll closes an interval of that bucket which is
    // the max(1, fireAfter)-th in a row; the bucket then dominates the totals
    // of those intervals.
    method Tick(poll: Option<Snapshot>) returns (finding: Option<Finding>)
      requires Valid()
      modifies this, streak
      ensures Valid() && polls == old(polls) + [poll]
      ensures poll.None? ==> finding.None? && prev == old(prev) && streak.history == old(streak.history)
      ensures finding.Some? <==> poll.Some? && StormStarts(Snapshots(polls), fireAfter)
      ensures finding.Some? ==> IsFinding(finding.value, Classified(Snapshots(polls)), fireAfter)
    {
      assert (polls + [poll])[..|polls|] == polls;
      ghost var snaps := Snapshots(polls);
      ghost var history := streak.history;
      polls := polls + [poll];
      if poll.None? {
        return None;
      }
      var cur := poll.value;
      var bucket := if prev.Some? then Classify(prev.value, cur) else None;
      AppendPoll(snaps, history, cur, bucket, fireAfter);
      var state := streak.Observe(bucket, fireAfter);
      prev := Some(cur);
      finding := None;
      FireIsStorm(snaps + [cur], streak.history, fireAfter);
      if state.JustFired? {
        finding := Some(Finding(state.bucket, state.streak));
      }
    }
  }

  lemma {:induction false} AppendPoll(snaps: seq<Snapshot>, history: seq<Obs>, cur: Snapshot, bucket: Option<Bucket>,
                                      n: U32)
    requires BucketsMatch(Classified(snaps), Buckets(Kept(history)))
    requires bucket == if snaps == [] then None else Classify(snaps[|snaps| - 1], cur)
    ensures BucketsMatch(Classified(snaps + [cur]), Buckets(Kept(history + [Obs(bucket, n)])))
    ensures ClosesInterval(snaps + [cur]) <==> bucket.Some?
  {
    assert (snaps + [cur])[..|snaps|] == snaps;
    assert (history + [Obs(bucket, n)])[..|history|] == history;
  }

  lemma {:induction false} FireIsStorm(snaps: seq<Snapshot>, history: seq<Obs>, n: U32)
    requires history != [] && Fixed(history, n)
    requires BucketsMatch(Classified(snaps), Buckets(Kept(history)))
    requires ClosesInterval(snaps) <==> history[|history| - 1].bucket.Some?
    ensures var r := Report(history);
            && (r.JustFired? <==> StormStarts(snaps, n))
            && (r.JustFired? ==> IsFinding(Finding(r.bucket, r.streak), Classified(snaps), n))
  {
    if ClosesInterval(snaps) {
      KeptFixed(history, n);
      VerdictIsStorm(Classified(snaps), Kept(history), n);
      if Verdict(Kept(history)).JustFired? {
        StormDominates(Classified(snaps), Verdict(Kept(history)).bucket, Max(1, n));
      }
    }
  }

  lemma {:induction false} VerdictIsStorm(all: seq<Interval>, c: seq<Hit>, n: U32)
    requires c != [] && FixedHits(c, n) && BucketsMatch(all, Buckets(c))
    ensures var v := Verdict(c);
            && (v.JustFired? <==> exists b :: Storm(all, b, Max(1, n)))
            && (v.JustFired? ==> Storm(all, v.bucket, Max(1, n)) && v.streak == Max(1, n))
  {
    JustFiredEndsBlock(c, n);
    StormIff(all, Buckets(c), Max(1, n));
  }

  lemma {:induction false} StormDominates(all: seq<Interval>, b: Bucket, m: nat)
    requires 1 <= m && Storm(all, b, m)
    ensures Dominates(Newest(all, m), b)
  {
    BucketDominates(Newest(all, m), b);
  }

  lemma {:induction false} StormIff(intervals: seq<Interval>, buckets: seq<Bucket>, m: nat)
    requires BucketsMatch(intervals, buckets) && 1 <= m
    ensures forall b :: Storm(intervals, b, m) <==> Runs.EndsBlock(buckets, b, m)
    ensures forall b :: Storm(intervals, b, m) ==> b == buckets[|buckets| - 1]
  {
    forall b
      ensures Storm(intervals, b, m) <==> Runs.EndsBlock(buckets, b, m)
      ensures Storm(intervals, b, m) ==> b == buckets[|buckets| - 1]
    {
      if m <= |intervals| {
        var newest, n := Newest(intervals, m), |intervals|;
        assert forall k :: n - m <= k < n ==> intervals[k] == newest[k - (n - m)];
        assert forall k :: n - m <= k < n ==> intervals[k] in newest;
        assert newest[m - 1] == intervals[n - 1];
      }
    }
  }
}
