// The dominant-bucket streak: unclassified intervals are skipped, a change of
// bucket starts a new block.
module Dominant {
  import opened Machine
  import Runs

  datatype Bucket = WritePhaseDominant | SyncPhaseDominant | Forced | FpwFlood

  // One call of Observe, and one whose interval was classified.
  datatype Obs = Obs(bucket: Option<Bucket>, fireAfter: U32)
  datatype Hit = Hit(bucket: Bucket, fireAfter: U32)

  datatype StreakState =
    | Building(bucket: Bucket, streak: U32)
    | JustFired(bucket: Bucket, streak: U32)
    | StillFiring(bucket: Bucket, streak: U32)
    | NoClassification

  // The history with the unclassified intervals deleted.
  function Kept(h: seq<Obs>): seq<Hit> {
    if h == [] then []
    else
      var before, o := Kept(h[..|h| - 1]), h[|h| - 1];
      if o.bucket.None? then before else before + [Hit(o.bucket.value, o.fireAfter)]
  }

  // The block of equal buckets that ends the hits goes back beyond the last one.
  predicate Continues(c: seq<Hit>) {
    2 <= |c| && c[|c| - 2].bucket == c[|c| - 1].bucket
  }

  function BlockLength(c: seq<Hit>): (n: nat)
    ensures n <= |c| && (c != [] ==> 1 <= n)
  {
    if c == [] then 0 else if Continues(c) then 1 + BlockLength(c[..|c| - 1]) else 1
  }

  predicate Reached(c: seq<Hit>) {
    c != [] && c[|c| - 1].fireAfter <= Min(BlockLength(c), U32_MAX)
  }

  // Some hit of the current block, the last one included, has Reached.
  predicate ReachedInBlock(c: seq<Hit>) {
    c != [] && (Reached(c) || (Continues(c) && ReachedInBlock(c[..|c| - 1])))
  }

  function Verdict(c: seq<Hit>): StreakState
    requires c != []
  {
    var bucket, streak := c[|c| - 1].bucket, Min(BlockLength(c), U32_MAX);
    if !Reached(c) then Building(bucket, streak)
    else if Continues(c) && ReachedInBlock(c[..|c| - 1]) then StillFiring(bucket, streak)
    else JustFired(bucket, streak)
  }

  // What the last call should report, from the history alone.
  function Report(h: seq<Obs>): StreakState
    requires h != []
  {
    if h[|h| - 1].bucket.None? then NoClassification else Verdict(Kept(h))
  }

  class DominantStreak {
    var current: Option<Bucket>
    var streak: U32
    var firedFor: Option<Bucket>
    ghost var history: seq<Obs>

    // In particular firedFor is None or the current bucket.
    ghost predicate Valid()
      reads this
    {
      var c := Kept(history);
      && current == (if c == [] then None else Some(c[|c| - 1].bucket))
      && streak == Min(BlockLength(c), U32_MAX)
      && firedFor == (if ReachedInBlock(c) then current else None)
    }

    constructor ()
      ensures Valid() && history == []
    {
      current, streak, firedFor, history := None, 0, None, [];
    }

    method Observe(bucket: Option<Bucket>, fireAfter: U32) returns (r: StreakState)
      requires Valid()
      modifies this
      ensures Valid() && history == old(history) + [Obs(bucket, fireAfter)]
      ensures r == Report(history)
    {
      KeptExtend(history, Obs(bucket, fireAfter));
      if bucket.Some? { StepVerdict(Kept(history), Hit(bucket.value, fireAfter)); }
      history := history + [Obs(bucket, fireAfter)];
      if bucket.None? {
        return NoClassification;
      }
      r := ObserveBucket(bucket.value, fireAfter);
    }

    // The rest of Observe, for a classified interval.
    method ObserveBucket(b: Bucket, fireAfter: U32) returns (r: StreakState)
      modifies this`current, this`streak, this`firedFor
      ensures current == Some(b)
      ensures streak == if old(current) == Some(b) then SatAdd32(old(streak), 1) else 1
      ensures var fired := if old(current) == Some(b) then old(firedFor) else None;
              && firedFor == (if fireAfter <= streak then Some(b) else fired)
              && r == if streak < fireAfter then Building(b, streak)
                      else if fired == Some(b) then StillFiring(b, streak)
                      else JustFired(b, streak)
    {
      if current == Some(b) {
        streak := SatAdd32(streak, 1);
      } else {
        current := Some(b);
        streak := 1;
        firedFor := None;
      }
      if streak < fireAfter {
        return Building(b, streak);
      }
      if firedFor == Some(b) {
        r := StillFiring(b, streak);
      } else {
        firedFor := Some(b);
        r := JustFired(b, streak);
      }
    }
  }

  lemma {:induction false} KeptExtend(h: seq<Obs>, o: Obs)
    ensures Kept(h + [o]) == if o.bucket.None? then Kept(h) else Kept(h) + [Hit(o.bucket.value, o.fireAfter)]
  {
    assert (h + [o])[..|h|] == h;
  }

  // One more hit, from what is known before it.
  lemma {:induction false} StepVerdict(c: seq<Hit>, x: Hit)
    ensures var same := c != [] && c[|c| - 1].bucket == x.bucket;
            var streak := if same then SatAdd32(Min(BlockLength(c), U32_MAX), 1) else 1;
            var fired := same && ReachedInBlock(c);
            && streak == Min(BlockLength(c + [x]), U32_MAX)
            && (ReachedInBlock(c + [x]) <==> x.fireAfter <= streak || fired)
            && Verdict(c + [x]) == (if streak < x.fireAfter then Building(x.bucket, streak)
                                    else if fired then StillFiring(x.bucket, streak)
                                    else JustFired(x.bucket, streak))
  {
    assert (c + [x])[..|c|] == c;
  }

  // An unclassified interval anywhere in the history makes no difference to
  // anything reported after it.
  lemma {:induction false} UnclassifiedIsStutter(a: seq<Obs>, o: Obs, b: seq<Obs>)
    requires o.bucket.None?
    ensures Kept(a + [o] + b) == Kept(a + b)
  {
    if b == [] {
      assert (a + [o] + b)[..|a|] == a && a + b == a;
    } else {
      UnclassifiedIsStutter(a, o, b[..|b| - 1]);
      assert (a + [o] + b)[..|a + [o] + b| - 1] == a + [o] + b[..|b| - 1];
      assert (a + b)[..|a + b| - 1] == a + b[..|b| - 1];
    }
  }

  // ---- Fixed limit -------------------------------------------------------

  function Buckets(c: seq<Hit>): seq<Bucket> {
    seq(|c|, i requires 0 <= i < |c| => c[i].bucket)
  }

  ghost predicate Fixed(h: seq<Obs>, n: U32) {
    forall i :: 0 <= i < |h| ==> h[i].fireAfter == n
  }

  ghost predicate FixedHits(c: seq<Hit>, n: U32) {
    forall i :: 0 <= i < |c| ==> c[i].fireAfter == n
  }

  lemma {:induction false} KeptFixed(h: seq<Obs>, n: U32)
    requires Fixed(h, n)
    ensures FixedHits(Kept(h), n)
  {
    if h != [] {
      KeptFixed(h[..|h| - 1], n);
    }
  }

  lemma {:induction false} BlockIsTail(c: seq<Hit>)
    ensures BlockLength(c) == Runs.Tail(Buckets(c))
  {
    if c != [] {
      assert Buckets(c)[..|c| - 1] == Buckets(c[..|c| - 1]);
      BlockIsTail(c[..|c| - 1]);
    }
  }

  lemma {:induction false} FixedReachedInBlock(c: seq<Hit>, n: U32)
    requires FixedHits(c, n)
    ensures ReachedInBlock(c) <==> c != [] && Max(1, n) <= BlockLength(c)
  {
    if c != [] {
      FixedReachedInBlock(c[..|c| - 1], n);
    }
  }

  // With the same limit on every call the streak fires exactly when the block
  // of the last bucket reaches length max(1, n), saturated or not.
  lemma {:induction false} JustFiredEndsBlock(c: seq<Hit>, n: U32)
    requires c != [] && FixedHits(c, n)
    ensures Verdict(c).JustFired? <==> Runs.EndsBlock(Buckets(c), c[|c| - 1].bucket, Max(1, n))
    ensures Verdict(c).JustFired? ==> Verdict(c).streak == Max(1, n)
  {
    VerdictAtReach(c, n);
    BlockIsTail(c);
    Runs.TailEndsBlock(Buckets(c), c[|c| - 1].bucket, Max(1, n));
  }

  // Number of calls that report JustFired.
  function FireCount(h: seq<Obs>): nat {
    if h == [] then 0
    else FireCount(h[..|h| - 1]) + if Report(h).JustFired? then 1 else 0
  }

  // Each maximal block of one bucket in the classified history that is at
  // least max(1, n) long fires once, a shorter one never.
  lemma {:induction false} FiresCountLongBlocks(h: seq<Obs>, n: U32)
    requires Fixed(h, n)
    ensures FireCount(h) == |Runs.LongBlocks(Buckets(Kept(h)), _ => true, Max(1, n))|
  {
    FiresAreReaches(h, n, _ => true);
    Runs.ReachesCountLongBlocks(Buckets(Kept(h)), _ => true, Max(1, n));
  }

  lemma {:induction false} FiresAreReaches(h: seq<Obs>, n: U32, want: Bucket -> bool)
    requires Fixed(h, n) && forall b :: want(b)
    ensures FireCount(h) == |Runs.Reaches(Buckets(Kept(h)), want, Max(1, n))|
  {
    if h != [] {
      var before, o := h[..|h| - 1], h[|h| - 1];
      FiresAreReaches(before, n, want);
      if o.bucket.Some? {
        KeptFixed(h, n);
        VerdictAtReach(Kept(h), n);
        assert Buckets(Kept(h)) == Buckets(Kept(before)) + [o.bucket.value];
        Runs.ReachesExtend(Buckets(Kept(before)), o.bucket.value, want, Max(1, n));
      }
    } else {
      assert Runs.Reaches(Buckets(Kept(h)), want, Max(1, n)) == {};
    }
  }

  lemma {:induction false} VerdictAtReach(c: seq<Hit>, n: U32)
    requires c != [] && FixedHits(c, n)
    ensures Verdict(c).JustFired? <==> Runs.Tail(Buckets(c)) == Max(1, n)
  {
    FixedReachedInBlock(c[..|c| - 1], n);
    BlockIsTail(c);
  }

  // ---- Arbitrary limits --------------------------------------------------

  // Whatever limits are passed, two fires are separated by a change of bucket.
  lemma {:induction false} OneFirePerBlock(c: seq<Hit>, i: nat)
    requires 1 <= i < |c| && Verdict(c[..i]).JustFired? && Verdict(c).JustFired?
    ensures exists k :: i <= k < |c| && c[k].bucket != c[k - 1].bucket
  {
    if forall k :: i <= k < |c| ==> c[k].bucket == c[k - 1].bucket {
      FiredStays(c, i);
    }
  }

  lemma {:induction false} FiredStays(c: seq<Hit>, i: nat)
    requires 1 <= i < |c| && Verdict(c[..i]).JustFired?
    requires forall k :: i <= k < |c| ==> c[k].bucket == c[k - 1].bucket
    ensures Continues(c) && ReachedInBlock(c[..|c| - 1])
  {
    assert c[|c| - 1].bucket == c[|c| - 2].bucket;
    var p := c[..|c| - 1];
    if i < |p| {
      assert p[..i] == c[..i];
      assert forall k :: i <= k < |p| ==> c[k].bucket == c[k - 1].bucket;
      FiredStays(p, i);
    }
  }
}
