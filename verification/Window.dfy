// The consecutive-breach counter and what it reports, stated over the whole
// history of observations.
module Window {
  import opened Machine
  import Runs

  // One call of Observe. The firing limit is an argument of every call.
  datatype Obs = Obs(breached: bool, fireAfter: U32)

  datatype BreachState =
    | Building(streak: U32)
    | JustFired(streak: U32)
    | StillFiring(streak: U32)
    | Reset

  // Number of breaching observations that end the history.
  function RunLength(h: seq<Obs>): (n: nat)
    ensures n <= |h|
  {
    if h == [] || !h[|h| - 1].breached then 0 else 1 + RunLength(h[..|h| - 1])
  }

  // The last observation breaches and its (saturated) run length is at least
  // the limit passed with it.
  ghost predicate Reached(h: seq<Obs>) {
    h != [] && h[|h| - 1].breached && h[|h| - 1].fireAfter <= Min(RunLength(h), U32_MAX)
  }

  // Some observation of the current run, the last one included, has Reached.
  ghost predicate ReachedInRun(h: seq<Obs>) {
    h != [] && h[|h| - 1].breached && (Reached(h) || ReachedInRun(h[..|h| - 1]))
  }

  // What the last observation should report, from the history alone.
  ghost function Verdict(h: seq<Obs>): BreachState
    requires h != []
  {
    var streak := Min(RunLength(h), U32_MAX);
    if !h[|h| - 1].breached then Reset
    else if !Reached(h) then Building(streak)
    else if ReachedInRun(h[..|h| - 1]) then StillFiring(streak)
    else JustFired(streak)
  }

  class ConsecutiveBreachCounter {
    var streak: U32
    var firedThisRun: bool
    ghost var history: seq<Obs>

    ghost predicate Valid()
      reads this
    {
      streak == Min(RunLength(history), U32_MAX) && firedThisRun == ReachedInRun(history)
    }

    constructor ()
      ensures Valid() && history == []
    {
      streak, firedThisRun, history := 0, false, [];
    }

    method Observe(breached: bool, fireAfter: U32) returns (r: BreachState)
      requires Valid()
      modifies this
      ensures Valid()
      ensures history == old(history) + [Obs(breached, fireAfter)]
      ensures r == Verdict(history)
    {
      ExtendRun(history, Obs(breached, fireAfter));
      history := history + [Obs(breached, fireAfter)];
      if !breached {
        streak := 0;
        firedThisRun := false;
        return Reset;
      }
      streak := SatAdd32(streak, 1);
      if streak < fireAfter {
        return Building(streak);
      }
      if firedThisRun {
        r := StillFiring(streak);
      } else {
        firedThisRun := true;
        r := JustFired(streak);
      }
    }
  }

  lemma {:induction false} ExtendRun(h: seq<Obs>, o: Obs)
    ensures (h + [o])[..|h|] == h
    ensures RunLength(h + [o]) == if o.breached then RunLength(h) + 1 else 0
    ensures ReachedInRun(h + [o]) <==> o.breached && (ReachedInRun(h) || Reached(h + [o]))
  {
    assert (h + [o])[..|h|] == h;
  }

  // ---- Fixed limit -------------------------------------------------------

  ghost predicate Fixed(h: seq<Obs>, n: U32) {
    forall i :: 0 <= i < |h| ==> h[i].fireAfter == n
  }

  function Breaches(h: seq<Obs>): seq<bool> {
    seq(|h|, i requires 0 <= i < |h| => h[i].breached)
  }

  lemma {:induction false} BreachesExtend(h: seq<Obs>, o: Obs)
    ensures Breaches(h + [o]) == Breaches(h) + [o.breached]
  {
  }

  lemma {:induction false} RunIsTail(h: seq<Obs>)
    requires h != [] && h[|h| - 1].breached
    ensures RunLength(h) == Runs.Tail(Breaches(h))
  {
    var p := h[..|h| - 1];
    assert Breaches(h)[..|h| - 1] == Breaches(p);
    if p != [] && p[|p| - 1].breached {
      RunIsTail(p);
    }
  }

  lemma {:induction false} FixedReachedInRun(h: seq<Obs>, n: U32)
    requires Fixed(h, n)
    ensures ReachedInRun(h) <==> Max(1, n) <= RunLength(h)
  {
    if h != [] && h[|h| - 1].breached {
      FixedReachedInRun(h[..|h| - 1], n);
    }
  }

  // With the same limit on every call, the state after each observation is a
  // function of the run length only, and the counter fires exactly when the
  // run length is max(1, n).
  lemma {:induction false} FixedVerdict(h: seq<Obs>, n: U32)
    requires h != [] && Fixed(h, n)
    ensures Verdict(h) ==
            var run := RunLength(h);
            if run == 0 then Reset
            else if run < Max(1, n) then Building(run)
            else if run == Max(1, n) then JustFired(run)
            else StillFiring(Min(run, U32_MAX))
  {
    FixedReachedInRun(h[..|h| - 1], n);
  }

  // Observations at which the counter reports JustFired.
  ghost function Fires(h: seq<Obs>): set<int> {
    set k | 0 <= k < |h| && FiresAt(h, k)
  }

  ghost predicate FiresAt(h: seq<Obs>, k: int)
    requires 0 <= k < |h|
  {
    Verdict(h[..k + 1]).JustFired?
  }

  lemma {:induction false} FiresAtIff(h: seq<Obs>, n: U32, k: int)
    requires Fixed(h, n) && 0 <= k < |h|
    ensures FiresAt(h, k) <==> h[k].breached && Runs.Tail(Breaches(h)[..k + 1]) == Max(1, n)
  {
    var p := h[..k + 1];
    FixedVerdict(p, n);
    assert Breaches(h)[..k + 1] == Breaches(p);
    if p[k].breached { RunIsTail(p); }
  }

  lemma {:induction false} FiresAtReach(h: seq<Obs>, n: U32)
    requires Fixed(h, n)
    ensures Fires(h) == Runs.Reaches(Breaches(h), b => b, Max(1, n))
  {
    forall k | 0 <= k < |h|
      ensures k in Fires(h) <==> k in Runs.Reaches(Breaches(h), b => b, Max(1, n))
    {
      FiresAtIff(h, n, k);
    }
  }

  // The number of fires is the number of maximal breaching runs of length at
  // least max(1, n): one fire per long episode, none for a short one.
  lemma {:induction false} FiresCountLongRuns(h: seq<Obs>, n: U32)
    requires Fixed(h, n)
    ensures |Fires(h)| == |Runs.LongBlocks(Breaches(h), b => b, Max(1, n))|
  {
    FiresAtReach(h, n);
    Runs.ReachesCountLongBlocks(Breaches(h), b => b, Max(1, n));
  }

  // The report of JustFired in terms of the breach sequence alone.
  lemma {:induction false} JustFiredEndsBlock(h: seq<Obs>, n: U32)
    requires h != [] && Fixed(h, n)
    ensures Verdict(h).JustFired? <==> Runs.EndsBlock(Breaches(h), true, Max(1, n))
    ensures Verdict(h).JustFired? ==> Verdict(h).streak == Max(1, n)
  {
    FixedVerdict(h, n);
    if h[|h| - 1].breached { RunIsTail(h); }
    Runs.TailEndsBlock(Breaches(h), true, Max(1, n));
  }

  // ---- Arbitrary limits --------------------------------------------------

  // Whatever limits are passed, two fires are always separated by a Reset.
  lemma {:induction false} OneFireBetweenResets(h: seq<Obs>, i: int, j: int)
    requires i in Fires(h) && j in Fires(h) && i < j
    ensures exists r :: i < r < j && !h[r].breached
  {
    assert h[..j + 1][..j] == h[..j];
    if forall r :: i < r < j ==> h[r].breached {
      FiredStays(h, i, j);
    }
  }

  lemma {:induction false} FiredStays(h: seq<Obs>, i: int, j: int)
    requires i in Fires(h) && i < j <= |h|
    requires forall r :: i < r < j ==> h[r].breached
    ensures ReachedInRun(h[..j])
  {
    if i + 1 < j {
      FiredStays(h, i, j - 1);
      assert h[..j][..j - 1] == h[..j - 1];
    }
  }
}
