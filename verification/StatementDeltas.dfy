// The pg_stat_statements collector: cumulative counters are differenced
// against the last snapshot of the same queryid.
module StatementDeltas {
  import opened Machine
  import opened Sums

  // A double: a finite value, or an infinity or NaN.
  datatype F64 = Finite(r: real) | NonFinite

  datatype Sample = Sample(
    queryid: int,
    database: string,
    username: string,
    calls: U64,
    totalExecTimeMs: F64,
    rows: U64,
    sharedBlksHit: U64,
    sharedBlksRead: U64)

  datatype Counter = Calls | ExecTimeMs | Rows | BlksHit | BlksRead

  datatype Cumulative = Cumulative(calls: U64, execTimeMs: U64, rows: U64, blksHit: U64, blksRead: U64) {
    function Get(k: Counter): U64 {
      match k
      case Calls => calls
      case ExecTimeMs => execTimeMs
      case Rows => rows
      case BlksHit => blksHit
      case BlksRead => blksRead
    }
  }

  const ZERO: Cumulative := Cumulative(0, 0, 0, 0, 0)

  datatype StmtDelta = StmtDelta(queryid: int, database: string, username: string, amounts: Cumulative)

  // Floor of a finite value with a saturating cast.
  function ClampToU64(v: F64): U64 {
    match v
    case NonFinite => U64_MAX
    case Finite(r) => if r <= 0.0 then 0 else Min(r.Floor, U64_MAX)
  }

  // Within range the result is the floor, outside it is the nearer end, and
  // what is not a number at all is the upper end. So it never decreases.
  lemma {:induction false} ClampIsFloor(a: real)
    ensures a < 0.0 ==> ClampToU64(Finite(a)) == 0
    ensures 0.0 <= a < (U64_MAX + 1) as real ==>
              ClampToU64(Finite(a)) as real <= a < ClampToU64(Finite(a)) as real + 1.0
    ensures (U64_MAX + 1) as real <= a ==> ClampToU64(Finite(a)) == U64_MAX
    ensures forall b :: a <= b ==> ClampToU64(Finite(a)) <= ClampToU64(Finite(b)) <= ClampToU64(NonFinite)
  {
  }

  function CumulativeOf(s: Sample): Cumulative {
    Cumulative(s.calls, ClampToU64(s.totalExecTimeMs), s.rows, s.sharedBlksHit, s.sharedBlksRead)
  }

  // ---- The history of samples, over all polls ----------------------------

  // The last snapshot of the queryid, zero when there is none.
  function LastFor(h: seq<Sample>, q: int): Cumulative {
    if h == [] then ZERO
    else if h[|h| - 1].queryid == q then CumulativeOf(h[|h| - 1])
    else LastFor(h[..|h| - 1], q)
  }

  // Each counter's increase, zero when it went down.
  function Increase(cur: Cumulative, was: Cumulative): Cumulative {
    Cumulative(SatSub64(cur.calls, was.calls),
               SatSub64(cur.execTimeMs, was.execTimeMs),
               SatSub64(cur.rows, was.rows),
               SatSub64(cur.blksHit, was.blksHit),
               SatSub64(cur.blksRead, was.blksRead))
  }

  function DeltaOf(h: seq<Sample>, s: Sample): StmtDelta {
    StmtDelta(s.queryid, s.database, s.username, Increase(CumulativeOf(s), LastFor(h, s.queryid)))
  }

  // One delta per sample, each against the samples before it.
  function Deltas(h: seq<Sample>): seq<StmtDelta> {
    if h == [] then []
    else
      var before := h[..|h| - 1];
      Deltas(before) + [DeltaOf(before, h[|h| - 1])]
  }

  function Amount(q: int, k: Counter): StmtDelta -> int {
    (d: StmtDelta) => if d.queryid == q then d.amounts.Get(k) else 0
  }

  const CALLS: StmtDelta -> int := (d: StmtDelta) => d.amounts.calls

  // The map of last snapshots, with the default for an unknown queryid.
  function PrevFor(prev: map<int, Cumulative>, q: int): Cumulative {
    if q in prev then prev[q] else ZERO
  }

  class Collector {
    var prev: map<int, Cumulative>
    ghost var history: seq<Sample>

    ghost predicate Valid()
      reads this
    {
      forall q :: PrevFor(prev, q) == LastFor(history, q)
    }

    constructor ()
      ensures Valid() && history == []
    {
      prev, history := map[], [];
    }

    // One successful poll. A failed one does not call this.
    method EmitDeltas(samples: seq<Sample>) returns (emitted: seq<StmtDelta>, deltaCalls: U64)
      requires Valid()
      modifies this
      ensures Valid() && history == old(history) + samples
      ensures Deltas(history) == Deltas(old(history)) + emitted
      ensures deltaCalls == Min(Sum(emitted, CALLS), U64_MAX)
    {
      emitted, deltaCalls := [], 0;
      ghost var was := history;
      for i := 0 to |samples|
        invariant Valid() && history == was + samples[..i]
        invariant Deltas(history) == Deltas(was) + emitted
        invariant deltaCalls == Min(Sum(emitted, CALLS), U64_MAX)
      {
        ghost var e := emitted;
        var d := Record(samples[i]);
        SumSnoc(e, d, CALLS);
        deltaCalls := SatAdd64(deltaCalls, d.amounts.calls);
        emitted := emitted + [d];
        assert Deltas(history) == Deltas(was) + (e + [d]);
        assert samples[..i + 1] == samples[..i] + [samples[i]];
      }
      assert samples[..|samples|] == samples;
    }

    // One row of a poll.
    method Record(s: Sample) returns (d: StmtDelta)
      requires Valid()
      modifies this
      ensures Valid() && history == old(history) + [s]
      ensures d == DeltaOf(old(history), s) && Deltas(history) == Deltas(old(history)) + [d]
    {
      var cur := CumulativeOf(s);
      var previous := PrevFor(prev, s.queryid);
      d := StmtDelta(s.queryid, s.database, s.username, Increase(cur, previous));
      ghost var h, was := history, prev;
      prev := prev[s.queryid := cur];
      history := history + [s];
      AppendDelta(h, s);
      forall q
        ensures PrevFor(prev, q) == LastFor(history, q)
      {
        assert PrevFor(was, q) == LastFor(h, q);
        AppendSample(h, s, q);
      }
    }
  }

  lemma {:induction false} AppendDelta(h: seq<Sample>, s: Sample)
    ensures Deltas(h + [s]) == Deltas(h) + [DeltaOf(h, s)]
  {
    assert (h + [s])[..|h|] == h;
  }

  lemma {:induction false} AppendSample(h: seq<Sample>, s: Sample, q: int)
    ensures LastFor(h + [s], q) == if q == s.queryid then CumulativeOf(s) else LastFor(h, q)
  {
    assert (h + [s])[..|h|] == h;
  }

  // ---- Conservation ------------------------------------------------------

  // What a sample says about one counter.
  function Reported(s: Sample, k: Counter): U64 {
    match k
    case Calls => s.calls
    case ExecTimeMs => ClampToU64(s.totalExecTimeMs)
    case Rows => s.rows
    case BlksHit => s.sharedBlksHit
    case BlksRead => s.sharedBlksRead
  }

  // The values one counter of one queryid took, oldest first.
  function Series(h: seq<Sample>, q: int, k: Counter): seq<U64> {
    if h == [] then []
    else
      var before, s := Series(h[..|h| - 1], q, k), h[|h| - 1];
      if s.queryid == q then before + [Reported(s, k)] else before
  }

  function LastOr(v: U64, values: seq<U64>): U64 {
    if values == [] then v else values[|values| - 1]
  }

  // Total by which the counter went down, starting from v.
  function DropsFrom(v: U64, values: seq<U64>): nat {
    if values == [] then 0
    else
      var before := values[..|values| - 1];
      DropsFrom(v, before) + SatSub64(LastOr(v, before), values[|values| - 1])
  }

  // The last value, and what resets took away, of a counter that starts at 0.
  function Last(values: seq<U64>): U64 {
    LastOr(0, values)
  }

  function Drops(values: seq<U64>): nat {
    DropsFrom(0, values)
  }

  lemma {:induction false} LastForIsLast(h: seq<Sample>, q: int, k: Counter)
    ensures LastFor(h, q).Get(k) == Last(Series(h, q, k))
  {
    if h != [] {
      LastForIsLast(h[..|h| - 1], q, k);
    }
  }

  // Over any polls, with rows missing or reset at will, the emitted deltas of
  // a counter add up to its last value plus everything the resets took away.
  lemma {:induction false} DeltasConserved(h: seq<Sample>, q: int, k: Counter)
    ensures Sum(Deltas(h), Amount(q, k)) == Last(Series(h, q, k)) + Drops(Series(h, q, k))
  {
    if h != [] {
      var before, s := h[..|h| - 1], h[|h| - 1];
      DeltasConserved(before, q, k);
      LastForIsLast(before, q, k);
      var ds, vs := Deltas(h), Series(h, q, k);
      assert ds[..|ds| - 1] == Deltas(before);
      assert DeltaOf(before, s).amounts.Get(k) == SatSub64(Reported(s, k), LastFor(before, s.queryid).Get(k));
      if s.queryid == q {
        assert vs[..|vs| - 1] == Series(before, q, k);
      }
    }
  }

  ghost predicate NonDecreasing(values: seq<U64>) {
    forall i, j :: 0 <= i <= j < |values| ==> values[i] <= values[j]
  }

  lemma {:induction false} NoDropsFromIff(v: U64, values: seq<U64>)
    ensures DropsFrom(v, values) == 0 <==> NonDecreasing([v] + values)
  {
    var all := [v] + values;
    if values != [] {
      var n := |values| - 1;
      NoDropsFromIff(v, values[..n]);
      assert all[..n + 1] == [v] + values[..n];
      assert LastOr(v, values[..n]) == all[n];
      assert NonDecreasing(all) ==> all[n] <= all[n + 1];
      if NonDecreasing(all[..n + 1]) && all[n] <= all[n + 1] {
        forall i, j | 0 <= i <= j < |all|
          ensures all[i] <= all[j]
        {
          if i <= n { assert all[..n + 1][i] <= all[..n + 1][n]; }
          if j <= n { assert all[..n + 1][i] <= all[..n + 1][j]; }
        }
      }
      assert NonDecreasing(all) ==> NonDecreasing(all[..n + 1]);
    }
  }

  lemma {:induction false} NoDropsIff(values: seq<U64>)
    ensures Drops(values) == 0 <==> NonDecreasing(values)
  {
    NoDropsFromIff(0, values);
    var all := [0] + values;
    assert forall i :: 0 <= i < |values| ==> all[i + 1] == values[i];
    if NonDecreasing(values) {
      forall i, j | 0 <= i <= j < |all|
        ensures all[i] <= all[j]
      {
        if 0 < i { assert values[i - 1] <= values[j - 1]; }
      }
    }
    if NonDecreasing(all) {
      forall i, j | 0 <= i <= j < |values|
        ensures values[i] <= values[j]
      {
        assert all[i + 1] <= all[j + 1];
      }
    }
  }

  // So the emitted total is the cumulative value itself exactly when the
  // counter was never seen to go down.
  lemma {:induction false} DeltasExactIff(h: seq<Sample>, q: int, k: Counter)
    ensures Sum(Deltas(h), Amount(q, k)) == Last(Series(h, q, k)) <==> NonDecreasing(Series(h, q, k))
  {
    DeltasConserved(h, q, k);
    NoDropsIff(Series(h, q, k));
  }

  // ---- Rounding ----------------------------------------------------------

  function ExecTimes(h: seq<Sample>, q: int): seq<F64> {
    if h == [] then []
    else
      var before, s := ExecTimes(h[..|h| - 1], q), h[|h| - 1];
      if s.queryid == q then before + [s.totalExecTimeMs] else before
  }

  lemma {:induction false} ExecSeriesIsClamped(h: seq<Sample>, q: int)
    ensures |Series(h, q, ExecTimeMs)| == |ExecTimes(h, q)|
    ensures forall i :: 0 <= i < |ExecTimes(h, q)| ==> Series(h, q, ExecTimeMs)[i] == ClampToU64(ExecTimes(h, q)[i])
  {
    if h != [] {
      ExecSeriesIsClamped(h[..|h| - 1], q);
    }
  }

  ghost predicate Climbing(times: seq<F64>) {
    && (forall i :: 0 <= i < |times| ==> times[i].Finite?)
    && (forall i, j :: 0 <= i <= j < |times| ==> times[i].r <= times[j].r)
  }

  // Flooring the cumulative time before differencing does not drift: while the
  // true time climbs within range, the emitted total is its whole-millisecond
  // part, less than 1 ms away, however many polls there were.
  lemma {:induction false} NoRoundingDrift(h: seq<Sample>, q: int)
    requires var t := ExecTimes(h, q);
             t != [] && Climbing(t) && 0.0 <= t[|t| - 1].r < (U64_MAX + 1) as real
    ensures var total := ExecTimes(h, q)[|ExecTimes(h, q)| - 1].r;
            var emitted := Sum(Deltas(h), Amount(q, ExecTimeMs)) as real;
            emitted <= total < emitted + 1.0
  {
    var t, values := ExecTimes(h, q), Series(h, q, ExecTimeMs);
    ExecSeriesIsClamped(h, q);
    forall i, j | 0 <= i <= j < |values|
      ensures values[i] <= values[j]
    {
      ClampIsFloor(t[i].r);
    }
    DeltasExactIff(h, q, ExecTimeMs);
    assert values[|values| - 1] == ClampToU64(t[|t| - 1]);
  }

  // ---- Rows of the view --------------------------------------------------

  // The view has a row per queryid, database and user; deltas carry all three.
  datatype Row = Row(queryid: int, database: string, username: string)

  function RowOf(s: Sample): Row {
    Row(s.queryid, s.database, s.username)
  }

  function RowAmount(r: Row, k: Counter): StmtDelta -> int {
    (d: StmtDelta) => if Row(d.queryid, d.database, d.username) == r then d.amounts.Get(k) else 0
  }

  function RowSeries(h: seq<Sample>, r: Row, k: Counter): seq<U64> {
    if h == [] then []
    else
      var before, s := RowSeries(h[..|h| - 1], r, k), h[|h| - 1];
      if RowOf(s) == r then before + [Reported(s, k)] else before
  }

  // No other row has this row's queryid.
  ghost predicate SoleRow(h: seq<Sample>, r: Row) {
    forall i :: 0 <= i < |h| && h[i].queryid == r.queryid ==> RowOf(h[i]) == r
  }

  lemma {:induction false} SoleRowSeries(h: seq<Sample>, r: Row, k: Counter)
    requires SoleRow(h, r)
    ensures RowSeries(h, r, k) == Series(h, r.queryid, k)
    ensures Sum(Deltas(h), RowAmount(r, k)) == Sum(Deltas(h), Amount(r.queryid, k))
  {
    if h != [] {
      var before, s := h[..|h| - 1], h[|h| - 1];
      SoleRowSeries(before, r, k);
      assert h == before + [s];
      AppendDelta(before, s);
      SumSnoc(Deltas(before), DeltaOf(before, s), RowAmount(r, k));
      SumSnoc(Deltas(before), DeltaOf(before, s), Amount(r.queryid, k));
    }
  }

  // A row that shares its queryid with no other is accounted for exactly: the
  // deltas with its labels add up to its own last value plus its own drops.
  lemma {:induction false} RowDeltasConserved(h: seq<Sample>, r: Row, k: Counter)
    requires SoleRow(h, r)
    ensures Sum(Deltas(h), RowAmount(r, k)) == Last(RowSeries(h, r, k)) + Drops(RowSeries(h, r, k))
  {
    SoleRowSeries(h, r, k);
    DeltasConserved(h, r.queryid, k);
  }

  // ---- Shared queryids ---------------------------------------------------

  lemma {:induction false} SeriesConcat(h: seq<Sample>, p: seq<Sample>, q: int, k: Counter)
    ensures Series(h + p, q, k) == Series(h, q, k) + Series(p, q, k)
  {
    if p == [] {
      assert h + p == h;
    } else {
      SeriesConcat(h, p[..|p| - 1], q, k);
      assert (h + p)[..|h + p| - 1] == h + p[..|p| - 1];
    }
  }

  lemma {:induction false} DropsConcat(v: U64, a: seq<U64>, b: seq<U64>)
    ensures DropsFrom(v, a + b) == DropsFrom(v, a) + DropsFrom(LastOr(v, a), b)
  {
    if b == [] {
      assert a + b == a;
    } else {
      DropsConcat(v, a, b[..|b| - 1]);
      assert (a + b)[..|a + b| - 1] == a + b[..|b| - 1];
      assert LastOr(v, a + b[..|b| - 1]) == LastOr(LastOr(v, a), b[..|b| - 1]);
    }
  }

  // What one more poll with the same rows emits for a queryid: the drops around
  // the circle of its rows, from the last of them back to the first and on.
  function Again(p: seq<Sample>, q: int, k: Counter): nat {
    DropsFrom(Last(Series(p, q, k)), Series(p, q, k))
  }

  // The table of last snapshots is keyed by queryid alone, so the rows of a
  // poll that share a queryid are differenced against one another. This is the
  // exact amount: whatever came before, and however many rows there are, a poll
  // that repeats the one before it emits this much.
  lemma {:induction false} RepeatedPollEmits(h: seq<Sample>, p: seq<Sample>, q: int, k: Counter)
    ensures Sum(Deltas(h + p + p), Amount(q, k)) == Sum(Deltas(h + p), Amount(q, k)) + Again(p, q, k)
  {
    var hs, ps := Series(h, q, k), Series(p, q, k);
    SeriesConcat(h, p, q, k);
    SeriesConcat(h + p, p, q, k);
    DeltasConserved(h + p, q, k);
    DeltasConserved(h + p + p, q, k);
    DropsConcat(0, hs + ps, ps);
    if ps == [] { assert hs + ps + ps == hs + ps; }
  }

  // All rows of the queryid in the poll report the same value of the counter.
  ghost predicate RowsAgree(p: seq<Sample>, q: int, k: Counter) {
    forall i, j :: 0 <= i < |p| && 0 <= j < |p| && p[i].queryid == q && p[j].queryid == q ==>
                     Reported(p[i], k) == Reported(p[j], k)
  }

  lemma {:induction false} SeriesReports(p: seq<Sample>, q: int, k: Counter, x: U64)
    ensures x in Series(p, q, k) <==> exists i :: 0 <= i < |p| && p[i].queryid == q && Reported(p[i], k) == x
  {
    if p != [] {
      var before := p[..|p| - 1];
      SeriesReports(before, q, k, x);
      if i :| 0 <= i < |before| && before[i].queryid == q && Reported(before[i], k) == x {
        assert p[i] == before[i];
      }
      if i :| 0 <= i < |p| && p[i].queryid == q && Reported(p[i], k) == x {
        assert i < |before| ==> before[i] == p[i];
      }
    }
  }

  lemma {:induction false} NoCircleIff(values: seq<U64>)
    ensures DropsFrom(Last(values), values) == 0 <==> forall x, y :: x in values && y in values ==> x == y
  {
    var all := [Last(values)] + values;
    NoDropsFromIff(Last(values), values);
    assert forall i :: 0 <= i < |values| ==> all[i + 1] == values[i];
    if NonDecreasing(all) {
      forall i | 0 <= i < |values|
        ensures values[i] == Last(values)
      {
        assert all[0] <= all[i + 1] <= all[|values|];
      }
    }
    if forall x, y :: x in values && y in values ==> x == y {
      forall i | 0 <= i < |all|
        ensures all[i] == Last(values)
      {
        if 0 < i { assert values[i - 1] in values && values[|values| - 1] in values; }
      }
    }
  }

  // Repeating a poll emits nothing for a queryid exactly when all its rows in
  // the poll agree; in particular when it has one row only.
  lemma {:induction false} RepeatedPollIff(h: seq<Sample>, p: seq<Sample>, q: int, k: Counter)
    ensures Sum(Deltas(h + p + p), Amount(q, k)) == Sum(Deltas(h + p), Amount(q, k)) <==> RowsAgree(p, q, k)
  {
    RepeatedPollEmits(h, p, q, k);
    var values := Series(p, q, k);
    NoCircleIff(values);
    forall x
      ensures x in values <==> exists i :: 0 <= i < |p| && p[i].queryid == q && Reported(p[i], k) == x
    {
      SeriesReports(p, q, k, x);
    }
    forall i | 0 <= i < |p| && p[i].queryid == q
      ensures Reported(p[i], k) in values
    {
    }
  }

  function Repeat(p: seq<Sample>, n: nat): seq<Sample> {
    if n == 0 then [] else p + Repeat(p, n - 1)
  }

  // Every further repetition emits it again.
  lemma {:induction false} RepeatedPollsEmit(h: seq<Sample>, p: seq<Sample>, n: nat, q: int, k: Counter)
    ensures Sum(Deltas(h + p + Repeat(p, n)), Amount(q, k)) ==
            Sum(Deltas(h + p), Amount(q, k)) + n * Again(p, q, k)
    decreases n
  {
    if n == 0 {
      assert h + p + Repeat(p, n) == h + p;
    } else {
      assert h + p + Repeat(p, n) == h + p + p + Repeat(p, n - 1);
      RepeatedPollsEmit(h + p, p, n - 1, q, k);
      RepeatedPollEmits(h, p, q, k);
      MulStep(n, Again(p, q, k));
    }
  }

  lemma {:induction false} SeriesOfTwo(a: Sample, b: Sample, k: Counter)
    requires a.queryid == b.queryid
    ensures Series([a, b], a.queryid, k) == [Reported(a, k), Reported(b, k)]
  {
    assert [a, b][..1] == [a] && [a][..0] == [];
    assert Series([a], a.queryid, k) == [Reported(a, k)];
  }

  lemma {:induction false} DropsOfTwo(v: U64, x: U64, y: U64)
    ensures DropsFrom(v, [x, y]) == SatSub64(v, x) + SatSub64(x, y)
  {
    assert [x, y][..1] == [x] && [x][..0] == [];
    assert DropsFrom(v, [x]) == SatSub64(v, x);
  }

  // Two rows with one queryid, in either order and for any counter: although
  // neither moves after the first poll, every later poll emits their difference.
  lemma {:induction false} SharedQueryidOvercounts(a: Sample, b: Sample, n: nat, k: Counter)
    requires a.queryid == b.queryid
    ensures var x, y := Reported(a, k), Reported(b, k);
            Sum(Deltas([a, b] + Repeat([a, b], n)), Amount(a.queryid, k)) ==
            Max(x, y) + n * (Max(x, y) - Min(x, y))
  {
    var p, q, x, y := [a, b], a.queryid, Reported(a, k), Reported(b, k);
    SeriesOfTwo(a, b, k);
    DropsOfTwo(0, x, y);
    DropsOfTwo(y, x, y);
    assert Again(p, q, k) == Max(x, y) - Min(x, y);
    assert [] + p == p;
    RepeatedPollsEmit([], p, n, q, k);
    DeltasConserved(p, q, k);
  }
}
