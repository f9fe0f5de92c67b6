// The in-flight table of block_rq_issue / block_rq_complete, with handlers
// that run to completion one at a time. The bounded table of the program is
// compared with an unbounded one and with the trace itself.
module Inflight {
  import opened Machine
  import opened BlockIo

  // Slots in the kernel map.
  const CAPACITY: nat := 8192

  type Table = map<RqKey, U64>

  // One tracepoint hit. A field that could not be read is None; ringRoom says
  // whether the ring buffer accepts the event this completion may emit.
  datatype Step =
    | Issue(dev: Option<U32>, sector: Option<U64>, ts: U64)
    | Complete(dev: Option<U32>, sector: Option<U64>, now: U64,
               nrSector: Option<U32>, rwbs: Option<Rwbs>, ringRoom: bool)

  // A completion joined with the issue it was matched to.
  datatype Match = Match(key: RqKey, issuedAt: U64, completedAt: U64, nrSector: Option<U32>, rwbs: Option<Rwbs>)

  predicate PassesFilter(devT: U32, dev: U32) {
    devT == 0 || dev == devT
  }

  // The key a step touches, or None when its handler returns early.
  function KeyOf(devT: U32, s: Step): Option<RqKey> {
    match (s.dev, s.sector)
    case (Some(dev), Some(sector)) => if PassesFilter(devT, dev) then Some(RqKey(dev, sector)) else None
    case _ => None
  }

  function EventOf(m: Match): LatencyEvent {
    LatencyEvent(
      m.key.dev,
      ClassifyRwbs(if m.rwbs.Some? then m.rwbs.value else [0, 0, 0, 0, 0, 0, 0, 0]),
      SatMul32(if m.nrSector.Some? then m.nrSector.value else 0, SECTOR_SIZE_BYTES),
      SatSub64(m.completedAt, m.issuedAt))
  }

  // What a match reports, flag by flag. Flags that cannot be read, or start
  // with none of R, W and F, are Other; a sector count that cannot be read is 0.
  lemma {:induction false} EventIs(m: Match)
    ensures var e := EventOf(m);
            && e.dev == m.key.dev
            && e.bytes == Min(512 * (if m.nrSector.Some? then m.nrSector.value else 0), 0xffff_ffff)
            && e.latencyNs == Max(0, m.completedAt - m.issuedAt)
    ensures var c := EventOf(m).opClass;
            match m.rwbs
            case None => c == Other
            case Some(flags) =>
              var flush := exists i :: 0 <= i < 8 && (flags[i] == 'F' as int || flags[i] == 'A' as int);
              && (c == Read <==> flags[0] == 'R' as int)
              && (c == WriteFlush <==> (flags[0] == 'W' as int || flags[0] == 'F' as int) && flush)
              && (c == Write <==> flags[0] == 'W' as int && !flush)
              && (c == Other <==> flags[0] != 'R' as int && flags[0] != 'W' as int && flags[0] != 'F' as int)
  {
    if m.rwbs.Some? {
      assert m.rwbs.value[0] in m.rwbs.value;
    }
  }

  // Best-effort insert of the kernel map: an existing key is overwritten even
  // when the map is full, a new key is dropped then.
  function Insert(cap: nat, t: Table, k: RqKey, ts: U64): Table {
    if k in t || |t| < cap then t[k := ts] else t
  }

  function Apply(cap: nat, devT: U32, t: Table, s: Step): Table {
    match KeyOf(devT, s)
    case None => t
    case Some(k) => if s.Issue? then Insert(cap, t, k, s.ts) else t - {k}
  }

  // The match a step yields, given the table before it.
  function Hit(devT: U32, t: Table, s: Step): Option<Match> {
    match KeyOf(devT, s)
    case None => None
    case Some(k) =>
      if s.Complete? && k in t then Some(Match(k, t[k], s.now, s.nrSector, s.rwbs)) else None
  }

  // The table after a trace, with at most cap slots.
  function Bounded(cap: nat, devT: U32, trace: seq<Step>): Table {
    if trace == [] then map[]
    else Apply(cap, devT, Bounded(cap, devT, trace[..|trace| - 1]), trace[|trace| - 1])
  }

  // Events accepted by the ring over a trace, oldest first.
  function Emitted(cap: nat, devT: U32, trace: seq<Step>): seq<LatencyEvent> {
    if trace == [] then []
    else
      var before, s := trace[..|trace| - 1], trace[|trace| - 1];
      var hit := Hit(devT, Bounded(cap, devT, before), s);
      Emitted(cap, devT, before) + if hit.Some? && s.ringRoom then [EventOf(hit.value)] else []
  }

  // ---- The reference: what the trace itself says -------------------------

  // Index of the last accepted step for the key.
  function LastTouch(devT: U32, trace: seq<Step>, k: RqKey): (r: Option<nat>)
    ensures r.Some? ==> r.value < |trace| && KeyOf(devT, trace[r.value]) == Some(k)
    ensures forall i :: (if r.Some? then r.value + 1 else 0) <= i < |trace| ==> KeyOf(devT, trace[i]) != Some(k)
  {
    if trace == [] then None
    else if KeyOf(devT, trace[|trace| - 1]) == Some(k) then Some(|trace| - 1)
    else LastTouch(devT, trace[..|trace| - 1], k)
  }

  // The request for k is outstanding: its last accepted step is an issue.
  predicate Outstanding(devT: U32, trace: seq<Step>, k: RqKey) {
    var i := LastTouch(devT, trace, k);
    i.Some? && trace[i.value].Issue?
  }

  function IssuedAt(devT: U32, trace: seq<Step>, k: RqKey): U64
    requires Outstanding(devT, trace, k)
  {
    trace[LastTouch(devT, trace, k).value].ts
  }

  // The unbounded matcher.
  function Ideal(devT: U32, trace: seq<Step>): Table {
    if trace == [] then map[]
    else ApplyIdeal(devT, Ideal(devT, trace[..|trace| - 1]), trace[|trace| - 1])
  }

  function ApplyIdeal(devT: U32, t: Table, s: Step): Table {
    match KeyOf(devT, s)
    case None => t
    case Some(k) => if s.Issue? then t[k := s.ts] else t - {k}
  }

  // The unbounded table is exactly the outstanding requests and their issue times.
  lemma {:induction false} IdealIsOutstanding(devT: U32, trace: seq<Step>, k: RqKey)
    ensures k in Ideal(devT, trace) <==> Outstanding(devT, trace, k)
    ensures k in Ideal(devT, trace) ==> Ideal(devT, trace)[k] == IssuedAt(devT, trace, k)
  {
    if trace != [] {
      IdealIsOutstanding(devT, trace[..|trace| - 1], k);
    }
  }

  // ---- Bounded against unbounded -----------------------------------------

  ghost predicate Submap(a: Table, b: Table) {
    forall k :: k in a ==> k in b && a[k] == b[k]
  }

  lemma {:induction false} BoundedRefinesIdeal(cap: nat, devT: U32, trace: seq<Step>)
    ensures Submap(Bounded(cap, devT, trace), Ideal(devT, trace))
    ensures |Bounded(cap, devT, trace)| <= cap
  {
    if trace != [] {
      var t, s := Bounded(cap, devT, trace[..|trace| - 1]), trace[|trace| - 1];
      BoundedRefinesIdeal(cap, devT, trace[..|trace| - 1]);
      if KeyOf(devT, s).Some? {
        SizeChange(t, KeyOf(devT, s).value, s);
      }
    }
  }

  lemma {:induction false} SizeChange(t: Table, k: RqKey, s: Step)
    ensures |t - {k}| == if k in t then |t| - 1 else |t|
    ensures s.Issue? ==> |t[k := s.ts]| == if k in t then |t| else |t| + 1
  {
    assert (t - {k}).Keys == t.Keys - {k};
    if k in t {
      assert t.Keys == (t - {k}).Keys + {k};
    }
    if s.Issue? {
      assert t[k := s.ts].Keys == t.Keys + {k};
    }
  }

  // A key in the table carries the time of the most recent accepted issue for
  // it, no completion for it has come since, and its device passes the filter.
  lemma {:induction false} NoStaleTimestamps(cap: nat, devT: U32, trace: seq<Step>, k: RqKey)
    requires k in Bounded(cap, devT, trace)
    ensures Outstanding(devT, trace, k)
    ensures Bounded(cap, devT, trace)[k] == IssuedAt(devT, trace, k)
    ensures PassesFilter(devT, k.dev)
  {
    BoundedRefinesIdeal(cap, devT, trace);
    IdealIsOutstanding(devT, trace, k);
  }

  // Every match of the bounded table pairs the completion with the last issue
  // for the same key before it: the match the unbounded table would make.
  lemma {:induction false} MatchesAreIdeal(cap: nat, devT: U32, trace: seq<Step>, s: Step)
    ensures var hit := Hit(devT, Bounded(cap, devT, trace), s);
            hit.Some? ==> hit == Hit(devT, Ideal(devT, trace), s)
    ensures Hit(devT, Ideal(devT, trace), s).Some? <==>
            s.Complete? && KeyOf(devT, s).Some? && Outstanding(devT, trace, KeyOf(devT, s).value)
    ensures var hit := Hit(devT, Ideal(devT, trace), s);
            hit.Some? ==> hit.value.issuedAt == IssuedAt(devT, trace, KeyOf(devT, s).value)
  {
    BoundedRefinesIdeal(cap, devT, trace);
    if KeyOf(devT, s).Some? {
      IdealIsOutstanding(devT, trace, KeyOf(devT, s).value);
    }
  }

  // Number of outstanding requests after the first i steps.
  function OutstandingAt(devT: U32, trace: seq<Step>, i: nat): nat
    requires i <= |trace|
  {
    |Ideal(devT, trace[..i])|
  }

  ghost predicate AlwaysFits(cap: nat, devT: U32, trace: seq<Step>) {
    forall i: nat :: i <= |trace| ==> OutstandingAt(devT, trace, i) <= cap
  }

  lemma {:induction false} AlwaysFitsExtend(cap: nat, devT: U32, before: seq<Step>, s: Step)
    ensures AlwaysFits(cap, devT, before + [s]) <==>
            AlwaysFits(cap, devT, before) && |Ideal(devT, before + [s])| <= cap
  {
    var trace := before + [s];
    forall i: nat | i <= |before|
      ensures OutstandingAt(devT, trace, i) == OutstandingAt(devT, before, i)
    {
      assert trace[..i] == before[..i];
    }
    assert trace[..|trace|] == trace;
    assert OutstandingAt(devT, trace, |trace|) == |Ideal(devT, trace)|;
  }

  // ---- Conservation ------------------------------------------------------

  // What has become of the accepted issues of a trace.
  datatype Ledger = Ledger(accepted: nat, submitted: nat, ringLost: nat, overwritten: nat, dropped: nat)

  function Book(cap: nat, devT: U32, l: Ledger, t: Table, s: Step): Ledger {
    match KeyOf(devT, s)
    case None => l
    case Some(k) =>
      if s.Issue? then
        var l := l.(accepted := l.accepted + 1);
        if k in t then l.(overwritten := l.overwritten + 1)
        else if |t| < cap then l
        else l.(dropped := l.dropped + 1)
      else if k !in t then l
      else if s.ringRoom then l.(submitted := l.submitted + 1)
      else l.(ringLost := l.ringLost + 1)
  }

  function Account(cap: nat, devT: U32, trace: seq<Step>): Ledger {
    if trace == [] then Ledger(0, 0, 0, 0, 0)
    else
      var before := trace[..|trace| - 1];
      Book(cap, devT, Account(cap, devT, before), Bounded(cap, devT, before), trace[|trace| - 1])
  }

  lemma {:induction false} IssuesConserved(cap: nat, devT: U32, trace: seq<Step>)
    ensures var l := Account(cap, devT, trace);
            l.accepted == l.submitted + l.ringLost + l.overwritten + l.dropped + |Bounded(cap, devT, trace)|
    ensures Account(cap, devT, trace).submitted == |Emitted(cap, devT, trace)|
  {
    if trace != [] {
      var t, s := Bounded(cap, devT, trace[..|trace| - 1]), trace[|trace| - 1];
      IssuesConserved(cap, devT, trace[..|trace| - 1]);
      if KeyOf(devT, s).Some? {
        SizeChange(t, KeyOf(devT, s).value, s);
      }
    }
  }

  lemma {:induction false} StepFitsIff(cap: nat, devT: U32, l: Ledger, t: Table, s: Step)
    requires |t| <= cap
    ensures Book(cap, devT, l, t, s).dropped == l.dropped <==> |ApplyIdeal(devT, t, s)| <= cap
    ensures |ApplyIdeal(devT, t, s)| <= cap ==> Apply(cap, devT, t, s) == ApplyIdeal(devT, t, s)
  {
    if KeyOf(devT, s).Some? {
      SizeChange(t, KeyOf(devT, s).value, s);
    }
  }

  // The capacity costs nothing exactly when the number of outstanding
  // requests never exceeds it: then, and only then, no issue is dropped, and
  // the two tables are equal.
  lemma {:induction false} NothingDroppedIff(cap: nat, devT: U32, trace: seq<Step>)
    ensures Account(cap, devT, trace).dropped == 0 <==> AlwaysFits(cap, devT, trace)
    ensures AlwaysFits(cap, devT, trace) ==> Bounded(cap, devT, trace) == Ideal(devT, trace)
  {
    if trace != [] {
      var before, s := trace[..|trace| - 1], trace[|trace| - 1];
      NothingDroppedIff(cap, devT, before);
      assert trace == before + [s];
      AlwaysFitsExtend(cap, devT, before, s);
      if AlwaysFits(cap, devT, before) {
        FitsAtEnd(cap, devT, before);
        StepFitsIff(cap, devT, Account(cap, devT, before), Ideal(devT, before), s);
      }
    } else {
      assert OutstandingAt(devT, trace, 0) == 0;
    }
  }

  // For the program's map that number is 8192.
  lemma {:induction false} KernelDropsNothingIff(devT: U32, trace: seq<Step>)
    ensures Account(CAPACITY, devT, trace).dropped == 0 <==>
            forall i: nat :: i <= |trace| ==> OutstandingAt(devT, trace, i) <= 8192
  {
    NothingDroppedIff(CAPACITY, devT, trace);
  }

  lemma {:induction false} FitsAtEnd(cap: nat, devT: U32, trace: seq<Step>)
    requires AlwaysFits(cap, devT, trace)
    ensures |Ideal(devT, trace)| <= cap
  {
    assert trace[..|trace|] == trace;
    assert OutstandingAt(devT, trace, |trace|) <= cap;
  }

  // Then no latency is lost for lack of space either: every completion is
  // matched as the unbounded table would match it.
  lemma {:induction false} FitsLosesNothing(cap: nat, devT: U32, trace: seq<Step>, i: nat)
    requires i < |trace| && AlwaysFits(cap, devT, trace)
    ensures Hit(devT, Bounded(cap, devT, trace[..i]), trace[i]) == Hit(devT, Ideal(devT, trace[..i]), trace[i])
  {
    forall j: nat | j <= i
      ensures OutstandingAt(devT, trace[..i], j) <= cap
    {
      assert trace[..i][..j] == trace[..j];
      assert OutstandingAt(devT, trace, j) <= cap;
    }
    NothingDroppedIff(cap, devT, trace[..i]);
  }

  // The next accepted step for the key of step i, after i.
  ghost predicate IsNextTouch(devT: U32, trace: seq<Step>, i: nat, j: nat) {
    && i < j < |trace|
    && KeyOf(devT, trace[i]).Some?
    && KeyOf(devT, trace[j]) == KeyOf(devT, trace[i])
    && forall m :: i < m < j ==> KeyOf(devT, trace[m]) != KeyOf(devT, trace[i])
  }

  ghost predicate DroppedAt(cap: nat, devT: U32, trace: seq<Step>, i: nat)
    requires i < |trace| && KeyOf(devT, trace[i]).Some?
  {
    var t := Bounded(cap, devT, trace[..i]);
    KeyOf(devT, trace[i]).value !in t && cap <= |t|
  }

  lemma {:induction false} EntrySurvives(cap: nat, devT: U32, trace: seq<Step>, i: nat, n: nat)
    requires i < n <= |trace| && trace[i].Issue? && KeyOf(devT, trace[i]).Some?
    requires forall m :: i < m < n ==> KeyOf(devT, trace[m]) != KeyOf(devT, trace[i])
    ensures var k, t := KeyOf(devT, trace[i]).value, Bounded(cap, devT, trace[..n]);
            if DroppedAt(cap, devT, trace, i) then k !in t else k in t && t[k] == trace[i].ts
  {
    assert trace[..n][..n - 1] == trace[..n - 1];
    if i + 1 < n {
      EntrySurvives(cap, devT, trace, i, n - 1);
    }
  }

  // The fate of an accepted issue i is settled by its own insert and the next
  // step for its key. A dropped one is never matched; one that was stored is
  // matched, with its own issue time, by a completion that comes next, is
  // found and replaced by an issue that comes next, and is still in the table
  // if nothing comes next.
  lemma {:induction false} FateOfIssue(cap: nat, devT: U32, trace: seq<Step>, i: nat)
    requires i < |trace| && trace[i].Issue? && KeyOf(devT, trace[i]).Some?
    ensures forall j: nat :: IsNextTouch(devT, trace, i, j) ==>
              var t, k := Bounded(cap, devT, trace[..j]), KeyOf(devT, trace[i]).value;
              if DroppedAt(cap, devT, trace, i) then k !in t
              else
                && k in t
                && (trace[j].Complete? ==>
                      Hit(devT, t, trace[j]) ==
                      Some(Match(k, trace[i].ts, trace[j].now, trace[j].nrSector, trace[j].rwbs)))
    ensures (forall j: nat :: !IsNextTouch(devT, trace, i, j)) ==>
              var t, k := Bounded(cap, devT, trace), KeyOf(devT, trace[i]).value;
              if DroppedAt(cap, devT, trace, i) then k !in t else k in t && t[k] == trace[i].ts
  {
    forall j: nat | IsNextTouch(devT, trace, i, j)
      ensures var t, k := Bounded(cap, devT, trace[..j]), KeyOf(devT, trace[i]).value;
              if DroppedAt(cap, devT, trace, i) then k !in t else k in t && t[k] == trace[i].ts
    {
      EntrySurvives(cap, devT, trace, i, j);
    }
    if forall j: nat :: !IsNextTouch(devT, trace, i, j) {
      FirstTouch(devT, trace, i, |trace|);
      EntrySurvives(cap, devT, trace, i, |trace|);
      assert trace[..|trace|] == trace;
    }
  }

  lemma {:induction false} FirstTouch(devT: U32, trace: seq<Step>, i: nat, n: nat)
    requires i < n <= |trace| && KeyOf(devT, trace[i]).Some?
    requires forall j: nat :: !IsNextTouch(devT, trace, i, j)
    ensures forall m :: i < m < n ==> KeyOf(devT, trace[m]) != KeyOf(devT, trace[i])
  {
    if i + 1 < n {
      FirstTouch(devT, trace, i, n - 1);
      assert !IsNextTouch(devT, trace, i, n - 1);
    }
  }

  // ---- The kernel programs -----------------------------------------------

  class Correlator {
    const devT: U32
    var inflight: Table
    var latencyEvents: seq<LatencyEvent>  // the ring, oldest event first
    ghost var trace: seq<Step>
    ghost var drained: seq<LatencyEvent>

    // The table holds only outstanding requests with their issue times, and
    // the ring holds what was emitted and not yet drained, in order.
    ghost predicate Valid()
      reads this
    {
      && inflight == Bounded(CAPACITY, devT, trace)
      && drained + latencyEvents == Emitted(CAPACITY, devT, trace)
    }

    constructor (devT: U32)
      ensures Valid() && this.devT == devT && trace == [] && drained == []
    {
      this.devT := devT;
      inflight, latencyEvents, trace, drained := map[], [], [], [];
    }

    method BlockRqIssue(dev: Option<U32>, sector: Option<U64>, ts: U64)
      requires Valid()
      modifies this
      ensures Valid() && trace == old(trace) + [Issue(dev, sector, ts)]
      ensures drained == old(drained)
    {
      assert (trace + [Issue(dev, sector, ts)])[..|trace|] == trace;
      trace := trace + [Issue(dev, sector, ts)];
      if dev.None? || !(devT == 0 || dev.value == devT) {
        return;
      }
      if sector.None? {
        return;
      }
      var key := RqKey(dev.value, sector.value);
      if key in inflight || |inflight| < CAPACITY {
        inflight := inflight[key := ts];
      }
    }

    method BlockRqComplete(dev: Option<U32>, sector: Option<U64>, now: U64,
                           nrSector: Option<U32>, rwbs: Option<Rwbs>, ringRoom: bool)
      requires Valid()
      modifies this
      ensures Valid() && trace == old(trace) + [Complete(dev, sector, now, nrSector, rwbs, ringRoom)]
      ensures drained == old(drained)
    {
      ghost var s := Complete(dev, sector, now, nrSector, rwbs, ringRoom);
      assert (trace + [s])[..|trace|] == trace;
      trace := trace + [s];
      if dev.None? {
        return;
      }
      if devT != 0 && dev.value != devT {
        return;
      }
      if sector.None? {
        return;
      }
      var key := RqKey(dev.value, sector.value);
      if key !in inflight {
        return;
      }
      var issueTs := inflight[key];
      inflight := inflight - {key};
      var latencyNs := SatSub64(now, issueTs);
      var nr := if nrSector.Some? then nrSector.value else 0;
      var bytes := SatMul32(nr, SECTOR_SIZE_BYTES);
      var flags: Rwbs := if rwbs.Some? then rwbs.value else [0, 0, 0, 0, 0, 0, 0, 0];
      if ringRoom {
        latencyEvents := latencyEvents + [LatencyEvent(dev.value, ClassifyRwbs(flags), bytes, latencyNs)];
      }
    }

    // The consumer side of the ring.
    method Next() returns (e: Option<LatencyEvent>)
      requires Valid()
      modifies this
      ensures Valid() && trace == old(trace)
      ensures e.None? <==> old(latencyEvents) == []
      ensures e.None? ==> drained == old(drained) && latencyEvents == []
      ensures e.Some? ==> drained == old(drained) + [e.value] && [e.value] + latencyEvents == old(latencyEvents)
    {
      if latencyEvents == [] {
        return None;
      }
      e := Some(latencyEvents[0]);
      assert latencyEvents == [e.value] + latencyEvents[1..];
      assert drained + ([e.value] + latencyEvents[1..]) == drained + [e.value] + latencyEvents[1..];
      drained := drained + [e.value];
      latencyEvents := latencyEvents[1..];
    }
  }
}
