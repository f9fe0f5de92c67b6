// Where the values of an interleaved run come from: every key, payload, clock
// reading and ring outcome is one that a step of the same handler was given.
module Provenance {
  import opened Machine
  import opened BlockIo
  import opened Inflight
  import opened Interleaving

  // The steps of one handler, in order.
  function Trail(run: seq<Micro>, id: nat): seq<Action> {
    if run == [] then []
    else
      var m := run[|run| - 1];
      Trail(run[..|run| - 1], id) + if m.id == id then [m.act] else []
  }

  // The steps that bring a handler to where it is, with its local variables.
  ghost predicate Explains(trail: seq<Action>, h: Option<Handler>) {
    match h
    case None => trail == []
    case Some(IssueBegun(k)) => trail == [BeginIssue(k)]
    case Some(IssueStamped(k, ts)) => trail == [BeginIssue(k), StampIssue(ts)]
    case Some(IssueDone(k)) =>
      |trail| == 3 && trail[0] == BeginIssue(k) && trail[1].StampIssue? && trail[2] == InsertKey
    case Some(CompleteBegun(k, p)) => trail == [BeginComplete(k, p)]
    case Some(CompleteMissed(k)) =>
      |trail| == 2 && trail[0].BeginComplete? && trail[0].key == k && trail[1] == GetKey
    case Some(CompleteGot(k, p, _)) => trail == [BeginComplete(k, p), GetKey]
    case Some(CompleteRemoved(k, p, _)) => trail == [BeginComplete(k, p), GetKey, RemoveKey]
    case Some(CompleteStamped(k, p, _, now)) =>
      trail == [BeginComplete(k, p), GetKey, RemoveKey, StampComplete(now)]
    case Some(CompleteDone(k, p, _, now, room)) =>
      trail == [BeginComplete(k, p), GetKey, RemoveKey, StampComplete(now), Submit(room)]
  }

  lemma {:induction false} StepExplained(devT: U32, s: State, m: Micro, trail: seq<Action>, id: nat)
    requires Next(devT, s, m).Some? && Explains(trail, At(s, id))
    ensures Explains(trail + if m.id == id then [m.act] else [], At(Next(devT, s, m).value, id))
  {
    if m.id != id {
      assert trail + [] == trail;
    }
  }

  // A handler takes the steps of its tracepoint in order, each at most once,
  // and holds what those steps were given.
  lemma {:induction false} HandlerIsItsTrail(devT: U32, run: seq<Micro>, id: nat)
    requires Exec(devT, run).Some?
    ensures Explains(Trail(run, id), At(Exec(devT, run).value, id))
  {
    if run != [] {
      var before := run[..|run| - 1];
      HandlerIsItsTrail(devT, before, id);
      StepExplained(devT, Exec(devT, before).value, run[|run| - 1], Trail(before, id), id);
    }
  }

  // No handler ever waits: one that has not returned can take its next step in
  // every state, whatever the clock shows and whether or not the ring has room,
  // and a get misses exactly when the key is not in the table.
  lemma {:induction false} NeverBlocked(devT: U32, s: State, id: nat, time: U64, room: bool)
    requires id in s.handlers
    ensures s.handlers[id].Running() <==> exists act :: Next(devT, s, Micro(id, act)).Some?
    ensures s.handlers[id].Running() ==>
              exists act :: act in {StampIssue(time), InsertKey, GetKey, RemoveKey, StampComplete(time), Submit(room)}
                            && Next(devT, s, Micro(id, act)).Some?
    ensures var next := Next(devT, s, Micro(id, GetKey));
            next.Some? ==> (next.value.handlers[id].CompleteMissed? <==> s.handlers[id].key !in s.table)
  {
    var act :=
      match s.handlers[id]
      case IssueBegun(_) => StampIssue(time)
      case IssueStamped(_, _) => InsertKey
      case CompleteBegun(_, _) => GetKey
      case CompleteGot(_, _, _) => RemoveKey
      case CompleteRemoved(_, _, _) => StampComplete(time)
      case _ => Submit(room);
    assert s.handlers[id].Running() ==> Next(devT, s, Micro(id, act)).Some?;
  }

  // ---- Stored timestamps -------------------------------------------------

  // Handler id is an issue of k that read ts from the clock and has returned.
  ghost predicate Issued(run: seq<Micro>, id: nat, k: RqKey, ts: U64) {
    Trail(run, id) == [BeginIssue(k), StampIssue(ts), InsertKey]
  }

  ghost predicate Recorded(run: seq<Micro>, k: RqKey, ts: U64) {
    exists id: nat :: Issued(run, id, k, ts)
  }

  lemma {:induction false} RecordedStays(devT: U32, run: seq<Micro>, k: RqKey, ts: U64)
    requires run != [] && Exec(devT, run).Some? && Recorded(run[..|run| - 1], k, ts)
    ensures Recorded(run, k, ts)
  {
    var id: nat :| Issued(run[..|run| - 1], id, k, ts);
    HandlerIsItsTrail(devT, run[..|run| - 1], id);
    assert Issued(run, id, k, ts);
  }

  ghost predicate HandlerRecorded(run: seq<Micro>, s: State, id: nat) {
    id in s.handlers ==>
      var h := s.handlers[id];
      h.CompleteGot? || h.CompleteRemoved? || h.CompleteStamped? || h.CompleteDone? ==> Recorded(run, h.key, h.ts)
  }

  // Every timestamp in the table, and every one that a completion has read, is
  // the clock reading of an issue for that key.
  lemma {:induction false} StampsAreReadings(devT: U32, run: seq<Micro>)
    requires Exec(devT, run).Some?
    ensures forall k :: k in Exec(devT, run).value.table ==> Recorded(run, k, Exec(devT, run).value.table[k])
    ensures forall id :: HandlerRecorded(run, Exec(devT, run).value, id)
  {
    if run != [] {
      var before, m := run[..|run| - 1], run[|run| - 1];
      var s, s' := Exec(devT, before).value, Exec(devT, run).value;
      StampsAreReadings(devT, before);
      forall k | k in s'.table
        ensures Recorded(run, k, s'.table[k])
      {
        TableRecorded(devT, run, k);
      }
      forall id
        ensures HandlerRecorded(run, s', id)
      {
        assert HandlerRecorded(before, s, id);
        assert HandlerRecorded(before, s, m.id);
        HandlerStaysRecorded(devT, run, id);
      }
    }
  }

  lemma {:induction false} TableRecorded(devT: U32, run: seq<Micro>, k: RqKey)
    requires run != [] && Exec(devT, run).Some? && k in Exec(devT, run).value.table
    requires var s := Exec(devT, run[..|run| - 1]).value; k in s.table ==> Recorded(run[..|run| - 1], k, s.table[k])
    ensures Recorded(run, k, Exec(devT, run).value.table[k])
  {
    var before, m := run[..|run| - 1], run[|run| - 1];
    var s, s' := Exec(devT, before).value, Exec(devT, run).value;
    if k in s.table && s'.table[k] == s.table[k] {
      RecordedStays(devT, run, k, s.table[k]);
    } else {
      HandlerIsItsTrail(devT, before, m.id);
      assert Issued(run, m.id, k, s'.table[k]);
    }
  }

  lemma {:induction false} HandlerStaysRecorded(devT: U32, run: seq<Micro>, id: nat)
    requires run != [] && Exec(devT, run).Some?
    requires var before := run[..|run| - 1]; var s := Exec(devT, before).value;
             && HandlerRecorded(before, s, id)
             && forall k :: k in s.table ==> Recorded(before, k, s.table[k])
    ensures HandlerRecorded(run, Exec(devT, run).value, id)
  {
    var s' := Exec(devT, run).value;
    if id in s'.handlers {
      var h := s'.handlers[id];
      if h.CompleteGot? || h.CompleteRemoved? || h.CompleteStamped? || h.CompleteDone? {
        RecordedStays(devT, run, h.key, h.ts);
      }
    }
  }

  // ---- The linearization -------------------------------------------------

  // A whole handler carries what the steps of the interleaved one were given.
  // A completion that has not come that far has no reading and no event yet.
  ghost predicate OpExplained(op: Op, trail: seq<Action>) {
    match op.step
    case Issue(Some(dev), Some(sector), ts) =>
      trail == [BeginIssue(RqKey(dev, sector)), StampIssue(ts), InsertKey]
    case Complete(Some(dev), Some(sector), now, nrSector, rwbs, room) =>
      && 2 <= |trail|
      && trail[0] == BeginComplete(RqKey(dev, sector), Payload(nrSector, rwbs)) && trail[1] == GetKey
      && (if 4 <= |trail| then trail[3] == StampComplete(now) else now == 0)
      && (if 5 <= |trail| then trail[4] == Submit(room) else !room)
    case _ => false
  }

  lemma {:induction false} TrailPrefix(run: seq<Micro>, i: nat, id: nat)
    requires i <= |run|
    ensures Trail(run[..i], id) <= Trail(run, id)
  {
    if i < |run| {
      TrailPrefix(run[..|run| - 1], i, id);
      assert run[..|run| - 1][..i] == run[..i];
    } else {
      assert run[..i] == run;
    }
  }

  lemma {:induction false} StepReturned(devT: U32, s: State, m: Micro, id: nat)
    requires Next(devT, s, m).Some? && At(s, id).Some? && !At(s, id).value.Running()
    ensures At(Next(devT, s, m).value, id) == At(s, id)
  {
  }

  // A handler that has returned stays as it is.
  lemma {:induction false} ReturnedStays(devT: U32, run: seq<Micro>, i: nat, id: nat)
    requires i <= |run| && Exec(devT, run).Some? && Exec(devT, run[..i]).Some?
    requires var h := At(Exec(devT, run[..i]).value, id); h.Some? && !h.value.Running()
    ensures At(Exec(devT, run).value, id) == At(Exec(devT, run[..i]).value, id)
  {
    if i < |run| {
      var before := run[..|run| - 1];
      assert before[..i] == run[..i];
      ReturnedStays(devT, before, i, id);
      StepReturned(devT, Exec(devT, before).value, run[|run| - 1], id);
    } else {
      assert run[..i] == run;
    }
  }

  lemma {:induction false} EffectExplained(devT: U32, end: State, s: State, m: Micro, trail: seq<Action>,
                                           full: seq<Action>)
    requires Next(devT, s, m).Some? && |Effect(end, s, m)| == 1
    requires Explains(trail, At(s, m.id)) && Explains(full, At(end, m.id)) && trail + [m.act] <= full
    requires var h := At(Next(devT, s, m).value, m.id); !h.value.Running() ==> At(end, m.id) == h
    ensures OpExplained(Effect(end, s, m)[0], full)
  {
    assert full[|trail|] == m.act;
    assert forall j :: 0 <= j < |trail| ==> full[j] == trail[j];
  }

  lemma {:induction false} OpsAreTrails(devT: U32, run: seq<Micro>, i: nat)
    requires i <= |run| && Exec(devT, run).Some? && Exec(devT, run[..i]).Some?
    ensures forall op :: op in Linearized(devT, Exec(devT, run).value, run[..i]) ==> OpExplained(op, Trail(run, op.id))
  {
    if 0 < i {
      var end, early, m := Exec(devT, run).value, run[..i - 1], run[i - 1];
      assert run[..i][..i - 1] == early;
      OpsAreTrails(devT, run, i - 1);
      var s := Exec(devT, early).value;
      var e := Effect(end, s, m);
      if |e| == 1 {
        HandlerIsItsTrail(devT, early, m.id);
        HandlerIsItsTrail(devT, run, m.id);
        TrailPrefix(run, i, m.id);
        if !At(Exec(devT, run[..i]).value, m.id).value.Running() { ReturnedStays(devT, run, i, m.id); }
        EffectExplained(devT, end, s, m, Trail(early, m.id), Trail(run, m.id));
      }
    }
  }

  // ---- Latencies ---------------------------------------------------------

  // The latency of a completion that has run to its end is what its own clock
  // step read minus what an issue of the same key read. When no completion reads
  // an earlier time than was read before, nothing is clamped, whatever overlaps.
  lemma {:induction false} LatencyIsExact(devT: U32, run: seq<Micro>, id: nat, k: RqKey, p: Payload, now: U64,
                                          room: bool)
    requires Exec(devT, run).Some? && Always(devT, run, ClockForward)
    requires Trail(run, id) == [BeginComplete(k, p), GetKey, RemoveKey, StampComplete(now), Submit(room)]
    ensures At(Exec(devT, run).value, id).Some? && Exec(devT, run).value.handlers[id].CompleteDone?
    ensures var h := Exec(devT, run).value.handlers[id];
            && Recorded(run, k, h.ts) && h.ts <= now
            && h.MatchAt(h.now) == Match(k, h.ts, now, p.nrSector, p.rwbs)
            && EventOf(h.MatchAt(h.now)).latencyNs == now - h.ts
  {
    HandlerIsItsTrail(devT, run, id);
    StampsAreReadings(devT, run);
    RunInTime(devT, run);
    assert HandlerRecorded(run, Exec(devT, run).value, id);
    assert HandlerInTime(Exec(devT, run).value, id);
  }
}
