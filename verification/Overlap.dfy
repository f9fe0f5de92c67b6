// Conditions under which overlapping block_rq handlers are harmless, and a
// run in which they are not.
module Overlap {
  import opened Machine
  import opened BlockIo
  import opened Inflight
  import opened Interleaving
  import opened Atomicity

  // No handler begins for a key while another handler for that key is running.
  ghost predicate NoOverlap(s: State, m: Micro) {
    m.act.BeginIssue? || m.act.BeginComplete? ==>
      forall o :: o in s.handlers && s.handlers[o].Running() ==> s.handlers[o].key != m.act.key
  }

  // No handler writes a key between another handler's get and remove of it.
  ghost predicate NoWriteBetweenGetAndRemove(s: State, m: Micro) {
    (m.act.InsertKey? || m.act.RemoveKey?) && m.id in s.handlers ==>
      forall o :: o in s.handlers && o != m.id && s.handlers[o].CompleteGot? ==>
        s.handlers[o].key != s.handlers[m.id].key
  }

  // A handler between its get and its remove still finds its entry.
  ghost predicate EntryKept(s: State, id: nat) {
    id in s.handlers && s.handlers[id].CompleteGot? ==>
      s.handlers[id].key in s.table && s.table[s.handlers[id].key] == s.handlers[id].ts
  }

  // Then every completion removes the entry it has read.
  lemma {:induction false} NoWriteIsEnough(devT: U32, run: seq<Micro>)
    requires Exec(devT, run).Some? && Always(devT, run, NoWriteBetweenGetAndRemove)
    ensures Always(devT, run, RemovesWhatItRead)
    ensures forall id :: EntryKept(Exec(devT, run).value, id)
  {
    if run != [] {
      var before, m := run[..|run| - 1], run[|run| - 1];
      var s := Exec(devT, before).value;
      NoWriteIsEnough(devT, before);
      assert EntryKept(s, m.id);
      forall id
        ensures EntryKept(Exec(devT, run).value, id)
      {
        assert EntryKept(s, id);
      }
    }
  }

  ghost predicate KeysApart(s: State, a: nat, b: nat) {
    a in s.handlers && b in s.handlers && a != b && s.handlers[a].Running() && s.handlers[b].Running() ==>
      s.handlers[a].key != s.handlers[b].key
  }

  // Handlers that never overlap on a key meet that condition.
  lemma {:induction false} NoOverlapIsEnough(devT: U32, run: seq<Micro>)
    requires Exec(devT, run).Some? && Always(devT, run, NoOverlap)
    ensures forall a, b :: KeysApart(Exec(devT, run).value, a, b)
    ensures Always(devT, run, NoWriteBetweenGetAndRemove)
  {
    if run != [] {
      var before, m := run[..|run| - 1], run[|run| - 1];
      var s := Exec(devT, before).value;
      NoOverlapIsEnough(devT, before);
      forall a, b
        ensures KeysApart(Exec(devT, run).value, a, b)
      {
        assert KeysApart(s, a, b);
        StepKeepsKeysApart(devT, s, m, a, b);
      }
      forall o | o in s.handlers && m.id in s.handlers
        ensures KeysApart(s, o, m.id)
      {
      }
    }
  }

  lemma {:induction false} StepKeepsKeysApart(devT: U32, s: State, m: Micro, a: nat, b: nat)
    requires Next(devT, s, m).Some? && NoOverlap(s, m) && KeysApart(s, a, b)
    ensures KeysApart(Next(devT, s, m).value, a, b)
  {
  }

  // In particular, when handlers for the same key never overlap, every run has
  // the table, the submitted matches and the ring events of a run of whole
  // handlers, and the issues balance.
  lemma {:induction false} NonOverlappingRunIsAtomic(devT: U32, run: seq<Micro>)
    requires Exec(devT, run).Some? && Always(devT, run, NoOverlap)
    ensures var end := Exec(devT, run).value;
            var ops := Linearized(devT, end, run);
            && end.table == Bounded(CAPACITY, devT, Steps(ops))
            && Matches(end, true) == AtomicMatches(devT, ops, true)
            && multiset(end.ring) == multiset(Emitted(CAPACITY, devT, Steps(ops)))
            && Gone(devT, run) == 0
  {
    NoOverlapIsEnough(devT, run);
    NoWriteIsEnough(devT, run);
    InterleavedRunIsAtomicIff(devT, run);
    OwnEach(devT, run);
    OwnFinds(devT, run);
    NothingGoneIff(devT, run);
  }

  lemma {:induction false} OwnFinds(devT: U32, run: seq<Micro>)
    requires Always(devT, run, RemovesWhatItRead)
    ensures Always(devT, run, FindsAnEntry)
  {
    if run != [] {
      OwnFinds(devT, run[..|run| - 1]);
    }
  }

  // ---- A run that counts double ------------------------------------------

  lemma {:induction false} ExecAppend(devT: U32, run: seq<Micro>, m: Micro)
    requires Exec(devT, run).Some?
    ensures Exec(devT, run + [m]) == Next(devT, Exec(devT, run).value, m)
  {
    assert (run + [m])[..|run|] == run;
  }

  // An issue of k, and two completions of k that both get before either removes.
  function TwoGets(k: RqKey, p: Payload): seq<Micro> {
    [Micro(0, BeginIssue(k))] + [Micro(0, StampIssue(1))] + [Micro(0, InsertKey)]
    + [Micro(1, BeginComplete(k, p))] + [Micro(1, GetKey)] + [Micro(2, BeginComplete(k, p))] + [Micro(2, GetKey)]
  }

  lemma {:induction false} TwoGetsReached(devT: U32, k: RqKey, p: Payload)
    requires PassesFilter(devT, k.dev)
    ensures var h := CompleteGot(k, p, 1);
            Exec(devT, TwoGets(k, p)) == Some(State(map[k := 1], [], map[0 := IssueDone(k), 1 := h, 2 := h], 1))
  {
    var r1 := [Micro(0, BeginIssue(k))];
    ExecAppend(devT, [], Micro(0, BeginIssue(k)));
    assert [] + r1 == r1;
    var r2 := r1 + [Micro(0, StampIssue(1))];
    ExecAppend(devT, r1, Micro(0, StampIssue(1)));
    var r3 := r2 + [Micro(0, InsertKey)];
    ExecAppend(devT, r2, Micro(0, InsertKey));
    var s := Exec(devT, r3).value;
    assert s.table == map[k := 1] && s.handlers == map[0 := IssueDone(k)];
    GetFrom(devT, r3, 1, k, p);
    GetFrom(devT, r3 + [Micro(1, BeginComplete(k, p))] + [Micro(1, GetKey)], 2, k, p);
  }

  lemma {:induction false} GetFrom(devT: U32, run: seq<Micro>, id: nat, k: RqKey, p: Payload)
    requires Exec(devT, run).Some?
    requires PassesFilter(devT, k.dev)
    requires var s := Exec(devT, run).value; k in s.table && id !in s.handlers
    ensures var s := Exec(devT, run).value;
            Exec(devT, run + [Micro(id, BeginComplete(k, p))] + [Micro(id, GetKey)]) ==
            Some(s.(handlers := s.handlers[id := CompleteGot(k, p, s.table[k])]))
  {
    ExecAppend(devT, run, Micro(id, BeginComplete(k, p)));
    ExecAppend(devT, run + [Micro(id, BeginComplete(k, p))], Micro(id, GetKey));
    var s, begun, got := Exec(devT, run).value, CompleteBegun(k, p), CompleteGot(k, p, Exec(devT, run).value.table[k]);
    assert s.handlers[id := begun][id := got] == s.handlers[id := got];
  }

  // From its get on, a handler can always run to the end and submit.
  function Finish(run: seq<Micro>, id: nat, now: U64): seq<Micro> {
    run + [Micro(id, RemoveKey)] + [Micro(id, StampComplete(now))] + [Micro(id, Submit(true))]
  }

  lemma {:induction false} FinishSubmits(devT: U32, run: seq<Micro>, id: nat, now: U64)
    requires Exec(devT, run).Some?
    requires var s := Exec(devT, run).value; id in s.handlers && s.handlers[id].CompleteGot?
    ensures Exec(devT, Finish(run, id, now)).Some?
    ensures var s, s' := Exec(devT, run).value, Exec(devT, Finish(run, id, now)).value;
            var h := s.handlers[id];
            && |s'.ring| == |s.ring| + 1
            && s'.handlers == s.handlers[id := CompleteDone(h.key, h.payload, h.ts, now, true)]
  {
    var r1 := run + [Micro(id, RemoveKey)];
    RemoveStep(devT, run, id);
    StampStep(devT, r1, id, now);
    SubmitStep(devT, r1 + [Micro(id, StampComplete(now))], id);
  }

  lemma {:induction false} RemoveStep(devT: U32, run: seq<Micro>, id: nat)
    requires Exec(devT, run).Some?
    requires var s := Exec(devT, run).value; id in s.handlers && s.handlers[id].CompleteGot?
    ensures var s, r := Exec(devT, run).value, Exec(devT, run + [Micro(id, RemoveKey)]);
            var h := s.handlers[id];
            && r.Some? && r.value.ring == s.ring
            && r.value.handlers == s.handlers[id := CompleteRemoved(h.key, h.payload, h.ts)]
  {
    ExecAppend(devT, run, Micro(id, RemoveKey));
  }

  lemma {:induction false} StampStep(devT: U32, run: seq<Micro>, id: nat, now: U64)
    requires Exec(devT, run).Some?
    requires var s := Exec(devT, run).value; id in s.handlers && s.handlers[id].CompleteRemoved?
    ensures var s, r := Exec(devT, run).value, Exec(devT, run + [Micro(id, StampComplete(now))]);
            var h := s.handlers[id];
            && r.Some? && r.value.ring == s.ring
            && r.value.handlers == s.handlers[id := CompleteStamped(h.key, h.payload, h.ts, now)]
  {
    ExecAppend(devT, run, Micro(id, StampComplete(now)));
  }

  lemma {:induction false} SubmitStep(devT: U32, run: seq<Micro>, id: nat)
    requires Exec(devT, run).Some?
    requires var s := Exec(devT, run).value; id in s.handlers && s.handlers[id].CompleteStamped?
    ensures var s, r := Exec(devT, run).value, Exec(devT, run + [Micro(id, Submit(true))]);
            var h := s.handlers[id];
            && r.Some? && |r.value.ring| == |s.ring| + 1
            && r.value.handlers == s.handlers[id := CompleteDone(h.key, h.payload, h.ts, h.now, true)]
  {
    ExecAppend(devT, run, Micro(id, Submit(true)));
  }

  function Doubled(k: RqKey, p: Payload): seq<Micro> {
    Finish(Finish(TwoGets(k, p), 1, 5), 2, 6)
  }

  lemma {:induction false} DoubledRuns(devT: U32, k: RqKey, p: Payload)
    requires PassesFilter(devT, k.dev)
    ensures Exec(devT, Doubled(k, p)).Some? && |Exec(devT, Doubled(k, p)).value.ring| == 2
    ensures Those(Exec(devT, Doubled(k, p)).value.handlers, ISSUED) == {0}
  {
    TwoGetsReached(devT, k, p);
    FinishSubmits(devT, TwoGets(k, p), 1, 5);
    FinishSubmits(devT, Finish(TwoGets(k, p), 1, 5), 2, 6);
  }

  // Two completions of a key that overlap between get and remove put two
  // events into the ring for the one issue the run accepts; the linearization
  // emits at most one. The second remove finds the entry gone.
  lemma {:induction false} OverlapDoubleCounts(devT: U32, k: RqKey, p: Payload)
    requires PassesFilter(devT, k.dev)
    ensures var run := Doubled(k, p);
            && Exec(devT, run).Some?
            && var end := Exec(devT, run).value;
               var steps := Steps(Linearized(devT, end, run));
               && |end.ring| == 2
               && Account(CAPACITY, devT, steps).accepted == 1
               && |Emitted(CAPACITY, devT, steps)| <= 1
               && 0 < Gone(devT, run)
  {
    DoubledRuns(devT, k, p);
    InterleavedIssuesConserved(devT, Doubled(k, p));
    var end := Exec(devT, Doubled(k, p)).value;
    IssuesConserved(CAPACITY, devT, Steps(Linearized(devT, end, Doubled(k, p))));
  }
}
