// When interleaved handlers act like whole handlers, run one at a time in the
// order in which they take effect.
module Atomicity {
  import opened Machine
  import opened BlockIo
  import opened Inflight
  import opened Interleaving
  import Provenance

  // ---- What the two runs match -------------------------------------------

  predicate PastRemove(h: Handler) {
    h.CompleteRemoved? || h.CompleteStamped? || h.CompleteDone?
  }

  // Which matches are compared: all that are made at a remove, or only those
  // whose event is in the ring by the end.
  predicate Counts(end: State, id: nat, sent: bool) {
    !sent || RoomOf(end, id)
  }

  // The matches of the interleaved completions, by handler.
  function Matches(end: State, sent: bool): map<nat, Match> {
    map id | id in end.handlers && PastRemove(end.handlers[id]) && Counts(end, id, sent)
      :: end.handlers[id].MatchAt(NowOf(end, id))
  }

  function AddMatch(devT: U32, t: Table, op: Op, matched: map<nat, Match>, sent: bool): map<nat, Match> {
    var hit := Hit(devT, t, op.step);
    if hit.Some? && (!sent || op.step.ringRoom) then matched[op.id := hit.value] else matched
  }

  // The matches of the whole completions, by handler.
  function AtomicMatches(devT: U32, ops: seq<Op>, sent: bool): map<nat, Match> {
    if ops == [] then map[]
    else
      var before := ops[..|ops| - 1];
      AddMatch(devT, Bounded(CAPACITY, devT, Steps(before)), ops[|ops| - 1], AtomicMatches(devT, before, sent), sent)
  }

  lemma {:induction false} AppendOp(devT: U32, ops: seq<Op>, op: Op)
    ensures Steps(ops + [op]) == Steps(ops) + [op.step]
    ensures Bounded(CAPACITY, devT, Steps(ops + [op])) ==
            Apply(CAPACITY, devT, Bounded(CAPACITY, devT, Steps(ops)), op.step)
    ensures Account(CAPACITY, devT, Steps(ops + [op])) ==
            Book(CAPACITY, devT, Account(CAPACITY, devT, Steps(ops)), Bounded(CAPACITY, devT, Steps(ops)), op.step)
  {
    assert Steps(ops + [op])[..|ops|] == Steps(ops);
  }

  lemma {:induction false} AppendMatch(devT: U32, ops: seq<Op>, op: Op, sent: bool)
    ensures AtomicMatches(devT, ops + [op], sent) ==
            AddMatch(devT, Bounded(CAPACITY, devT, Steps(ops)), op, AtomicMatches(devT, ops, sent), sent)
  {
    assert (ops + [op])[..|ops|] == ops;
  }

  // ---- The table ---------------------------------------------------------

  ghost predicate HandlerPasses(devT: U32, s: State, id: nat) {
    id in s.handlers ==> PassesFilter(devT, s.handlers[id].key.dev)
  }

  function TableAfter(devT: U32, t: Table, e: seq<Op>): Table {
    if |e| == 1 then Apply(CAPACITY, devT, t, e[0].step) else t
  }

  lemma {:induction false} StepTable(devT: U32, end: State, s: State, m: Micro)
    requires Next(devT, s, m).Some? && HandlerPasses(devT, s, m.id)
    ensures Next(devT, s, m).value.table == TableAfter(devT, s.table, Effect(end, s, m))
  {
  }

  lemma {:induction false} AppendTable(devT: U32, ops: seq<Op>, e: seq<Op>)
    requires |e| <= 1
    ensures Bounded(CAPACITY, devT, Steps(ops + e)) == TableAfter(devT, Bounded(CAPACITY, devT, Steps(ops)), e)
  {
    if |e| == 1 {
      AppendOp(devT, ops, e[0]);
      assert ops + e == ops + [e[0]];
    } else {
      assert ops + e == ops;
    }
  }

  lemma {:induction false} HandlersPass(devT: U32, run: seq<Micro>)
    requires Exec(devT, run).Some?
    ensures forall id :: HandlerPasses(devT, Exec(devT, run).value, id)
  {
    if run != [] {
      var before := run[..|run| - 1];
      HandlersPass(devT, before);
      forall id
        ensures HandlerPasses(devT, Exec(devT, run).value, id)
      {
        assert HandlerPasses(devT, Exec(devT, before).value, id);
      }
    }
  }

  // Whatever overlaps, the table is that of the same handlers run one at a time.
  lemma {:induction false} TableIsAtomic(devT: U32, end: State, run: seq<Micro>)
    requires Exec(devT, run).Some?
    ensures Exec(devT, run).value.table == Bounded(CAPACITY, devT, Steps(Linearized(devT, end, run)))
  {
    if run != [] {
      var before, m := run[..|run| - 1], run[|run| - 1];
      var s := Exec(devT, before).value;
      TableIsAtomic(devT, end, before);
      HandlersPass(devT, before);
      assert HandlerPasses(devT, s, m.id);
      StepTable(devT, end, s, m);
      AppendTable(devT, Linearized(devT, end, before), Effect(end, s, m));
    }
  }

  // So no stored timestamp is stale in an interleaved run either: it is that of
  // the last issue to take effect, and that issue's own clock reading.
  lemma {:induction false} InterleavedNoStale(devT: U32, run: seq<Micro>, k: RqKey)
    requires Exec(devT, run).Some? && k in Exec(devT, run).value.table
    ensures var end := Exec(devT, run).value;
            var steps := Steps(Linearized(devT, end, run));
            && PassesFilter(devT, k.dev)
            && Outstanding(devT, steps, k)
            && end.table[k] == IssuedAt(devT, steps, k)
            && Provenance.Recorded(run, k, end.table[k])
  {
    Provenance.StampsAreReadings(devT, run);
    var end := Exec(devT, run).value;
    TableIsAtomic(devT, end, run);
    NoStaleTimestamps(CAPACITY, devT, Steps(Linearized(devT, end, run)), k);
  }

  // ---- The matches -------------------------------------------------------

  // A completion that removes its key removes the entry it has read.
  ghost predicate RemovesWhatItRead(s: State, m: Micro) {
    m.act.RemoveKey? && m.id in s.handlers && s.handlers[m.id].CompleteGot? ==>
      var h := s.handlers[m.id];
      h.key in s.table && s.table[h.key] == h.ts
  }

  // The same, for one handler only.
  ghost function Own(id: nat): (State, Micro) -> bool {
    (s: State, m: Micro) => m.id == id ==> RemovesWhatItRead(s, m)
  }

  lemma {:induction false} OwnEach(devT: U32, run: seq<Micro>)
    ensures Always(devT, run, RemovesWhatItRead) <==> forall id :: Always(devT, run, Own(id))
  {
    if run != [] {
      OwnEach(devT, run[..|run| - 1]);
      assert Always(devT, run, RemovesWhatItRead) ==> forall id :: Always(devT, run, Own(id));
      if forall id :: Always(devT, run, Own(id)) {
        forall id
          ensures Always(devT, run[..|run| - 1], Own(id))
        {
          assert Always(devT, run, Own(id));
        }
        assert Always(devT, run, Own(run[|run| - 1].id));
      }
    }
  }

  // A handler past its remove has its match in the atomic run exactly when it
  // has removed its own entry; one that is not there yet has none.
  ghost predicate HandlerJoined(end: State, s: State, matched: map<nat, Match>, sent: bool, own: bool, id: nat) {
    if id in s.handlers && PastRemove(s.handlers[id]) then
      if Counts(end, id, sent)
      then own <==> id in matched && matched[id] == s.handlers[id].MatchAt(NowOf(end, id))
      else id !in matched
    else own && id !in matched
  }

  function MatchesAfter(devT: U32, t: Table, e: seq<Op>, matched: map<nat, Match>, sent: bool): map<nat, Match> {
    if |e| == 1 then AddMatch(devT, t, e[0], matched, sent) else matched
  }

  lemma {:induction false} HandlerStaysJoined(devT: U32, end: State, s: State, m: Micro, matched: map<nat, Match>,
                                              sent: bool, own: bool, id: nat)
    requires Next(devT, s, m).Some? && HandlerPasses(devT, s, m.id)
    requires HandlerJoined(end, s, matched, sent, own, id)
    ensures HandlerJoined(end, Next(devT, s, m).value,
                          MatchesAfter(devT, s.table, Effect(end, s, m), matched, sent), sent,
                          own && Own(id)(s, m), id)
  {
  }

  lemma {:induction false} RunJoined(devT: U32, end: State, run: seq<Micro>, sent: bool, id: nat)
    requires Exec(devT, run).Some?
    ensures HandlerJoined(end, Exec(devT, run).value, AtomicMatches(devT, Linearized(devT, end, run), sent), sent,
                          Always(devT, run, Own(id)), id)
  {
    if run != [] {
      var before, m := run[..|run| - 1], run[|run| - 1];
      var s, ops := Exec(devT, before).value, Linearized(devT, end, before);
      RunJoined(devT, end, before, sent, id);
      TableIsAtomic(devT, end, before);
      HandlersPass(devT, before);
      assert HandlerPasses(devT, s, m.id);
      HandlerStaysJoined(devT, end, s, m, AtomicMatches(devT, ops, sent), sent, Always(devT, before, Own(id)), id);
      var e := Effect(end, s, m);
      if |e| == 1 {
        assert ops + e == ops + [e[0]];
        AppendMatch(devT, ops, e[0], sent);
      } else {
        assert ops + e == ops;
      }
    }
  }

  // Every completion that counts removes, in this run, the entry it has read.
  ghost predicate OwnRemoves(devT: U32, end: State, run: seq<Micro>, sent: bool) {
    forall id :: Counts(end, id, sent) ==> Always(devT, run, Own(id))
  }

  lemma {:induction false} MatchesIff(devT: U32, run: seq<Micro>, sent: bool)
    requires Exec(devT, run).Some?
    ensures var end := Exec(devT, run).value;
            Matches(end, sent) == AtomicMatches(devT, Linearized(devT, end, run), sent) <==>
            OwnRemoves(devT, end, run, sent)
  {
    var end := Exec(devT, run).value;
    var matched := AtomicMatches(devT, Linearized(devT, end, run), sent);
    forall id
      ensures HandlerJoined(end, end, matched, sent, Always(devT, run, Own(id)), id)
    {
      RunJoined(devT, end, run, sent, id);
    }
    if Matches(end, sent) == matched {
      forall id | Counts(end, id, sent)
        ensures Always(devT, run, Own(id))
      {
        assert HandlerJoined(end, end, matched, sent, Always(devT, run, Own(id)), id);
        assert id in Matches(end, sent) <==> id in end.handlers && PastRemove(end.handlers[id]);
      }
    }
    if OwnRemoves(devT, end, run, sent) {
      forall id
        ensures id in Matches(end, sent) <==> id in matched
        ensures id in matched ==> Matches(end, sent)[id] == matched[id]
      {
        assert HandlerJoined(end, end, matched, sent, Always(devT, run, Own(id)), id);
      }
    }
  }

  // ---- The ring ----------------------------------------------------------

  ghost function Pick(matched: map<nat, Match>): (id: nat)
    requires matched != map[]
    ensures id in matched
  {
    var id :| id in matched;
    id
  }

  // The events of a set of matches, with multiplicity.
  ghost function EventsOf(matched: map<nat, Match>): multiset<LatencyEvent>
    decreases |matched|
  {
    if matched == map[] then multiset{}
    else
      var id := Pick(matched);
      assert (matched - {id}).Keys == matched.Keys - {id};
      EventsOf(matched - {id}) + multiset{EventOf(matched[id])}
  }

  lemma {:induction false} EventsOfAdd(matched: map<nat, Match>, id: nat, hit: Match)
    requires id !in matched
    ensures EventsOf(matched[id := hit]) == EventsOf(matched) + multiset{EventOf(hit)}
    decreases |matched|
  {
    var all := matched[id := hit];
    assert id in all;
    var j := Pick(all);
    if j == id {
      assert all - {id} == matched;
    } else {
      var fewer := matched - {j};
      assert fewer.Keys == matched.Keys - {j};
      assert all - {j} == fewer[id := hit] && fewer[j := matched[j]] == matched;
      EventsOfAdd(fewer, id, hit);
      EventsOfAdd(fewer, j, matched[j]);
    }
  }

  lemma {:induction false} SentStep(devT: U32, s: State, m: Micro)
    requires Next(devT, s, m).Some?
    ensures Matches(Next(devT, s, m).value, true) ==
            if m.act.Submit? && m.act.room
            then Matches(s, true)[m.id := s.handlers[m.id].MatchAt(s.handlers[m.id].now)] else Matches(s, true)
    ensures m.act.Submit? ==> m.id !in Matches(s, true)
  {
    var s' := Next(devT, s, m).value;
    assert s'.handlers == s.handlers[m.id := Advance(devT, s.table, At(s, m.id), m.act).value];
  }

  lemma {:induction false} RingIsSent(devT: U32, run: seq<Micro>)
    requires Exec(devT, run).Some?
    ensures multiset(Exec(devT, run).value.ring) == EventsOf(Matches(Exec(devT, run).value, true))
  {
    if run != [] {
      var before, m := run[..|run| - 1], run[|run| - 1];
      var s := Exec(devT, before).value;
      RingIsSent(devT, before);
      SentStep(devT, s, m);
      if m.act.Submit? && m.act.room {
        EventsOfAdd(Matches(s, true), m.id, s.handlers[m.id].MatchAt(s.handlers[m.id].now));
      }
    } else {
      assert Matches(INIT, true) == map[];
    }
  }

  ghost predicate RingAtomic(devT: U32, ops: seq<Op>) {
    multiset(Emitted(CAPACITY, devT, Steps(ops))) == EventsOf(AtomicMatches(devT, ops, true))
  }

  lemma {:induction false} AppendEmitted(devT: U32, ops: seq<Op>, op: Op)
    requires op.id !in AtomicMatches(devT, ops, true)
    requires RingAtomic(devT, ops)
    ensures RingAtomic(devT, ops + [op])
  {
    AppendOp(devT, ops, op);
    AppendMatch(devT, ops, op, true);
    assert (Steps(ops) + [op.step])[..|ops|] == Steps(ops);
    var hit := Hit(devT, Bounded(CAPACITY, devT, Steps(ops)), op.step);
    if hit.Some? && op.step.ringRoom {
      EventsOfAdd(AtomicMatches(devT, ops, true), op.id, hit.value);
    }
  }

  lemma {:induction false} AppendRing(devT: U32, ops: seq<Op>, e: seq<Op>)
    requires |e| <= 1 && RingAtomic(devT, ops)
    requires |e| == 1 ==> e[0].id !in AtomicMatches(devT, ops, true)
    ensures RingAtomic(devT, ops + e)
  {
    if |e| == 1 {
      assert ops + e == ops + [e[0]];
      AppendEmitted(devT, ops, e[0]);
    } else {
      assert ops + e == ops;
    }
  }

  lemma {:induction false} EffectIsFresh(end: State, s: State, m: Micro, matched: map<nat, Match>, own: bool)
    requires HandlerJoined(end, s, matched, true, own, m.id)
    ensures var e := Effect(end, s, m); |e| <= 1 && (|e| == 1 ==> e[0].id !in matched)
  {
  }

  lemma {:induction false} EmittedIsSent(devT: U32, end: State, run: seq<Micro>)
    requires Exec(devT, run).Some?
    ensures RingAtomic(devT, Linearized(devT, end, run))
  {
    if run != [] {
      var before, m := run[..|run| - 1], run[|run| - 1];
      EmittedIsSent(devT, end, before);
      RunJoined(devT, end, before, true, m.id);
      var s, ops := Exec(devT, before).value, Linearized(devT, end, before);
      EffectIsFresh(end, s, m, AtomicMatches(devT, ops, true), Always(devT, before, Own(m.id)));
      AppendRing(devT, ops, Effect(end, s, m));
    }
  }

  // ---- The theorem -------------------------------------------------------

  // Any interleaved run against the same handlers run one at a time, each
  // placed where it takes effect. The tables are always equal. The matches are
  // equal exactly when every completion removes the entry it has read; those
  // submitted are equal exactly when every submitted completion does, and then
  // the ring holds the same events.
  lemma {:induction false} InterleavedRunIsAtomicIff(devT: U32, run: seq<Micro>)
    requires Exec(devT, run).Some?
    ensures var end := Exec(devT, run).value;
            var ops := Linearized(devT, end, run);
            && end.table == Bounded(CAPACITY, devT, Steps(ops))
            && (Matches(end, false) == AtomicMatches(devT, ops, false) <==> Always(devT, run, RemovesWhatItRead))
            && (Matches(end, true) == AtomicMatches(devT, ops, true) <==> OwnRemoves(devT, end, run, true))
            && (OwnRemoves(devT, end, run, true) ==>
                  multiset(end.ring) == multiset(Emitted(CAPACITY, devT, Steps(ops))))
  {
    var end := Exec(devT, run).value;
    TableIsAtomic(devT, end, run);
    MatchesIff(devT, run, false);
    OwnEach(devT, run);
    MatchesIff(devT, run, true);
    RingIsSent(devT, run);
    EmittedIsSent(devT, end, run);
  }

  // ---- Conservation ------------------------------------------------------

  // The handlers of which p holds.
  function Those(handlers: map<nat, Handler>, p: Handler -> bool): set<nat> {
    set id | id in handlers && p(handlers[id])
  }

  lemma {:induction false} ThoseUpdate(handlers: map<nat, Handler>, id: nat, h: Handler, p: Handler -> bool)
    ensures |Those(handlers[id := h], p)| ==
            |Those(handlers, p)| - (if id in handlers && p(handlers[id]) then 1 else 0) + (if p(h) then 1 else 0)
  {
    var was, now := Those(handlers, p), Those(handlers[id := h], p);
    forall x
      ensures x in was - {id} <==> x in now - {id}
    {
    }
    assert was - {id} == now - {id};
    SizeWithout(was, id);
    SizeWithout(now, id);
  }

  lemma {:induction false} SizeWithout(s: set<nat>, id: nat)
    ensures |s| == |s - {id}| + if id in s then 1 else 0
  {
    assert id in s ==> s == (s - {id}) + {id};
    assert id !in s ==> s == s - {id};
  }

  const ISSUED: Handler -> bool := (h: Handler) => h.IssueDone?
  const LOST: Handler -> bool := (h: Handler) => h.CompleteDone? && !h.room
  const UNSENT: Handler -> bool := (h: Handler) => h.CompleteRemoved? || h.CompleteStamped?

  // A completion that removes its key still finds an entry for it.
  predicate FindsAnEntry(s: State, m: Micro) {
    m.act.RemoveKey? && m.id in s.handlers && s.handlers[m.id].CompleteGot? ==> s.handlers[m.id].key in s.table
  }

  // Number of removes that found the entry gone.
  function Gone(devT: U32, run: seq<Micro>): nat {
    if run == [] then 0
    else
      var before := run[..|run| - 1];
      Gone(devT, before) +
      if Exec(devT, before).Some? && !FindsAnEntry(Exec(devT, before).value, run[|run| - 1]) then 1 else 0
  }

  ghost predicate Balanced(s: State, l: Ledger, gone: nat) {
    && l.accepted == |Those(s.handlers, ISSUED)|
    && l.submitted + l.ringLost + gone ==
       |s.ring| + |Those(s.handlers, LOST)| + |Those(s.handlers, UNSENT)|
  }

  function LedgerAfter(devT: U32, l: Ledger, t: Table, e: seq<Op>): Ledger {
    if |e| == 1 then Book(CAPACITY, devT, l, t, e[0].step) else l
  }

  lemma {:induction false} StepThose(devT: U32, s: State, m: Micro)
    requires Next(devT, s, m).Some?
    ensures var was, now := s.handlers, Next(devT, s, m).value.handlers;
            && |Those(now, ISSUED)| == |Those(was, ISSUED)| + (if m.act.InsertKey? then 1 else 0)
            && |Those(now, LOST)| == |Those(was, LOST)| + (if m.act.Submit? && !m.act.room then 1 else 0)
            && |Those(now, UNSENT)| ==
               |Those(was, UNSENT)| + (if m.act.RemoveKey? then 1 else 0) - (if m.act.Submit? then 1 else 0)
  {
    var h := Advance(devT, s.table, At(s, m.id), m.act).value;
    ThoseUpdate(s.handlers, m.id, h, ISSUED);
    ThoseUpdate(s.handlers, m.id, h, LOST);
    ThoseUpdate(s.handlers, m.id, h, UNSENT);
  }

  lemma {:induction false} StepLedger(devT: U32, end: State, s: State, m: Micro, l: Ledger)
    requires Next(devT, s, m).Some? && HandlerPasses(devT, s, m.id)
    ensures var l' := LedgerAfter(devT, l, s.table, Effect(end, s, m));
            && l'.accepted == l.accepted + (if m.act.InsertKey? then 1 else 0)
            && l'.submitted + l'.ringLost ==
               l.submitted + l.ringLost + (if m.act.RemoveKey? && FindsAnEntry(s, m) then 1 else 0)
    ensures |Next(devT, s, m).value.ring| == |s.ring| + (if m.act.Submit? && m.act.room then 1 else 0)
    ensures !FindsAnEntry(s, m) ==> m.act.RemoveKey?
  {
  }

  lemma {:induction false} StepBalanced(devT: U32, end: State, s: State, m: Micro, l: Ledger, gone: nat)
    requires Next(devT, s, m).Some? && HandlerPasses(devT, s, m.id)
    requires Balanced(s, l, gone)
    ensures Balanced(Next(devT, s, m).value, LedgerAfter(devT, l, s.table, Effect(end, s, m)),
                     gone + if FindsAnEntry(s, m) then 0 else 1)
  {
    StepThose(devT, s, m);
    StepLedger(devT, end, s, m, l);
  }

  lemma {:induction false} RunBalanced(devT: U32, end: State, run: seq<Micro>)
    requires Exec(devT, run).Some?
    ensures Balanced(Exec(devT, run).value, Account(CAPACITY, devT, Steps(Linearized(devT, end, run))), Gone(devT, run))
  {
    if run != [] {
      var before, m := run[..|run| - 1], run[|run| - 1];
      var s, ops := Exec(devT, before).value, Linearized(devT, end, before);
      RunBalanced(devT, end, before);
      TableIsAtomic(devT, end, before);
      HandlersPass(devT, before);
      assert HandlerPasses(devT, s, m.id);
      StepBalanced(devT, end, s, m, Account(CAPACITY, devT, Steps(ops)), Gone(devT, before));
      var e := Effect(end, s, m);
      if |e| == 1 {
        assert ops + e == ops + [e[0]];
        AppendOp(devT, ops, e[0]);
      } else {
        assert ops + e == ops;
      }
    } else {
      assert Those(INIT.handlers, ISSUED) == Those(INIT.handlers, LOST) == Those(INIT.handlers, UNSENT) == {};
    }
  }

  // The books of any interleaved run: the issues that returned, plus the
  // removes that found nothing, are the events in the ring, those a full ring
  // lost, those still to be submitted, and the issues overwritten, dropped by a
  // full table or still in it.
  lemma {:induction false} InterleavedIssuesConserved(devT: U32, run: seq<Micro>)
    requires Exec(devT, run).Some?
    ensures var end := Exec(devT, run).value;
            var l := Account(CAPACITY, devT, Steps(Linearized(devT, end, run)));
            && l.accepted == |Those(end.handlers, ISSUED)|
            && l.accepted + Gone(devT, run) ==
               |end.ring| + |Those(end.handlers, LOST)| + |Those(end.handlers, UNSENT)|
               + l.overwritten + l.dropped + |end.table|
  {
    var end := Exec(devT, run).value;
    RunBalanced(devT, end, run);
    TableIsAtomic(devT, end, run);
    IssuesConserved(CAPACITY, devT, Steps(Linearized(devT, end, run)));
  }

  // So issues alone balance exactly when every remove found an entry.
  lemma {:induction false} NothingGoneIff(devT: U32, run: seq<Micro>)
    requires Exec(devT, run).Some?
    ensures Gone(devT, run) == 0 <==> Always(devT, run, FindsAnEntry)
  {
    if run != [] {
      NothingGoneIff(devT, run[..|run| - 1]);
    }
  }
}
