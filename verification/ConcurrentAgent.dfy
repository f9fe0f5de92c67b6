// The fsync-jitter rule fed by interleaved handlers: a kernel run cut at the
// loader's drains and ticks, against whole handlers cut at the same places.
module ConcurrentAgent {
  import opened Machine
  import opened BlockIo
  import opened Sums
  import opened Inflight
  import opened Interleaving
  import opened Atomicity
  import Agent
  import FsyncJitter

  datatype Event = Kernel(micro: Micro) | DrainRing | Tick

  function RunOf(trace: seq<Event>): seq<Micro> {
    if trace == [] then []
    else
      RunOf(trace[..|trace| - 1]) +
      match trace[|trace| - 1]
      case Kernel(m) => [m]
      case _ => []
  }

  predicate Possible(devT: U32, trace: seq<Event>) {
    Exec(devT, RunOf(trace)).Some?
  }

  function StateOf(devT: U32, trace: seq<Event>): State
    requires Possible(devT, trace)
  {
    Exec(devT, RunOf(trace)).value
  }

  lemma {:induction false} StepBack(devT: U32, trace: seq<Event>)
    requires trace != [] && Possible(devT, trace)
    ensures var before := trace[..|trace| - 1];
            && Possible(devT, before)
            && StateOf(devT, before).ring <= StateOf(devT, trace).ring
            && match trace[|trace| - 1]
               case Kernel(m) =>
                 && RunOf(trace) == RunOf(before) + [m] && RunOf(trace)[..|RunOf(before)|] == RunOf(before)
                 && Next(devT, StateOf(devT, before), m) == Some(StateOf(devT, trace))
               case _ => RunOf(trace) == RunOf(before)
  {
    var before, run := trace[..|trace| - 1], RunOf(trace);
    if trace[|trace| - 1].Kernel? {
      assert run[..|run| - 1] == RunOf(before);
    } else {
      assert run == RunOf(before);
    }
  }

  // Events of the ring that the last drain, and those before it, have taken.
  function Taken(devT: U32, trace: seq<Event>): (n: nat)
    requires Possible(devT, trace)
    ensures n <= |StateOf(devT, trace).ring|
  {
    if trace == [] then 0
    else
      StepBack(devT, trace);
      var before := trace[..|trace| - 1];
      if trace[|trace| - 1].DrainRing? then |StateOf(devT, before).ring| else Taken(devT, before)
  }

  // What the loader's select loop sees.
  function Seen(devT: U32, trace: seq<Event>): seq<FsyncJitter.LoopStep>
    requires Possible(devT, trace)
  {
    if trace == [] then []
    else
      StepBack(devT, trace);
      var before := trace[..|trace| - 1];
      Seen(devT, before) +
      match trace[|trace| - 1]
      case Kernel(_) => []
      case Tick => [FsyncJitter.Ticked]
      case DrainRing => Agent.Drains(StateOf(devT, before).ring[Taken(devT, before)..])
  }

  // A step of the kernel as whole handlers: at most one.
  function KernelSteps(e: seq<Op>): seq<Agent.AgentStep> {
    if |e| == 1 then [Agent.Kernel(e[0].step)] else []
  }

  // The same trace with each handler run whole where it takes effect.
  function Whole(devT: U32, end: State, trace: seq<Event>): seq<Agent.AgentStep>
    requires Possible(devT, trace)
  {
    if trace == [] then []
    else
      StepBack(devT, trace);
      var before := trace[..|trace| - 1];
      Whole(devT, end, before) +
      match trace[|trace| - 1]
      case Kernel(m) => KernelSteps(Effect(end, StateOf(devT, before), m))
      case Tick => [Agent.Tick]
      case DrainRing => [Agent.DrainRing]
  }

  // ---- What a drain finds ------------------------------------------------

  // No completion that will submit is between its remove and its submit.
  ghost predicate Settled(end: State, s: State) {
    forall id :: id in s.handlers && UNSENT(s.handlers[id]) ==> !RoomOf(end, id)
  }

  // Completions that are done in s are done in end, with the same outcome.
  ghost predicate DoneAgree(s: State, end: State) {
    forall id :: id in s.handlers && s.handlers[id].CompleteDone? ==>
      id in end.handlers && end.handlers[id] == s.handlers[id]
  }

  lemma {:induction false} SentOrWaiting(devT: U32, end: State, run: seq<Micro>, id: nat)
    requires Exec(devT, run).Some? && DoneAgree(Exec(devT, run).value, end)
    requires OwnRemoves(devT, end, run, true)
    ensures var s := Exec(devT, run).value;
            var sent, matched := Matches(s, true), AtomicMatches(devT, Linearized(devT, end, run), true);
            && (id in matched <==> id in sent || (id in s.handlers && UNSENT(s.handlers[id]) && RoomOf(end, id)))
            && (id in sent ==> id in matched && matched[id] == sent[id])
  {
    RunJoined(devT, end, run, true, id);
    assert Counts(end, id, true) ==> Always(devT, run, Own(id));
  }

  lemma {:induction false} EventsOfSize(matched: map<nat, Match>)
    ensures |EventsOf(matched)| == |matched|
    decreases |matched|
  {
    if matched != map[] {
      var id := Pick(matched);
      assert (matched - {id}).Keys == matched.Keys - {id};
      EventsOfSize(matched - {id});
    }
  }

  lemma {:induction false} FewerKeys(a: set<nat>, b: set<nat>)
    requires a < b
    ensures |a| < |b|
  {
    assert b == a + (b - a) && b - a != {};
  }

  lemma {:induction false} SameEventsIff(some: map<nat, Match>, all: map<nat, Match>)
    requires forall id :: id in some ==> id in all && all[id] == some[id]
    ensures EventsOf(some) == EventsOf(all) <==> all.Keys <= some.Keys
  {
    if all.Keys <= some.Keys {
      assert some == all;
    } else {
      FewerKeys(some.Keys, all.Keys);
      EventsOfSize(some);
      EventsOfSize(all);
    }
  }

  // At any point of a run the ring holds the events of the whole handlers
  // placed before that point exactly when no completion that will submit is
  // between its remove and its submit.
  lemma {:induction false} RingAtPointIff(devT: U32, end: State, run: seq<Micro>)
    requires Exec(devT, run).Some? && DoneAgree(Exec(devT, run).value, end)
    requires OwnRemoves(devT, end, run, true)
    ensures multiset(Exec(devT, run).value.ring) ==
            multiset(Emitted(CAPACITY, devT, Steps(Linearized(devT, end, run)))) <==>
            Settled(end, Exec(devT, run).value)
  {
    var s := Exec(devT, run).value;
    var sent, matched := Matches(s, true), AtomicMatches(devT, Linearized(devT, end, run), true);
    RingIsSent(devT, run);
    EmittedIsSent(devT, end, run);
    forall id
      ensures id in matched <==> id in sent || (id in s.handlers && UNSENT(s.handlers[id]) && RoomOf(end, id))
      ensures id in sent ==> id in matched && matched[id] == sent[id]
    {
      SentOrWaiting(devT, end, run, id);
    }
    SameEventsIff(sent, matched);
  }

  // ---- The loader's intervals --------------------------------------------

  function IsWriteOf(v: U64): LatencyEvent -> int {
    e => if FsyncJitter.IsWrite(e) && e.latencyNs == v then 1 else 0
  }

  lemma {:induction false} CountWrites(events: seq<LatencyEvent>, v: U64)
    ensures multiset(Agent.WritesIn(events))[v] == Sum(events, IsWriteOf(v))
  {
    if events != [] { CountWrites(events[..|events| - 1], v); }
  }

  lemma {:induction false} WritesOfPermutation(a: seq<LatencyEvent>, b: seq<LatencyEvent>)
    requires multiset(a) == multiset(b)
    ensures multiset(Agent.WritesIn(a)) == multiset(Agent.WritesIn(b))
  {
    forall v: U64
      ensures multiset(Agent.WritesIn(a))[v] == multiset(Agent.WritesIn(b))[v]
    {
      CountWrites(a, v);
      CountWrites(b, v);
      SumPermutation(a, b, IsWriteOf(v));
    }
  }

  lemma {:induction false} AfterDrains(loop: seq<FsyncJitter.LoopStep>, events: seq<LatencyEvent>)
    ensures FsyncJitter.Pending(loop + Agent.Drains(events)) == FsyncJitter.Pending(loop) + Agent.WritesIn(events)
    ensures FsyncJitter.Intervals(loop + Agent.Drains(events)) == FsyncJitter.Intervals(loop)
  {
    if events == [] {
      assert loop + Agent.Drains(events) == loop;
    } else {
      var n := |events| - 1;
      AfterDrains(loop, events[..n]);
      DrainsLast(loop, events);
      FsyncJitter.ExtendTrace(loop + Agent.Drains(events[..n]), FsyncJitter.Drained(events[n]));
      var p, w := FsyncJitter.Pending(loop), Agent.WritesIn(events[..n]);
      assert FsyncJitter.IsWrite(events[n]) ==>
          p + w + [events[n].latencyNs] == p + (w + [events[n].latencyNs]);
    }
  }

  lemma {:induction false} DrainsLast(loop: seq<FsyncJitter.LoopStep>, events: seq<LatencyEvent>)
    requires events != []
    ensures loop + Agent.Drains(events) ==
            loop + Agent.Drains(events[..|events| - 1]) + [FsyncJitter.Drained(events[|events| - 1])]
  {
  }

  // Two loaders have seen the same samples in the same intervals.
  ghost predicate SameSamples(a: seq<FsyncJitter.LoopStep>, b: seq<FsyncJitter.LoopStep>) {
    && multiset(FsyncJitter.Pending(a)) == multiset(FsyncJitter.Pending(b))
    && SameIntervals(FsyncJitter.Intervals(a), FsyncJitter.Intervals(b))
  }

  ghost predicate SameIntervals(a: seq<seq<U64>>, b: seq<seq<U64>>) {
    |a| == |b| && forall j :: 0 <= j < |a| ==> multiset(a[j]) == multiset(b[j])
  }

  lemma {:induction false} SameAfterDrains(a: seq<FsyncJitter.LoopStep>, b: seq<FsyncJitter.LoopStep>,
                                           x: seq<LatencyEvent>, y: seq<LatencyEvent>)
    requires SameSamples(a, b) && multiset(x) == multiset(y)
    ensures SameSamples(a + Agent.Drains(x), b + Agent.Drains(y))
  {
    AfterDrains(a, x);
    AfterDrains(b, y);
    WritesOfPermutation(x, y);
  }

  lemma {:induction false} SameAfterTick(a: seq<FsyncJitter.LoopStep>, b: seq<FsyncJitter.LoopStep>)
    requires SameSamples(a, b)
    ensures SameSamples(a + [FsyncJitter.Ticked], b + [FsyncJitter.Ticked])
  {
    FsyncJitter.ExtendTrace(a, FsyncJitter.Ticked);
    FsyncJitter.ExtendTrace(b, FsyncJitter.Ticked);
  }

  lemma {:induction false} SameSlow(a: seq<U64>, b: seq<U64>, thresholdMs: U64)
    requires multiset(a) == multiset(b)
    ensures FsyncJitter.Slow(a, thresholdMs) <==> FsyncJitter.Slow(b, thresholdMs)
  {
    assert |a| == |multiset(a)| == |multiset(b)| == |b|;
    SumPermutation(a, b, FsyncJitter.Above(thresholdMs * 1_000_000));
  }

  lemma {:induction false} SameMedian(a: seq<U64>, b: seq<U64>, v: U64)
    requires multiset(a) == multiset(b)
    ensures FsyncJitter.IsUpperMedian(a, v) <==> FsyncJitter.IsUpperMedian(b, v)
  {
    assert |a| == |multiset(a)| == |multiset(b)| == |b|;
    assert v in a <==> v in multiset(a);
    assert v in b <==> v in multiset(b);
    SumPermutation(a, b, FsyncJitter.Above(v));
    SumPermutation(a, b, FsyncJitter.Below(v));
  }

  lemma {:induction false} SameEvidence(f: FsyncJitter.Finding, a: seq<U64>, b: seq<U64>, thresholdMs: U64,
                                        fireAfter: U32)
    requires multiset(a) == multiset(b)
    ensures FsyncJitter.IsFinding(f, a, thresholdMs, fireAfter) <==>
            FsyncJitter.IsFinding(f, b, thresholdMs, fireAfter)
  {
    forall v: U64
      ensures FsyncJitter.IsUpperMedian(a, v) <==> FsyncJitter.IsUpperMedian(b, v)
    {
      SameMedian(a, b, v);
    }
  }

  // What a tick must report depends on the samples of each interval only, not
  // on their order.
  lemma {:induction false} SameReport(a: seq<seq<U64>>, b: seq<seq<U64>>, k: nat,
                                      outcome: Option<FsyncJitter.Finding>, thresholdMs: U64, fireAfter: U32)
    requires SameIntervals(a, b) && k < |a|
    ensures FsyncJitter.ReportAt(a, k, outcome, thresholdMs, fireAfter) <==>
            FsyncJitter.ReportAt(b, k, outcome, thresholdMs, fireAfter)
  {
    forall j | 0 <= j <= k
      ensures FsyncJitter.Slow(a[j], thresholdMs) <==> FsyncJitter.Slow(b[j], thresholdMs)
    {
      SameSlow(a[j], b[j], thresholdMs);
    }
    assert FsyncJitter.SlowBits(a[..k + 1], thresholdMs) == FsyncJitter.SlowBits(b[..k + 1], thresholdMs);
    if outcome.Some? { SameEvidence(outcome.value, a[k], b[k], thresholdMs, fireAfter); }
  }

  lemma {:induction false} SameReports(a: seq<seq<U64>>, b: seq<seq<U64>>, outcomes: seq<Option<FsyncJitter.Finding>>,
                                       thresholdMs: U64, fireAfter: U32)
    requires SameIntervals(a, b)
    ensures FsyncJitter.Reports(a, outcomes, thresholdMs, fireAfter) <==>
            FsyncJitter.Reports(b, outcomes, thresholdMs, fireAfter)
  {
    forall k | 0 <= k < |a| && k < |outcomes|
      ensures FsyncJitter.ReportAt(a, k, outcomes[k], thresholdMs, fireAfter) <==>
              FsyncJitter.ReportAt(b, k, outcomes[k], thresholdMs, fireAfter)
    {
      SameReport(a, b, k, outcomes[k], thresholdMs, fireAfter);
    }
  }

  // ---- Both traces, step by step -----------------------------------------

  lemma {:induction false} AgentSnoc(devT: U32, w: seq<Agent.AgentStep>, step: Agent.AgentStep)
    ensures Agent.KernelTrace(w + [step]) == Agent.KernelTrace(w) + if step.Kernel? then [step.step] else []
    ensures Agent.DrainedCount(devT, w) <= |Agent.Submitted(devT, w)|
    ensures Agent.Submitted(devT, w) <= Agent.Submitted(devT, w + [step])
    ensures !step.Kernel? ==> Agent.Submitted(devT, w + [step]) == Agent.Submitted(devT, w)
    ensures Agent.DrainedCount(devT, w + [step]) ==
            if step.DrainRing? then |Agent.Submitted(devT, w)| else Agent.DrainedCount(devT, w)
    ensures Agent.LoaderTrace(devT, w + [step]) ==
            match step
            case Kernel(_) => Agent.LoaderTrace(devT, w)
            case Tick => Agent.LoaderTrace(devT, w) + [FsyncJitter.Ticked]
            case DrainRing =>
              Agent.LoaderTrace(devT, w) + Agent.Drains(Agent.Submitted(devT, w)[Agent.DrainedCount(devT, w)..])
  {
    assert (w + [step])[..|w|] == w;
    Agent.SubmittedGrows(devT, w);
    Agent.SubmittedGrows(devT, w + [step]);
    assert Agent.KernelTrace(w) + [] == Agent.KernelTrace(w);
  }

  lemma {:induction false} WholeIsLinearized(devT: U32, end: State, trace: seq<Event>)
    requires Possible(devT, trace)
    ensures Agent.KernelTrace(Whole(devT, end, trace)) == Steps(Linearized(devT, end, RunOf(trace)))
  {
    if trace != [] {
      StepBack(devT, trace);
      var before := trace[..|trace| - 1];
      WholeIsLinearized(devT, end, before);
      var w, ops := Whole(devT, end, before), Linearized(devT, end, RunOf(before));
      match trace[|trace| - 1]
      case Kernel(m) =>
        var e := Effect(end, StateOf(devT, before), m);
        if |e| == 1 {
          AgentSnoc(devT, w, Agent.Kernel(e[0].step));
          assert e == [e[0]];
          AppendOp(devT, ops, e[0]);
        } else {
          assert e == [] && w + [] == w && ops + e == ops;
        }
      case Tick => AgentSnoc(devT, w, Agent.Tick);
      case DrainRing => AgentSnoc(devT, w, Agent.DrainRing);
    }
  }

  // Every drain of the trace happens at such a point.
  ghost predicate SettledDrains(devT: U32, end: State, trace: seq<Event>) {
    trace == [] ||
    var before := trace[..|trace| - 1];
    && SettledDrains(devT, end, before)
    && (trace[|trace| - 1].DrainRing? && Possible(devT, before) ==> Settled(end, StateOf(devT, before)))
  }

  // The loader of the interleaved run and that of the whole handlers have
  // taken the same events and seen the same samples.
  ghost predicate InStep(devT: U32, ring: seq<LatencyEvent>, taken: nat, seen: seq<FsyncJitter.LoopStep>,
                         w: seq<Agent.AgentStep>) {
    && taken <= |ring| && Agent.DrainedCount(devT, w) <= |Agent.Submitted(devT, w)|
    && multiset(ring[..taken]) == multiset(Agent.Submitted(devT, w)[..Agent.DrainedCount(devT, w)])
    && SameSamples(seen, Agent.LoaderTrace(devT, w))
  }

  lemma {:induction false} InStepOp(devT: U32, ring: seq<LatencyEvent>, taken: nat, seen: seq<FsyncJitter.LoopStep>,
                                    w: seq<Agent.AgentStep>, s: Step)
    requires InStep(devT, ring, taken, seen, w)
    ensures InStep(devT, ring, taken, seen, w + [Agent.Kernel(s)])
  {
    AgentSnoc(devT, w, Agent.Kernel(s));
    var n := Agent.DrainedCount(devT, w);
    SamePrefix(Agent.Submitted(devT, w), Agent.Submitted(devT, w + [Agent.Kernel(s)]), n);
  }

  lemma {:induction false} SamePrefix<T>(a: seq<T>, b: seq<T>, n: nat)
    requires n <= |a| && a <= b
    ensures a[..n] == b[..n]
  {
  }

  lemma {:induction false} InStepKernel(devT: U32, ring: seq<LatencyEvent>, ring': seq<LatencyEvent>, taken: nat,
                                        seen: seq<FsyncJitter.LoopStep>, w: seq<Agent.AgentStep>, e: seq<Op>)
    requires InStep(devT, ring, taken, seen, w) && ring <= ring'
    ensures InStep(devT, ring', taken, seen, w + KernelSteps(e))
  {
    SamePrefix(ring, ring', taken);
    if |e| == 1 {
      InStepOp(devT, ring', taken, seen, w, e[0].step);
    } else {
      assert w + KernelSteps(e) == w;
    }
  }

  lemma {:induction false} InStepTick(devT: U32, ring: seq<LatencyEvent>, taken: nat, seen: seq<FsyncJitter.LoopStep>,
                                      w: seq<Agent.AgentStep>)
    requires InStep(devT, ring, taken, seen, w)
    ensures InStep(devT, ring, taken, seen + [FsyncJitter.Ticked], w + [Agent.Tick])
  {
    AgentSnoc(devT, w, Agent.Tick);
    SameAfterTick(seen, Agent.LoaderTrace(devT, w));
  }

  lemma {:induction false} InStepDrain(devT: U32, ring: seq<LatencyEvent>, taken: nat,
                                       seen: seq<FsyncJitter.LoopStep>, w: seq<Agent.AgentStep>)
    requires InStep(devT, ring, taken, seen, w) && multiset(ring) == multiset(Agent.Submitted(devT, w))
    ensures InStep(devT, ring, |ring|, seen + Agent.Drains(ring[taken..]), w + [Agent.DrainRing])
  {
    var sent, n := Agent.Submitted(devT, w), Agent.DrainedCount(devT, w);
    AgentSnoc(devT, w, Agent.DrainRing);
    RestOf(ring, taken, sent, n);
    SameAfterDrains(seen, Agent.LoaderTrace(devT, w), ring[taken..], sent[n..]);
    assert Agent.Submitted(devT, w + [Agent.DrainRing]) == sent;
    assert ring[..|ring|] == ring && sent[..|sent|] == sent;
  }

  lemma {:induction false} RestOf<T>(a: seq<T>, i: nat, b: seq<T>, j: nat)
    requires i <= |a| && j <= |b| && multiset(a) == multiset(b) && multiset(a[..i]) == multiset(b[..j])
    ensures multiset(a[i..]) == multiset(b[j..])
  {
    assert a == a[..i] + a[i..] && b == b[..j] + b[j..];
    assert multiset(a[i..]) == multiset(a) - multiset(a[..i]);
    assert multiset(b[j..]) == multiset(b) - multiset(b[..j]);
  }

  lemma {:induction false} DoneStays(devT: U32, s: State, m: Micro, end: State)
    requires Next(devT, s, m).Some? && DoneAgree(Next(devT, s, m).value, end)
    ensures DoneAgree(s, end)
  {
    forall id | id in s.handlers && s.handlers[id].CompleteDone?
      ensures id in end.handlers && end.handlers[id] == s.handlers[id]
    {
      assert Next(devT, s, m).value.handlers[id] == s.handlers[id];
    }
  }

  lemma {:induction false} OwnBefore(devT: U32, end: State, run: seq<Micro>)
    requires run != [] && OwnRemoves(devT, end, run, true)
    ensures OwnRemoves(devT, end, run[..|run| - 1], true)
  {
    forall id | Counts(end, id, true)
      ensures Always(devT, run[..|run| - 1], Own(id))
    {
      assert Always(devT, run, Own(id));
    }
  }

  // What the inductions below ask of a trace.
  ghost predicate Undisturbed(devT: U32, end: State, trace: seq<Event>)
    requires Possible(devT, trace)
  {
    && DoneAgree(StateOf(devT, trace), end)
    && OwnRemoves(devT, end, RunOf(trace), true)
  }

  lemma {:induction false} UndisturbedBefore(devT: U32, end: State, trace: seq<Event>)
    requires trace != [] && Possible(devT, trace) && Undisturbed(devT, end, trace)
    ensures Possible(devT, trace[..|trace| - 1]) && Undisturbed(devT, end, trace[..|trace| - 1])
  {
    StepBack(devT, trace);
    if trace[|trace| - 1].Kernel? {
      DoneStays(devT, StateOf(devT, trace[..|trace| - 1]), trace[|trace| - 1].micro, end);
      OwnBefore(devT, end, RunOf(trace));
    }
  }

  lemma {:induction false} AllInStep(devT: U32, end: State, trace: seq<Event>)
    requires Possible(devT, trace) && Undisturbed(devT, end, trace) && SettledDrains(devT, end, trace)
    ensures InStep(devT, StateOf(devT, trace).ring, Taken(devT, trace), Seen(devT, trace), Whole(devT, end, trace))
  {
    if trace != [] {
      UndisturbedBefore(devT, end, trace);
      StepBack(devT, trace);
      var before := trace[..|trace| - 1];
      AllInStep(devT, end, before);
      var ring, w, taken, seen :=
        StateOf(devT, before).ring, Whole(devT, end, before), Taken(devT, before), Seen(devT, before);
      match trace[|trace| - 1]
      case Kernel(m) =>
        var e := Effect(end, StateOf(devT, before), m);
        InStepKernel(devT, ring, StateOf(devT, trace).ring, taken, seen, w, e);
        assert seen + [] == seen;
      case Tick =>
        InStepTick(devT, ring, taken, seen, w);
      case DrainRing =>
        WholeIsLinearized(devT, end, before);
        RingAtPointIff(devT, end, RunOf(before));
        InStepDrain(devT, ring, taken, seen, w);
    }
  }

  // Every drain has by then delivered the events it would have delivered with
  // whole handlers.
  ghost predicate DrainsAgree(devT: U32, end: State, trace: seq<Event>)
    requires Possible(devT, trace)
  {
    trace == [] ||
    (StepBack(devT, trace);
     var before := trace[..|trace| - 1];
     && DrainsAgree(devT, end, before)
     && (trace[|trace| - 1].DrainRing? ==>
           multiset(StateOf(devT, before).ring) == multiset(Agent.Submitted(devT, Whole(devT, end, before)))))
  }

  lemma {:induction false} DrainsAgreeIff(devT: U32, end: State, trace: seq<Event>)
    requires Possible(devT, trace) && Undisturbed(devT, end, trace)
    ensures DrainsAgree(devT, end, trace) <==> SettledDrains(devT, end, trace)
  {
    if trace != [] {
      UndisturbedBefore(devT, end, trace);
      var before := trace[..|trace| - 1];
      DrainsAgreeIff(devT, end, before);
      WholeIsLinearized(devT, end, before);
      RingAtPointIff(devT, end, RunOf(before));
    }
  }

  // How the handlers interleave makes no difference to the rule, as long as
  // submitted completions remove what they have read. The drains deliver what
  // they would deliver with whole handlers exactly when none falls between the
  // remove and the submit of a completion; then every tick sees the same
  // samples, and the same outcomes are right.
  lemma {:induction false} OutcomesAreAtomic(devT: U32, trace: seq<Event>, outcomes: seq<Option<FsyncJitter.Finding>>,
                                             thresholdMs: U64, fireAfter: U32)
    requires Possible(devT, trace)
    requires OwnRemoves(devT, StateOf(devT, trace), RunOf(trace), true)
    ensures var end := StateOf(devT, trace);
            var a := FsyncJitter.Intervals(Seen(devT, trace));
            var b := FsyncJitter.Intervals(Agent.LoaderTrace(devT, Whole(devT, end, trace)));
            && (DrainsAgree(devT, end, trace) <==> SettledDrains(devT, end, trace))
            && (SettledDrains(devT, end, trace) ==>
                  && SameIntervals(a, b)
                  && (FsyncJitter.Reports(a, outcomes, thresholdMs, fireAfter) <==>
                      FsyncJitter.Reports(b, outcomes, thresholdMs, fireAfter)))
  {
    var end := StateOf(devT, trace);
    DrainsAgreeIff(devT, end, trace);
    if SettledDrains(devT, end, trace) {
      AllInStep(devT, end, trace);
      SameReports(FsyncJitter.Intervals(Seen(devT, trace)),
                  FsyncJitter.Intervals(Agent.LoaderTrace(devT, Whole(devT, end, trace))),
                  outcomes, thresholdMs, fireAfter);
    }
  }
}
