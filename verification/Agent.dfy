// The whole path of the fsync-jitter rule: block tracepoints fill the ring,
// the loader drains it into the rule state, ticks evaluate the rule.
module Agent {
  import opened Machine
  import opened BlockIo
  import FsyncJitter
  import Inflight

  datatype AgentStep = Kernel(step: Inflight.Step) | DrainRing | Tick

  // The tracepoint hits of an agent trace, in order.
  function KernelTrace(trace: seq<AgentStep>): seq<Inflight.Step> {
    if trace == [] then []
    else
      KernelTrace(trace[..|trace| - 1]) +
      match trace[|trace| - 1]
      case Kernel(s) => [s]
      case _ => []
  }

  // The rule samples exactly the completions whose flags could be read and
  // start with W or F. One that starts with F counts as write+flush, never as
  // a plain write.
  lemma {:induction false} RuleSamplesWrites(m: Inflight.Match)
    ensures var c := Inflight.EventOf(m).opClass;
            && (FsyncJitter.IsWrite(Inflight.EventOf(m)) <==>
                  m.rwbs.Some? && (m.rwbs.value[0] == 'W' as int || m.rwbs.value[0] == 'F' as int))
            && (c == WriteFlush <==>
                  FsyncJitter.IsWrite(Inflight.EventOf(m)) &&
                  exists i :: 0 <= i < 8 && (m.rwbs.value[i] == 'F' as int || m.rwbs.value[i] == 'A' as int))
  {
    if m.rwbs.Some? {
      assert m.rwbs.value[0] in m.rwbs.value;
    }
  }

  // Everything the ring accepted over the trace.
  function Submitted(devT: U32, trace: seq<AgentStep>): seq<LatencyEvent> {
    Inflight.Emitted(Inflight.CAPACITY, devT, KernelTrace(trace))
  }

  // Number of events drained: all that were submitted before the last drain.
  function DrainedCount(devT: U32, trace: seq<AgentStep>): nat {
    if trace == [] then 0
    else if trace[|trace| - 1].DrainRing? then |Submitted(devT, trace[..|trace| - 1])|
    else DrainedCount(devT, trace[..|trace| - 1])
  }

  function Drains(events: seq<LatencyEvent>): seq<FsyncJitter.LoopStep> {
    seq(|events|, i requires 0 <= i < |events| => FsyncJitter.Drained(events[i]))
  }

  lemma {:induction false} SubmittedGrows(devT: U32, trace: seq<AgentStep>)
    ensures DrainedCount(devT, trace) <= |Submitted(devT, trace)|
    ensures trace != [] ==> Submitted(devT, trace[..|trace| - 1]) <= Submitted(devT, trace)
  {
    if trace != [] {
      var before := trace[..|trace| - 1];
      SubmittedGrows(devT, before);
      if trace[|trace| - 1].Kernel? {
        var k := KernelTrace(trace);
        assert k[..|k| - 1] == KernelTrace(before);
      } else {
        assert KernelTrace(trace) == KernelTrace(before);
      }
    }
  }

  // What the loader's select loop sees: each drain delivers, in order, the
  // events submitted since the drain before it.
  function LoaderTrace(devT: U32, trace: seq<AgentStep>): seq<FsyncJitter.LoopStep> {
    if trace == [] then []
    else
      var before := trace[..|trace| - 1];
      LoaderTrace(devT, before) +
      match trace[|trace| - 1]
      case Kernel(_) => []
      case Tick => [FsyncJitter.Ticked]
      case DrainRing =>
        SubmittedGrows(devT, before);
        Drains(Submitted(devT, before)[DrainedCount(devT, before)..])
  }

  function WritesIn(events: seq<LatencyEvent>): seq<U64> {
    if events == [] then []
    else
      var e := events[|events| - 1];
      WritesIn(events[..|events| - 1]) + if FsyncJitter.IsWrite(e) then [e.latencyNs] else []
  }

  lemma {:induction false} DrainsAppend(loop: seq<FsyncJitter.LoopStep>, events: seq<LatencyEvent>)
    ensures FsyncJitter.DrainedWrites(loop + Drains(events)) == FsyncJitter.DrainedWrites(loop) + WritesIn(events)
  {
    if events == [] {
      assert loop + Drains(events) == loop;
    } else {
      var n := |events| - 1;
      DrainsAppend(loop, events[..n]);
      var all := loop + Drains(events);
      assert all[..|all| - 1] == loop + Drains(events[..n]);
    }
  }

  lemma {:induction false} WritesConcat(a: seq<LatencyEvent>, b: seq<LatencyEvent>)
    ensures WritesIn(a + b) == WritesIn(a) + WritesIn(b)
  {
    if b == [] {
      assert a + b == a;
    } else {
      WritesConcat(a, b[..|b| - 1]);
      assert (a + b)[..|a + b| - 1] == a + b[..|b| - 1];
    }
  }

  lemma {:induction false} DrainedWritesAre(devT: U32, trace: seq<AgentStep>)
    ensures DrainedCount(devT, trace) <= |Submitted(devT, trace)|
    ensures FsyncJitter.DrainedWrites(LoaderTrace(devT, trace)) ==
            WritesIn(Submitted(devT, trace)[..DrainedCount(devT, trace)])
  {
    SubmittedGrows(devT, trace);
    if trace != [] {
      var before := trace[..|trace| - 1];
      DrainedWritesAre(devT, before);
      var sent, n, loop := Submitted(devT, before), DrainedCount(devT, before), LoaderTrace(devT, before);
      match trace[|trace| - 1]
      case Kernel(_) =>
        assert LoaderTrace(devT, trace) == loop;
        assert Submitted(devT, trace)[..n] == sent[..n];
      case Tick =>
        assert KernelTrace(trace) == KernelTrace(before);
        assert (loop + [FsyncJitter.Ticked])[..|loop|] == loop;
      case DrainRing =>
        assert KernelTrace(trace) == KernelTrace(before);
        DrainsRest(loop, sent, n);
    }
  }

  lemma {:induction false} DrainsRest(loop: seq<FsyncJitter.LoopStep>, sent: seq<LatencyEvent>, n: nat)
    requires n <= |sent| && FsyncJitter.DrainedWrites(loop) == WritesIn(sent[..n])
    ensures FsyncJitter.DrainedWrites(loop + Drains(sent[n..])) == WritesIn(sent[..|sent|])
  {
    DrainsAppend(loop, sent[n..]);
    WritesConcat(sent[..n], sent[n..]);
    assert sent[..|sent|] == sent[..n] + sent[n..];
  }

  // From the kernel to the rule no write latency is lost, repeated or
  // reordered: those submitted to the ring are, in order, those of the ticks'
  // intervals, those pending in the loader, and those still in the ring.
  lemma {:induction false} SubmittedWritesAccounted(devT: U32, trace: seq<AgentStep>)
    ensures var loop, sent := LoaderTrace(devT, trace), Submitted(devT, trace);
            DrainedCount(devT, trace) <= |sent| &&
            WritesIn(sent) ==
            FsyncJitter.Flatten(FsyncJitter.Intervals(loop)) + FsyncJitter.Pending(loop)
            + WritesIn(sent[DrainedCount(devT, trace)..])
  {
    var sent, n := Submitted(devT, trace), DrainedCount(devT, trace);
    DrainedWritesAre(devT, trace);
    FsyncJitter.EachWriteInOneInterval(LoaderTrace(devT, trace));
    WritesSplit(sent, n);
  }

  lemma {:induction false} WritesSplit(events: seq<LatencyEvent>, n: nat)
    requires n <= |events|
    ensures WritesIn(events) == WritesIn(events[..n]) + WritesIn(events[n..])
  {
    WritesConcat(events[..n], events[n..]);
    assert events == events[..n] + events[n..];
  }

  lemma {:induction false} DrainsSnoc(events: seq<LatencyEvent>, e: LatencyEvent)
    ensures Drains(events + [e]) == Drains(events) + Drains([e])
  {
  }

  // One event of the latency arm; false when the ring is empty.
  method DrainOne(kernel: Inflight.Correlator, rule: FsyncJitter.RuleState) returns (more: bool)
    requires kernel.Valid() && rule.Valid()
    modifies kernel, rule
    ensures kernel.Valid() && rule.Valid() && kernel.trace == old(kernel.trace)
    ensures more <==> old(kernel.latencyEvents) != []
    ensures var taken := if more then [old(kernel.latencyEvents[0])] else [];
            && taken + kernel.latencyEvents == old(kernel.latencyEvents)
            && kernel.drained == old(kernel.drained) + taken
            && rule.trace == old(rule.trace) + Drains(taken)
  {
    var item := kernel.Next();
    more := item.Some?;
    if more {
      rule.Drain(item.value);
    }
  }

  // The latency arm of the select loop: take events until the ring is empty.
  method DrainInto(kernel: Inflight.Correlator, rule: FsyncJitter.RuleState)
    requires kernel.Valid() && rule.Valid()
    modifies kernel, rule
    ensures kernel.Valid() && rule.Valid() && kernel.trace == old(kernel.trace)
    ensures kernel.latencyEvents == [] && kernel.drained == old(kernel.drained) + old(kernel.latencyEvents)
    ensures rule.trace == old(rule.trace) + Drains(old(kernel.latencyEvents))
  {
    ghost var ring, was, loop := kernel.latencyEvents, kernel.drained, rule.trace;
    ghost var done: seq<LatencyEvent> := [];
    while true
      invariant kernel.Valid() && rule.Valid() && kernel.trace == old(kernel.trace)
      invariant done + kernel.latencyEvents == ring
      invariant kernel.drained == was + done
      invariant rule.trace == loop + Drains(done)
      decreases |kernel.latencyEvents|
    {
      ghost var waiting := kernel.latencyEvents;
      var more := DrainOne(kernel, rule);
      if !more {
        break;
      }
      ghost var e := [waiting[0]];
      DrainsSnoc(done, waiting[0]);
      assert (done + e) + kernel.latencyEvents == done + (e + kernel.latencyEvents);
      assert was + (done + e) == was + done + e;
      assert loop + (Drains(done) + Drains(e)) == loop + Drains(done) + Drains(e);
      done := done + e;
    }
    assert done == ring;
  }

  class FsyncAgent {
    const kernel: Inflight.Correlator
    const rule: FsyncJitter.RuleState
    ghost var trace: seq<AgentStep>

    ghost predicate Valid()
      reads this, kernel, rule, rule.counter
    {
      && kernel.Valid() && rule.Valid()
      && kernel.trace == KernelTrace(trace)
      && rule.trace == LoaderTrace(kernel.devT, trace)
      && DrainedCount(kernel.devT, trace) == |kernel.drained|
    }

    constructor (devT: U32, thresholdMs: U64, fireAfter: U32)
      ensures Valid() && fresh(kernel) && fresh(rule) && fresh(rule.counter) && trace == []
      ensures kernel.devT == devT && rule.thresholdMs == thresholdMs && rule.fireAfter == fireAfter
    {
      kernel := new Inflight.Correlator(devT);
      rule := new FsyncJitter.RuleState(thresholdMs, fireAfter);
      trace := [];
    }

    method OnTracepoint(s: Inflight.Step)
      requires Valid()
      modifies this, kernel
      ensures Valid() && trace == old(trace) + [Kernel(s)]
    {
      assert (trace + [Kernel(s)])[..|trace|] == trace;
      if s.Issue? {
        kernel.BlockRqIssue(s.dev, s.sector, s.ts);
      } else {
        kernel.BlockRqComplete(s.dev, s.sector, s.now, s.nrSector, s.rwbs, s.ringRoom);
      }
      trace := trace + [Kernel(s)];
    }

    method Drain()
      requires Valid()
      modifies this, kernel, rule
      ensures Valid() && trace == old(trace) + [DrainRing] && kernel.latencyEvents == []
    {
      assert (trace + [DrainRing])[..|trace|] == trace;
      ghost var sent := Submitted(kernel.devT, trace);
      assert sent == kernel.drained + kernel.latencyEvents;
      assert sent[|kernel.drained|..] == kernel.latencyEvents;
      DrainInto(kernel, rule);
      assert kernel.drained == sent;
      trace := trace + [DrainRing];
    }

    // The tick arm. A Finding comes out exactly when this tick ends a run of
    // exactly max(1, fireAfter) slow intervals of what the kernel submitted
    // and the loader drained.
    method OnTick() returns (finding: Option<FsyncJitter.Finding>)
      requires Valid()
      modifies this, rule, rule.counter
      ensures Valid() && trace == old(trace) + [Tick]
      ensures finding.Some? <==>
              FsyncJitter.Due(FsyncJitter.Intervals(LoaderTrace(kernel.devT, trace)), rule.thresholdMs, rule.fireAfter)
      ensures finding.Some? ==>
                FsyncJitter.IsFinding(finding.value, FsyncJitter.Pending(LoaderTrace(kernel.devT, old(trace))),
                                      rule.thresholdMs, rule.fireAfter)
    {
      assert (trace + [Tick])[..|trace|] == trace;
      finding := rule.Tick();
      trace := trace + [Tick];
    }
  }
}
