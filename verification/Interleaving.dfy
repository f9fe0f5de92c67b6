// The block_rq handlers on many CPUs. Each tracepoint hit is a handler with
// its own number, and its clock reads and map operations are separate steps
// that interleave with those of all other handlers in any order.
module Interleaving {
  import opened Machine
  import opened BlockIo
  import opened Inflight
  import opened Sums

  datatype Payload = Payload(nrSector: Option<U32>, rwbs: Option<Rwbs>)

  // Where a handler is, with its local variables. One that fails the dev_t
  // filter touches nothing and is not represented.
  datatype Handler =
    | IssueBegun(key: RqKey)
    | IssueStamped(key: RqKey, ts: U64)
    | IssueDone(key: RqKey)
    | CompleteBegun(key: RqKey, payload: Payload)
    | CompleteMissed(key: RqKey)
    | CompleteGot(key: RqKey, payload: Payload, ts: U64)
    | CompleteRemoved(key: RqKey, payload: Payload, ts: U64)
    | CompleteStamped(key: RqKey, payload: Payload, ts: U64, now: U64)
    | CompleteDone(key: RqKey, payload: Payload, ts: U64, now: U64, room: bool)
  {
    predicate Running() {
      !IssueDone? && !CompleteMissed? && !CompleteDone?
    }

    // The match this completion has made, given its second clock reading.
    function MatchAt(reading: U64): Match
      requires CompleteRemoved? || CompleteStamped? || CompleteDone?
    {
      Match(key, ts, reading, payload.nrSector, payload.rwbs)
    }
  }

  datatype Action =
    | BeginIssue(key: RqKey)
    | StampIssue(ts: U64)
    | InsertKey
    | BeginComplete(key: RqKey, payload: Payload)
    | GetKey
    | RemoveKey
    | StampComplete(now: U64)
    | Submit(room: bool)

  // One step of handler id.
  datatype Micro = Micro(id: nat, act: Action)

  datatype State = State(table: Table, ring: seq<LatencyEvent>, handlers: map<nat, Handler>, clock: U64)

  const INIT: State := State(map[], [], map[], 0)

  // The handler after one step, or None when it is not at that point.
  function Advance(devT: U32, t: Table, h: Option<Handler>, act: Action): Option<Handler> {
    match act
    case BeginIssue(k) =>
      if h.None? && PassesFilter(devT, k.dev) then Some(IssueBegun(k)) else None
    case StampIssue(ts) =>
      if h.Some? && h.value.IssueBegun? then Some(IssueStamped(h.value.key, ts)) else None
    case InsertKey =>
      if h.Some? && h.value.IssueStamped? then Some(IssueDone(h.value.key)) else None
    case BeginComplete(k, p) =>
      if h.None? && PassesFilter(devT, k.dev) then Some(CompleteBegun(k, p)) else None
    case GetKey =>
      if h.None? || !h.value.CompleteBegun? then None
      else if h.value.key !in t then Some(CompleteMissed(h.value.key))
      else Some(CompleteGot(h.value.key, h.value.payload, t[h.value.key]))
    case RemoveKey =>
      if h.None? || !h.value.CompleteGot? then None
      else Some(CompleteRemoved(h.value.key, h.value.payload, h.value.ts))
    case StampComplete(now) =>
      if h.None? || !h.value.CompleteRemoved? then None
      else Some(CompleteStamped(h.value.key, h.value.payload, h.value.ts, now))
    case Submit(room) =>
      if h.None? || !h.value.CompleteStamped? then None
      else Some(CompleteDone(h.value.key, h.value.payload, h.value.ts, h.value.now, room))
  }

  function At(s: State, id: nat): Option<Handler> {
    if id in s.handlers then Some(s.handlers[id]) else None
  }

  // The shared state after handler h takes a step.
  function Shared(s: State, h: Option<Handler>, act: Action): State {
    if h.Some? && act.InsertKey? && h.value.IssueStamped? then
      s.(table := Insert(CAPACITY, s.table, h.value.key, h.value.ts))
    else if h.Some? && act.RemoveKey? then
      s.(table := s.table - {h.value.key})
    else if h.Some? && act.Submit? && act.room && h.value.CompleteStamped? then
      s.(ring := s.ring + [EventOf(h.value.MatchAt(h.value.now))])
    else if act.StampIssue? then
      s.(clock := Max(s.clock, act.ts))
    else if act.StampComplete? then
      s.(clock := Max(s.clock, act.now))
    else s
  }

  function Next(devT: U32, s: State, m: Micro): Option<State> {
    var h' := Advance(devT, s.table, At(s, m.id), m.act);
    if h'.None? then None
    else Some(Shared(s, At(s, m.id), m.act).(handlers := s.handlers[m.id := h'.value]))
  }

  // The state after a run, or None when some step was not possible.
  function Exec(devT: U32, run: seq<Micro>): Option<State> {
    if run == [] then Some(INIT)
    else
      match Exec(devT, run[..|run| - 1])
      case None => None
      case Some(s) => Next(devT, s, run[|run| - 1])
  }

  // Every step of the run is taken in a state in which p allows it.
  ghost predicate Always(devT: U32, run: seq<Micro>, p: (State, Micro) -> bool) {
    run == [] ||
    var before := run[..|run| - 1];
    Always(devT, before, p) && (Exec(devT, before).Some? ==> p(Exec(devT, before).value, run[|run| - 1]))
  }

  // No completion reads an earlier time than has been read before it, on any CPU.
  ghost predicate ClockForward(s: State, m: Micro) {
    m.act.StampComplete? ==> s.clock <= m.act.now
  }

  // ---- Linearization -----------------------------------------------------

  // One handler as an atomic step.
  datatype Op = Op(id: nat, step: Step)

  // What handler id will have read by the end of the run.
  function NowOf(end: State, id: nat): U64 {
    if id in end.handlers && (end.handlers[id].CompleteStamped? || end.handlers[id].CompleteDone?)
    then end.handlers[id].now else 0
  }

  function RoomOf(end: State, id: nat): bool {
    id in end.handlers && end.handlers[id].CompleteDone? && end.handlers[id].room
  }

  // An issue takes effect at its insert, a completion that hits at its remove,
  // one that misses at its get. The other steps take no effect.
  function Effect(end: State, s: State, m: Micro): seq<Op> {
    if m.id !in s.handlers then []
    else
      var h := s.handlers[m.id];
      if m.act.InsertKey? && h.IssueStamped? then
        [Op(m.id, Issue(Some(h.key.dev), Some(h.key.sector), h.ts))]
      else if m.act.GetKey? && h.CompleteBegun? && h.key !in s.table then
        [Op(m.id, Complete(Some(h.key.dev), Some(h.key.sector), 0, h.payload.nrSector, h.payload.rwbs, false))]
      else if m.act.RemoveKey? && h.CompleteGot? then
        [Op(m.id, Complete(Some(h.key.dev), Some(h.key.sector), NowOf(end, m.id),
                           h.payload.nrSector, h.payload.rwbs, RoomOf(end, m.id)))]
      else []
  }

  function Linearized(devT: U32, end: State, run: seq<Micro>): seq<Op> {
    if run == [] then []
    else
      var before := run[..|run| - 1];
      Linearized(devT, end, before) +
      if Exec(devT, before).None? then [] else Effect(end, Exec(devT, before).value, run[|run| - 1])
  }

  function Steps(ops: seq<Op>): seq<Step> {
    seq(|ops|, i requires 0 <= i < |ops| => ops[i].step)
  }

  // ---- Order -------------------------------------------------------------

  function IsOp(id: nat): Op -> int {
    (op: Op) => if op.id == id then 1 else 0
  }

  predicate TookEffect(s: State, id: nat) {
    id in s.handlers &&
    var h := s.handlers[id];
    !h.IssueBegun? && !h.IssueStamped? && !h.CompleteBegun? && !h.CompleteGot?
  }

  lemma {:induction false} StepEffect(devT: U32, end: State, s: State, m: Micro, id: nat)
    requires Next(devT, s, m).Some?
    ensures Sum(Effect(end, s, m), IsOp(id)) ==
            if !TookEffect(s, id) && TookEffect(Next(devT, s, m).value, id) then 1 else 0
    ensures TookEffect(s, id) ==> TookEffect(Next(devT, s, m).value, id)
  {
    var e := Effect(end, s, m);
    assert |e| == 1 ==> e[..0] == [];
  }

  // A handler takes effect exactly once, between its first and its last step.
  lemma {:induction false} OneEffectEach(devT: U32, end: State, run: seq<Micro>, id: nat)
    requires Exec(devT, run).Some?
    ensures Sum(Linearized(devT, end, run), IsOp(id)) == if TookEffect(Exec(devT, run).value, id) then 1 else 0
  {
    if run != [] {
      var before, m := run[..|run| - 1], run[|run| - 1];
      var s := Exec(devT, before).value;
      OneEffectEach(devT, end, before, id);
      StepEffect(devT, end, s, m, id);
      SumConcat(Linearized(devT, end, before), Effect(end, s, m), IsOp(id));
    }
  }

  lemma {:induction false} LinearizedPrefix(devT: U32, end: State, run: seq<Micro>, i: nat)
    requires i <= |run|
    ensures Linearized(devT, end, run[..i]) <= Linearized(devT, end, run)
  {
    if i < |run| {
      LinearizedPrefix(devT, end, run[..|run| - 1], i);
      assert run[..|run| - 1][..i] == run[..i];
    } else {
      assert run[..i] == run;
    }
  }

  lemma {:induction false} SumPositive(ops: seq<Op>, id: nat)
    ensures 0 <= Sum(ops, IsOp(id))
    ensures Sum(ops, IsOp(id)) == 0 ==> forall q :: 0 <= q < |ops| ==> ops[q].id != id
  {
    if ops != [] {
      SumPositive(ops[..|ops| - 1], id);
    }
  }

  // The linearization keeps real-time order: a handler that has returned
  // before another begins comes before it.
  lemma {:induction false} RealTimeOrder(devT: U32, run: seq<Micro>, i: nat, a: nat, b: nat, p: nat, q: nat)
    requires i <= |run| && Exec(devT, run).Some? && Exec(devT, run[..i]).Some?
    requires a in Exec(devT, run[..i]).value.handlers && !Exec(devT, run[..i]).value.handlers[a].Running()
    requires b !in Exec(devT, run[..i]).value.handlers
    requires var ops := Linearized(devT, Exec(devT, run).value, run);
             p < |ops| && q < |ops| && ops[p].id == a && ops[q].id == b
    ensures p < q
  {
    var end := Exec(devT, run).value;
    var ops, early := Linearized(devT, end, run), Linearized(devT, end, run[..i]);
    LinearizedPrefix(devT, end, run, i);
    var late := ops[|early|..];
    assert ops == early + late;
    OneEffectEach(devT, end, run[..i], a);
    OneEffectEach(devT, end, run, a);
    OneEffectEach(devT, end, run[..i], b);
    SumConcat(early, late, IsOp(a));
    SumPositive(late, a);
    SumPositive(early, b);
    assert forall x :: |early| <= x < |ops| ==> ops[x] == late[x - |early|];
  }

  // ---- Clock -------------------------------------------------------------

  ghost predicate HandlerInTime(s: State, id: nat) {
    id in s.handlers ==>
      var h := s.handlers[id];
      && (h.IssueStamped? || h.CompleteGot? || h.CompleteRemoved? ==> h.ts <= s.clock)
      && (h.CompleteStamped? || h.CompleteDone? ==> h.ts <= h.now <= s.clock)
  }

  ghost predicate TableInTime(s: State) {
    forall k :: k in s.table ==> s.table[k] <= s.clock
  }

  lemma {:induction false} RunInTime(devT: U32, run: seq<Micro>)
    requires Exec(devT, run).Some? && Always(devT, run, ClockForward)
    ensures TableInTime(Exec(devT, run).value)
    ensures forall id :: HandlerInTime(Exec(devT, run).value, id)
  {
    if run != [] {
      var before, m := run[..|run| - 1], run[|run| - 1];
      var s := Exec(devT, before).value;
      RunInTime(devT, before);
      assert HandlerInTime(s, m.id);
      forall id
        ensures HandlerInTime(Exec(devT, run).value, id)
      {
        assert HandlerInTime(s, id);
      }
    }
  }
}
