/**
The operator-nonce protocol of the relay as a step relation.

Request handlers, the detached submit tasks they spawn and one periodic reconciler share a gate (the
async mutex around the cached nonce), an in-flight counter, a last-success timestamp and the dedupe
placeholders. Each constructor of `Step` is one atomic action of one of those actors or of the
environment. What a request does under the gate is split wherever another actor can observe it.
*/
module NonceProtocol {
  import opened Common

  type Hash = nat

  /** Where a request stands, from the moment its handler holds the gate until its task is gone. */
  datatype Phase =
    | Admitting                // the handler holds the gate, the dedupe checks have passed
    | Counted                  // the in-flight counter has been incremented
    | Placed                   // the placeholder is stored
    | Queued                   // the gate is released and the submit task spawned
    | Holding(resynced: bool)  // the submit task holds the gate and is about to fetch or submit
    | Resyncing                // the first nonce-related refusal: about to re-read the chain nonce
    | Failing                  // the error is decided, the placeholder still stored
    | Accepted                 // the node said Ok, the counter has not been advanced
    | Settling                 // counter advanced and gate released, success time not stored
    | Recording                // success time stored, the rest of the bookkeeping to do
    | Finishing                // only the drop of the in-flight guard is left
    | Done

  datatype Task = Task(hash: Hash, phase: Phase, turn: nat, attempts: nat)

  datatype Gate = Free | Request(id: nat) | Reconciler

  datatype Reconcile = Idle | Fetched(chainNext: nat, at: nat) | Locked(chainNext: nat, at: nat)

  /** What the submits and the assignments of the cached counter did, in the order they happened. */
  datatype Event =
    | Reset(counter: Option<nat>)
    | SubmitOk(id: nat, hash: Hash, nonce: nat, turn: nat, time: nat)
    | SubmitRefused(id: nat, nonce: nat, turn: nat)

  datatype State = State(
    quiet: nat,                  // the quiet period of the reconciler, in seconds
    clock: nat,                  // seconds
    gate: Gate,
    cached: Option<nat>,
    inflight: int,
    lastOk: nat,
    placeholders: set<Hash>,
    tasks: map<nat, Task>,
    rec: Reconcile,
    turns: nat,                  // how often a task has acquired the gate
    log: seq<Event>)

  datatype Reply = Admitted | NonceRefused | OtherError

  datatype Step =
    | Enter(id: nat, hash: Hash, settled: bool)
    | Count(id: nat)
    | Place(id: nat)
    | Spawn(id: nat)
    | Acquire(id: nat)
    | Fetch(id: nat, next: Option<nat>)
    | Submit(id: nat, reply: Reply)
    | Resync(id: nat, next: Option<nat>)
    | Unplace(id: nat)
    | Advance(id: nat)
    | StoreOk(id: nat)
    | Record(id: nat)
    | Finish(id: nat)
    | Panic(id: nat)
    | ReconcileFetch(next: Option<nat>)
    | ReconcileLock
    | ReconcileDecide
    | Tick(seconds: nat)
    | Evict(hash: Hash)

  predicate In(s: State, id: nat, phase: Phase) {
    id in s.tasks && s.tasks[id].phase == phase
  }

  predicate HoldsGate(p: Phase) {
    p.Admitting? || p.Counted? || p.Placed? || p.Holding? || p.Resyncing? || p.Failing? || p.Accepted?
  }

  /** The places where the source can panic; none lies between the node's Ok and the stored time. */
  predicate MayPanic(p: Phase) {
    p.Queued? || p.Holding? || p.Resyncing? || p.Failing? || p.Recording?
  }

  predicate Enabled(s: State, step: Step) {
    match step
    case Enter(id, _, _) => s.gate.Free? && id !in s.tasks
    case Count(id) => In(s, id, Admitting)
    case Place(id) => In(s, id, Counted)
    case Spawn(id) => In(s, id, Placed)
    case Acquire(id) => s.gate.Free? && In(s, id, Queued)
    case Fetch(id, _) => In(s, id, Holding(false)) && s.cached.None?
    case Submit(id, _) => id in s.tasks && s.tasks[id].phase.Holding? && s.cached.Some?
    case Resync(id, _) => In(s, id, Resyncing)
    case Unplace(id) => In(s, id, Failing)
    case Advance(id) => In(s, id, Accepted) && s.cached.Some?
    case StoreOk(id) => In(s, id, Settling)
    case Record(id) => In(s, id, Recording)
    case Finish(id) => In(s, id, Finishing)
    case Panic(id) => id in s.tasks && MayPanic(s.tasks[id].phase)
    case ReconcileFetch(_) => s.rec.Idle?
    case ReconcileLock => s.rec.Fetched? && s.gate.Free?
    case ReconcileDecide => s.rec.Locked?
    case Tick(_) => true
    case Evict(_) => true
  }

  function SetPhase(s: State, id: nat, p: Phase): (r: State)
    requires id in s.tasks
  {
    s.(tasks := s.tasks[id := s.tasks[id].(phase := p)])
  }

  function SetCounter(s: State, c: Option<nat>): State {
    s.(cached := c, log := s.log + [Reset(c)])
  }

  function SubmitStep(s: State, id: nat, reply: Reply): State
    requires Enabled(s, Submit(id, reply))
  {
    var t := s.tasks[id];
    var n := s.cached.value;
    var p := match reply
      case Admitted => Accepted
      case NonceRefused => if t.phase.resynced then Failing else Resyncing
      case OtherError => Failing;
    var s1 := s.(tasks := s.tasks[id := t.(phase := p, attempts := t.attempts + 1)],
                 log := s.log + [if reply.Admitted? then SubmitOk(id, t.hash, n, t.turn, s.clock)
                                 else SubmitRefused(id, n, t.turn)]);
    if reply.NonceRefused? && t.phase.resynced then SetCounter(s1, None) else s1
  }

  /** True when the reconciler holding the gate would step the cached nonce down. */
  predicate StepsDown(s: State)
    requires s.rec.Locked?
  {
    s.cached.Some? && s.rec.chainNext < s.cached.value && s.inflight == 0 && s.clock - s.lastOk >= s.quiet
  }

  function DecideStep(s: State): State
    requires s.rec.Locked?
  {
    var s1 := s.(rec := Idle, gate := Free);
    if s.cached.Some? && (s.rec.chainNext > s.cached.value || StepsDown(s))
    then SetCounter(s1, Some(s.rec.chainNext))
    else s1
  }

  function Do(s: State, step: Step): State
    requires Enabled(s, step)
  {
    match step
    case Enter(id, hash, settled) =>
      if hash in s.placeholders || settled then s
      else s.(gate := Request(id), tasks := s.tasks[id := Task(hash, Admitting, 0, 0)])
    case Count(id) => SetPhase(s, id, Counted).(inflight := s.inflight + 1)
    case Place(id) => SetPhase(s, id, Placed).(placeholders := s.placeholders + {s.tasks[id].hash})
    case Spawn(id) => SetPhase(s, id, Queued).(gate := Free)
    case Acquire(id) =>
      s.(gate := Request(id), turns := s.turns + 1,
         tasks := s.tasks[id := s.tasks[id].(phase := Holding(false), turn := s.turns + 1)])
    case Fetch(id, next) =>
      if next.Some? then SetCounter(s, next) else SetPhase(s, id, Failing)
    case Submit(id, reply) => SubmitStep(s, id, reply)
    case Resync(id, next) =>
      SetCounter(SetPhase(s, id, if next.Some? then Holding(true) else Failing), next)
    case Unplace(id) =>
      SetPhase(s, id, Finishing).(placeholders := s.placeholders - {s.tasks[id].hash}, gate := Free)
    case Advance(id) => SetPhase(s, id, Settling).(cached := Some(s.cached.value + 1), gate := Free)
    case StoreOk(id) => SetPhase(s, id, Recording).(lastOk := s.clock)
    case Record(id) => SetPhase(s, id, Finishing)
    case Finish(id) => SetPhase(s, id, Done).(inflight := s.inflight - 1)
    case Panic(id) =>
      SetPhase(s, id, Finishing).(gate := if HoldsGate(s.tasks[id].phase) then Free else s.gate)
    case ReconcileFetch(next) =>
      if next.Some? then s.(rec := Fetched(next.value, s.clock)) else s
    case ReconcileLock => s.(rec := Locked(s.rec.chainNext, s.rec.at), gate := Reconciler)
    case ReconcileDecide => DecideStep(s)
    case Tick(seconds) => s.(clock := s.clock + seconds)
    case Evict(hash) => s.(placeholders := s.placeholders - {hash})
  }

  function Start(quiet: nat, clock: nat): State {
    State(quiet, clock, Free, None, 0, 0, {}, map[], Idle, 0, [])
  }

  /** The state a schedule leads to, or None when some step of it is not enabled. */
  function Run(s: State, steps: seq<Step>): Option<State> {
    if steps == [] then Some(s)
    else
      var r := Run(s, steps[..|steps| - 1]);
      var last := steps[|steps| - 1];
      if r.Some? && Enabled(r.value, last) then Some(Do(r.value, last)) else None
  }

  // ----- the in-flight counter and the quiet period

  predicate IsLive(p: Phase) { !p.Admitting? && !p.Done? }

  /** The submit tasks alive: from the increment of the counter to the drop of the guard. */
  function Live(tasks: map<nat, Task>): set<nat> {
    set id | id in tasks && IsLive(tasks[id].phase)
  }

  ghost predicate GateInv(s: State) {
    && (forall id :: id in s.tasks && HoldsGate(s.tasks[id].phase) ==> s.gate == Request(id))
    && (s.rec.Locked? <==> s.gate.Reconciler?)
    && (s.gate.Request? ==> s.gate.id in s.tasks && HoldsGate(s.tasks[s.gate.id].phase))
  }

  ghost predicate InflightInv(s: State) { s.inflight == |Live(s.tasks)| }

  /** An accepted submit is either covered by the stored time or its task has yet to store it. */
  ghost predicate QuietInv(s: State) {
    && s.lastOk <= s.clock
    && forall i :: 0 <= i < |s.log| && s.log[i].SubmitOk? ==>
         && s.log[i].time <= s.clock
         && (s.log[i].time <= s.lastOk || In(s, s.log[i].id, Accepted) || In(s, s.log[i].id, Settling))
  }

  lemma GateStep(s: State, step: Step)
    requires GateInv(s) && Enabled(s, step)
    ensures GateInv(Do(s, step))
  {
  }

  lemma LiveUpdate(tasks: map<nat, Task>, id: nat, t: Task)
    ensures var before, after := Live(tasks), Live(tasks[id := t]);
            && (IsLive(t.phase) && id in before ==> |after| == |before|)
            && (IsLive(t.phase) && id !in before ==> |after| == |before| + 1)
            && (!IsLive(t.phase) && id in before ==> |after| == |before| - 1)
            && (!IsLive(t.phase) && id !in before ==> |after| == |before|)
  {
    var before, after := Live(tasks), Live(tasks[id := t]);
    if IsLive(t.phase) {
      assert after == before + {id};
    } else {
      assert after == before - {id};
    }
  }

  lemma InflightStep(s: State, step: Step)
    requires InflightInv(s) && Enabled(s, step)
    ensures InflightInv(Do(s, step))
  {
    if !(step.ReconcileFetch? || step.ReconcileLock? || step.ReconcileDecide? || step.Tick? || step.Evict?) {
      var after := Do(s, step).tasks;
      if step.id in after {
        LiveUpdate(s.tasks, step.id, after[step.id]);
        assert after == s.tasks[step.id := after[step.id]];
      }
    }
  }

  lemma QuietStep(s: State, step: Step)
    requires QuietInv(s) && Enabled(s, step)
    ensures QuietInv(Do(s, step))
  {
  }

  /**
  In every interleaving, when the reconciler lowers the cached nonce no submit task is alive, and every
  submit the node ever accepted lies at least the quiet period back.
  */
  lemma {:induction false} LoweringIsQuiet(quiet: nat, clock: nat, steps: seq<Step>, s: State)
    requires Run(Start(quiet, clock), steps) == Some(s)
    requires s.rec.Locked? && s.cached.Some? && DecideStep(s).cached.Some?
    requires DecideStep(s).cached.value < s.cached.value
    ensures Live(s.tasks) == {}
    ensures forall i :: 0 <= i < |s.log| && s.log[i].SubmitOk? ==> s.log[i].time + quiet <= s.clock
  {
    Reachable(quiet, clock, steps, s);
    forall i | 0 <= i < |s.log| && s.log[i].SubmitOk?
      ensures s.log[i].time + quiet <= s.clock
    {
      assert s.log[i].id !in Live(s.tasks);
    }
  }

  lemma {:induction false} InflightCountsLiveTasks(quiet: nat, clock: nat, steps: seq<Step>, s: State)
    requires Run(Start(quiet, clock), steps) == Some(s)
    ensures s.inflight == |Live(s.tasks)|
  {
    Reachable(quiet, clock, steps, s);
  }

  // ----- nonces, attempts and gate order

  /** The cached counter that a log of resets and submits amounts to. */
  function Counter(log: seq<Event>): Option<nat> {
    if log == [] then None
    else
      match log[|log| - 1]
      case Reset(c) => c
      case SubmitOk(_, _, n, _, _) => Some(n + 1)
      case SubmitRefused(_, _, _) => Counter(log[..|log| - 1])
  }

  /** Every submit carries the counter as the log before it left it. */
  ghost predicate Consistent(log: seq<Event>) {
    forall i :: 0 <= i < |log| && !log[i].Reset? ==> Counter(log[..i]) == Some(log[i].nonce)
  }

  function Attempts(log: seq<Event>, id: nat): nat {
    if log == [] then 0
    else Attempts(log[..|log| - 1], id) + if !log[|log| - 1].Reset? && log[|log| - 1].id == id then 1 else 0
  }

  /** The node has accepted the submit made under the gate and the counter is not advanced yet. */
  predicate AwaitingAdvance(s: State) {
    s.gate.Request? && In(s, s.gate.id, Accepted)
  }

  ghost predicate LogInv(s: State) {
    && Consistent(s.log)
    && if AwaitingAdvance(s) then s.cached.Some? && Counter(s.log) == Some(s.cached.value + 1)
       else s.cached == Counter(s.log)
  }

  function AttemptsMade(s: State, id: nat): nat {
    if id in s.tasks then s.tasks[id].attempts else 0
  }

  ghost predicate AttemptInv(s: State) {
    && (forall id :: Attempts(s.log, id) == AttemptsMade(s, id))
    && (forall id :: id in s.tasks ==> AttemptBound(s.tasks[id]))
  }

  predicate AttemptBound(t: Task) {
    match t.phase
    case Holding(resynced) => t.attempts == (if resynced then 1 else 0)
    case Resyncing => t.attempts == 1
    case Admitting => t.attempts == 0
    case Counted => t.attempts == 0
    case Placed => t.attempts == 0
    case Queued => t.attempts == 0
    case _ => t.attempts <= 2
  }

  predicate Submitting(p: Phase) { p.Holding? || p.Resyncing? || p.Failing? || p.Accepted? }

  /** Accepted submits appear in the log in the order in which their tasks acquired the gate. */
  ghost predicate TurnInv(s: State) {
    && (forall i :: 0 <= i < |s.log| && s.log[i].SubmitOk? ==> s.log[i].turn <= s.turns)
    && (forall i, j :: 0 <= i < j < |s.log| && s.log[i].SubmitOk? && s.log[j].SubmitOk? ==>
          s.log[i].turn < s.log[j].turn)
    && (forall id :: id in s.tasks && Submitting(s.tasks[id].phase) ==> s.tasks[id].turn == s.turns)
    && (forall id, i | id in s.tasks && (s.tasks[id].phase.Holding? || s.tasks[id].phase.Resyncing?)
                       && 0 <= i < |s.log| && s.log[i].SubmitOk? :: s.log[i].turn < s.turns)
  }

  lemma ConsistentAppend(log: seq<Event>, e: Event)
    requires Consistent(log)
    requires e.Reset? || Counter(log) == Some(e.nonce)
    ensures Consistent(log + [e])
  {
    var l := log + [e];
    forall i | 0 <= i < |l| && !l[i].Reset?
      ensures Counter(l[..i]) == Some(l[i].nonce)
    {
      assert l[..i] == log[..i];
      assert log[..|log|] == log;
    }
  }

  lemma CounterAppend(log: seq<Event>, e: Event)
    ensures Counter(log + [e]) == match e
                                  case Reset(c) => c
                                  case SubmitOk(_, _, n, _, _) => Some(n + 1)
                                  case SubmitRefused(_, _, _) => Counter(log)
  {
    assert (log + [e])[..|log|] == log;
  }

  lemma AttemptsAppend(log: seq<Event>, e: Event, id: nat)
    ensures Attempts(log + [e], id) == Attempts(log, id) + if !e.Reset? && e.id == id then 1 else 0
  {
    assert (log + [e])[..|log|] == log;
  }

  lemma LogStep(s: State, step: Step)
    requires GateInv(s) && LogInv(s) && Enabled(s, step)
    ensures LogInv(Do(s, step))
  {
    var s' := Do(s, step);
    if step.Submit? {
      SubmitLog(s, step.id, step.reply);
    } else if s'.log != s.log {
      ConsistentAppend(s.log, Reset(s'.cached));
      CounterAppend(s.log, Reset(s'.cached));
    }
  }

  lemma SubmitLog(s: State, id: nat, reply: Reply)
    requires GateInv(s) && LogInv(s) && Enabled(s, Submit(id, reply))
    ensures LogInv(SubmitStep(s, id, reply))
  {
    var e := if reply.Admitted? then SubmitOk(id, s.tasks[id].hash, s.cached.value, s.tasks[id].turn, s.clock)
             else SubmitRefused(id, s.cached.value, s.tasks[id].turn);
    ConsistentAppend(s.log, e);
    CounterAppend(s.log, e);
    ConsistentAppend(s.log + [e], Reset(None));
    CounterAppend(s.log + [e], Reset(None));
  }

  lemma AttemptsGrow(log: seq<Event>, e: Event, log': seq<Event>, id: nat)
    requires log' == log + [e] || log' == log + [e] + [Reset(None)]
    ensures Attempts(log', id) == Attempts(log, id) + if !e.Reset? && e.id == id then 1 else 0
  {
    AttemptsAppend(log, e, id);
    AttemptsAppend(log + [e], Reset(None), id);
  }

  /** A submit logs itself, and a reset after it when the retry was refused too. */
  lemma SubmitShape(s: State, who: nat, reply: Reply, id: nat) returns (e: Event)
    requires Enabled(s, Submit(who, reply))
    ensures var s' := SubmitStep(s, who, reply);
            && !e.Reset? && e.id == who
            && (s'.log == s.log + [e] || s'.log == s.log + [e] + [Reset(None)])
            && AttemptsMade(s', id) == AttemptsMade(s, id) + if who == id then 1 else 0
  {
    var t := s.tasks[who];
    e := if reply.Admitted? then SubmitOk(who, t.hash, s.cached.value, t.turn, s.clock)
         else SubmitRefused(who, s.cached.value, t.turn);
  }

  lemma SubmitAttempts(s: State, who: nat, reply: Reply, id: nat)
    requires Enabled(s, Submit(who, reply)) && Attempts(s.log, id) == AttemptsMade(s, id)
    ensures var s' := SubmitStep(s, who, reply); Attempts(s'.log, id) == AttemptsMade(s', id)
  {
    var e := SubmitShape(s, who, reply, id);
    AttemptsGrow(s.log, e, SubmitStep(s, who, reply).log, id);
  }

  /** Other steps make no attempt and append at most a reset. */
  lemma NoAttempt(s: State, step: Step, id: nat)
    requires Enabled(s, step) && !step.Submit?
    ensures var s' := Do(s, step);
            && AttemptsMade(s', id) == AttemptsMade(s, id)
            && (s'.log == s.log || s'.log == s.log + [Reset(s'.cached)])
  {
  }

  lemma AttemptsLogged(s: State, step: Step, id: nat)
    requires Enabled(s, step) && Attempts(s.log, id) == AttemptsMade(s, id)
    ensures Attempts(Do(s, step).log, id) == AttemptsMade(Do(s, step), id)
  {
    if step.Submit? {
      SubmitAttempts(s, step.id, step.reply, id);
    } else {
      NoAttempt(s, step, id);
      AttemptsAppend(s.log, Reset(Do(s, step).cached), id);
    }
  }

  lemma AttemptStep(s: State, step: Step)
    requires AttemptInv(s) && Enabled(s, step)
    ensures AttemptInv(Do(s, step))
  {
    forall id
      ensures Attempts(Do(s, step).log, id) == AttemptsMade(Do(s, step), id)
    {
      AttemptsLogged(s, step, id);
    }
  }

  /** Nobody acquires the gate or submits: no task starts submitting and the log gains at most a reset. */
  ghost predicate Calm(s: State, s': State) {
    && s'.turns == s.turns
    && (s'.log == s.log || s'.log == s.log + [Reset(s'.cached)])
    && forall id :: id in s'.tasks && Submitting(s'.tasks[id].phase) ==>
         && id in s.tasks && Submitting(s.tasks[id].phase) && s'.tasks[id].turn == s.tasks[id].turn
         && (s'.tasks[id].phase.Holding? || s'.tasks[id].phase.Resyncing? ==>
               s.tasks[id].phase.Holding? || s.tasks[id].phase.Resyncing?)
  }

  lemma CalmStep(s: State, step: Step)
    requires Enabled(s, step) && !step.Acquire? && !step.Submit?
    ensures Calm(s, Do(s, step))
  {
  }

  lemma CalmTurn(s: State, s': State)
    requires TurnInv(s) && Calm(s, s')
    ensures TurnInv(s')
  {
  }

  lemma TurnStep(s: State, step: Step)
    requires GateInv(s) && TurnInv(s) && Enabled(s, step)
    ensures TurnInv(Do(s, step))
  {
    if !step.Acquire? && !step.Submit? {
      CalmStep(s, step);
      CalmTurn(s, Do(s, step));
    }
  }

  // ----- whole runs

  ghost predicate Inv(s: State) {
    GateInv(s) && InflightInv(s) && QuietInv(s) && LogInv(s) && AttemptInv(s) && TurnInv(s)
  }

  lemma {:induction false} Reachable(quiet: nat, clock: nat, steps: seq<Step>, s: State)
    requires Run(Start(quiet, clock), steps) == Some(s)
    ensures Inv(s) && s.quiet == quiet
  {
    if steps == [] {
      assert Live(s.tasks) == {};
    } else {
      var before, last := steps[..|steps| - 1], steps[|steps| - 1];
      var p := Run(Start(quiet, clock), before).value;
      Reachable(quiet, clock, before, p);
      GateStep(p, last);
      InflightStep(p, last);
      QuietStep(p, last);
      LogStep(p, last);
      AttemptStep(p, last);
      TurnStep(p, last);
    }
  }

  function Oks(log: seq<Event>, i: nat, j: nat): nat
    requires i <= j <= |log|
    decreases j - i
  {
    if i == j then 0 else Oks(log, i, j - 1) + if log[j - 1].SubmitOk? then 1 else 0
  }

  lemma CounterPrefix(log: seq<Event>, j: nat)
    requires j < |log| && !log[j].Reset? && Counter(log[..j]) == Some(log[j].nonce)
    ensures Counter(log[..j + 1]) == Some(log[j].nonce + if log[j].SubmitOk? then 1 else 0)
  {
    assert log[..j + 1] == log[..j] + [log[j]];
    CounterAppend(log[..j], log[j]);
  }

  lemma {:induction false} CounterSpan(log: seq<Event>, i: nat, j: nat)
    requires i <= j <= |log| && Consistent(log) && Counter(log[..i]).Some?
    requires forall k :: i <= k < j ==> !log[k].Reset?
    ensures Counter(log[..j]) == Some(Counter(log[..i]).value + Oks(log, i, j))
    decreases j - i
  {
    if i < j {
      CounterSpan(log, i, j - 1);
      CounterPrefix(log, j - 1);
    }
  }

  /**
  Between two resets of the counter the submits carry consecutive nonces: a later submit's nonce is an
  earlier one's plus the number of acceptances from it on, so a refused submit moves nothing. Accepted
  submits are logged in the order of the gate, and no task submits more than twice.
  */
  lemma {:induction false} SubmitsAreConsecutive(quiet: nat, clock: nat, steps: seq<Step>, s: State, i: nat, j: nat)
    requires Run(Start(quiet, clock), steps) == Some(s)
    requires i < j < |s.log| && forall k :: i <= k <= j ==> !s.log[k].Reset?
    ensures s.log[j].nonce == s.log[i].nonce + Oks(s.log, i, j)
    ensures s.log[i].SubmitOk? && s.log[j].SubmitOk? ==> s.log[i].turn < s.log[j].turn
    ensures forall id :: Attempts(s.log, id) <= 2
  {
    Reachable(quiet, clock, steps, s);
    CounterSpan(s.log, i, j);
    forall id
      ensures Attempts(s.log, id) <= 2
    {
      assert Attempts(s.log, id) == AttemptsMade(s, id);
    }
  }

  /** With the gate free the cache is what the log of submits and resets amounts to. */
  lemma {:induction false} FreeGateCache(quiet: nat, clock: nat, steps: seq<Step>, s: State)
    requires Run(Start(quiet, clock), steps) == Some(s) && s.gate.Free?
    ensures s.cached == Counter(s.log)
  {
    Reachable(quiet, clock, steps, s);
  }

  // ----- dedupe, as long as no placeholder is evicted

  predicate Unsettled(p: Phase) { !p.Finishing? && !p.Done? }

  predicate Stored(p: Phase) { Unsettled(p) && !p.Admitting? && !p.Counted? }

  predicate PastOk(p: Phase) { p.Accepted? || p.Settling? || p.Recording? }

  ghost predicate DedupeInv(s: State) {
    && (forall id :: id in s.tasks && Unsettled(s.tasks[id].phase) ==>
          (Stored(s.tasks[id].phase) <==> s.tasks[id].hash in s.placeholders))
    && (forall i, j | i in s.tasks && j in s.tasks && i != j && Unsettled(s.tasks[i].phase)
                      && Unsettled(s.tasks[j].phase) :: s.tasks[i].hash != s.tasks[j].hash)
  }

  ghost predicate OkInv(s: State) {
    && (forall i :: 0 <= i < |s.log| && s.log[i].SubmitOk? ==> s.log[i].hash in s.placeholders)
    && (forall i, id | 0 <= i < |s.log| && s.log[i].SubmitOk? && id in s.tasks && Unsettled(s.tasks[id].phase)
                       && s.tasks[id].hash == s.log[i].hash :: PastOk(s.tasks[id].phase))
    && (forall i, j :: 0 <= i < j < |s.log| && s.log[i].SubmitOk? && s.log[j].SubmitOk? ==>
          s.log[i].hash != s.log[j].hash)
  }

  /** No placeholder and no hash changes, and no phase moves back across the points DedupeInv and OkInv mention. */
  ghost predicate OnlyMovesOn(s: State, s': State) {
    && s'.placeholders == s.placeholders && s'.tasks.Keys == s.tasks.Keys
    && forall id :: id in s.tasks ==>
         && s'.tasks[id].hash == s.tasks[id].hash
         && (Unsettled(s'.tasks[id].phase) ==>
               && Unsettled(s.tasks[id].phase)
               && Stored(s'.tasks[id].phase) == Stored(s.tasks[id].phase)
               && (PastOk(s.tasks[id].phase) ==> PastOk(s'.tasks[id].phase)))
  }

  predicate TouchesPlaceholders(step: Step) {
    step.Enter? || step.Place? || step.Unplace? || step.Evict?
  }

  predicate UnderGate(step: Step) {
    step.Count? || step.Spawn? || step.Acquire? || step.Fetch? || step.Submit? || step.Resync?
  }

  lemma SubmitMovesOn(s: State, id: nat, reply: Reply)
    requires Enabled(s, Submit(id, reply))
    ensures OnlyMovesOn(s, SubmitStep(s, id, reply))
  {
  }

  lemma MovesOnUnderGate(s: State, step: Step)
    requires Enabled(s, step) && UnderGate(step)
    ensures OnlyMovesOn(s, Do(s, step))
  {
    if step.Submit? {
      SubmitMovesOn(s, step.id, step.reply);
    }
  }

  lemma MovesOnAfter(s: State, step: Step)
    requires Enabled(s, step) && !TouchesPlaceholders(step) && !UnderGate(step)
    ensures OnlyMovesOn(s, Do(s, step))
  {
  }

  lemma MovesOn(s: State, step: Step)
    requires Enabled(s, step) && !TouchesPlaceholders(step)
    ensures OnlyMovesOn(s, Do(s, step))
  {
    if UnderGate(step) {
      MovesOnUnderGate(s, step);
    } else {
      MovesOnAfter(s, step);
    }
  }

  lemma DedupeStep(s: State, step: Step)
    requires GateInv(s) && DedupeInv(s) && Enabled(s, step) && !step.Evict?
    ensures DedupeInv(Do(s, step))
  {
    if !TouchesPlaceholders(step) {
      MovesOn(s, step);
      DedupeMoves(s, Do(s, step));
    }
  }

  lemma DedupeMoves(s: State, s': State)
    requires DedupeInv(s) && OnlyMovesOn(s, s')
    ensures DedupeInv(s')
  {
  }

  lemma OkMoves(s: State, s': State)
    requires OkInv(s) && OnlyMovesOn(s, s')
    requires forall i :: 0 <= i < |s'.log| && s'.log[i].SubmitOk? ==> i < |s.log| && s'.log[i] == s.log[i]
    ensures OkInv(s')
  {
  }

  lemma NoNewOk(s: State, step: Step)
    requires Enabled(s, step) && !(step.Submit? && step.reply.Admitted?)
    ensures var log := Do(s, step).log;
            forall i :: 0 <= i < |log| && log[i].SubmitOk? ==> i < |s.log| && log[i] == s.log[i]
  {
  }

  lemma OkStep(s: State, step: Step)
    requires GateInv(s) && DedupeInv(s) && OkInv(s) && Enabled(s, step) && !step.Evict?
    ensures OkInv(Do(s, step))
  {
    if !TouchesPlaceholders(step) && !(step.Submit? && step.reply.Admitted?) {
      MovesOn(s, step);
      NoNewOk(s, step);
      OkMoves(s, Do(s, step));
    }
  }

  /**
  Absent eviction every unsettled task past its handler has its placeholder stored, no two unsettled tasks
  share a hash, and no hash is accepted by the node twice.
  */
  lemma {:induction false} OneOkPerHash(quiet: nat, clock: nat, steps: seq<Step>, s: State)
    requires Run(Start(quiet, clock), steps) == Some(s)
    requires forall i :: 0 <= i < |steps| ==> !steps[i].Evict?
    ensures DedupeInv(s) && OkInv(s)
  {
    if steps != [] {
      var before, last := steps[..|steps| - 1], steps[|steps| - 1];
      var p := Run(Start(quiet, clock), before).value;
      OneOkPerHash(quiet, clock, before, p);
      Reachable(quiet, clock, before, p);
      DedupeStep(p, last);
      OkStep(p, last);
    }
  }

  // ----- what the reconciler decides

  /**
  Holding the gate with a chain nonce read, the reconciler takes the chain's nonce when the chain is ahead of a
  populated cache, and when it is behind with no submit alive and the last success a quiet period ago. Whatever it
  decides, it gives the gate back and touches nothing else.
  */
  lemma ReconcilerDecides(s: State)
    requires s.rec.Locked?
    ensures var s', chain := Do(s, ReconcileDecide), s.rec.chainNext;
            && (s'.cached == Some(chain) <==>
                  && s.cached.Some?
                  && (chain >= s.cached.value || (s.inflight == 0 && s.clock - s.lastOk >= s.quiet)))
            && (s'.cached != Some(chain) ==> s'.cached == s.cached)
            && s' == s.(cached := s'.cached, log := s'.log, gate := Free, rec := Idle)
  {
  }

  lemma {:induction false} RunConcat(s: State, p: seq<Step>, q: seq<Step>)
    requires Run(s, p).Some?
    ensures Run(s, p + q) == Run(Run(s, p).value, q)
  {
    if q == [] {
      assert p + q == p;
    } else {
      assert (p + q)[..|p + q| - 1] == p + q[..|q| - 1];
      RunConcat(s, p, q[..|q| - 1]);
    }
  }

  lemma LogStepGrows(s: State, step: Step)
    requires Enabled(s, step)
    ensures |s.log| <= |Do(s, step).log| && Do(s, step).log[..|s.log|] == s.log
  {
  }

  lemma {:induction false} LogGrows(s: State, steps: seq<Step>, s': State)
    requires Run(s, steps) == Some(s')
    ensures |s.log| <= |s'.log| && s'.log[..|s.log|] == s.log
  {
    if steps != [] {
      var before, last := steps[..|steps| - 1], steps[|steps| - 1];
      var p := Run(s, before).value;
      LogGrows(s, before, p);
      LogStepGrows(p, last);
      assert s'.log[..|s.log|] == s'.log[..|p.log|][..|s.log|];
    }
  }

  /**
  After the reconciler found the chain ahead, the next submit carries the chain's nonce, unless the counter is set
  again before it.
  */
  lemma NextSubmitAfterResync(quiet: nat, clock: nat, steps: seq<Step>, s: State, more: seq<Step>, s': State)
    requires Run(Start(quiet, clock), steps) == Some(s) && s.rec.Locked?
    requires s.cached.Some? && s.rec.chainNext > s.cached.value
    requires Run(Do(s, ReconcileDecide), more) == Some(s')
    ensures var n := |Do(s, ReconcileDecide).log|;
            n <= |s'.log| && (n < |s'.log| && !s'.log[n].Reset? ==> s'.log[n].nonce == s.rec.chainNext)
  {
    var d := Do(s, ReconcileDecide);
    var n := |d.log|;
    RunConcat(Start(quiet, clock), steps, [ReconcileDecide]);
    assert [ReconcileDecide][..0] == [] && Run(s, [ReconcileDecide]) == Some(d);
    RunConcat(Start(quiet, clock), steps + [ReconcileDecide], more);
    Reachable(quiet, clock, steps + [ReconcileDecide], d);
    Reachable(quiet, clock, steps + [ReconcileDecide] + more, s');
    ReconcilerDecides(s);
    LogGrows(d, more, s');
    assert n < |s'.log| && !s'.log[n].Reset? ==> Counter(s'.log[..n]) == Some(s'.log[n].nonce);
  }

  // ----- what becomes of a request

  /** A known or settled transaction is answered without a task; any other enters and holds the gate. */
  lemma EnterExactlyWhen(s: State, id: nat, hash: Hash, settled: bool)
    requires Enabled(s, Enter(id, hash, settled))
    ensures var s' := Do(s, Enter(id, hash, settled));
            if hash in s.placeholders || settled then s' == s
            else In(s', id, Admitting) && s'.tasks[id].hash == hash && s'.gate == Request(id)
  {
  }

  /** Once a failed task has dropped its placeholder and the gate, its transaction can be submitted again. */
  lemma FailedCanReenter(s: State, id: nat, again: nat)
    requires Enabled(s, Unplace(id)) && again !in s.tasks
    ensures var s' := Do(s, Unplace(id));
            var hash := s.tasks[id].hash;
            && Enabled(s', Enter(again, hash, false))
            && In(Do(s', Enter(again, hash, false)), again, Admitting)
            && s'.placeholders == s.placeholders - {hash}
  {
  }

  /** An accepted submit keeps its placeholder to the end of its task, so that the same bytes are not relayed again. */
  lemma AcceptedStaysKnown(s: State, id: nat, step: Step)
    requires Enabled(s, step) && id in s.tasks && PastOk(s.tasks[id].phase) && !step.Evict?
    requires GateInv(s) && DedupeInv(s) && s.tasks[id].hash in s.placeholders
    ensures s.tasks[id].hash in Do(s, step).placeholders
  {
  }

  /** What the node's reply to a submit leads to. */
  lemma SubmitOutcomes(s: State, id: nat, reply: Reply)
    requires Enabled(s, Submit(id, reply))
    ensures var s', resynced := Do(s, Submit(id, reply)), s.tasks[id].phase == Holding(true);
            match reply
            case Admitted => In(s', id, Accepted) && s'.cached == s.cached
            case NonceRefused =>
              if resynced then In(s', id, Failing) && s'.cached == None else In(s', id, Resyncing) && s'.cached == s.cached
            case OtherError => In(s', id, Failing) && s'.cached == s.cached
  {
  }

  /** The first read of the nonce and the one after a refusal: what they leave in the cache, and who goes on. */
  lemma ReadOutcomes(s: State, id: nat, next: Option<nat>)
    ensures Enabled(s, Fetch(id, next)) ==>
              var s' := Do(s, Fetch(id, next));
              s'.cached == next && In(s', id, if next.Some? then Holding(false) else Failing)
    ensures Enabled(s, Resync(id, next)) ==>
              var s' := Do(s, Resync(id, next));
              s'.cached == next && In(s', id, if next.Some? then Holding(true) else Failing)
  {
  }

  /** An accepted submit advances the counter by one and gives the gate back before it stores the time of success. */
  lemma AcceptedAdvances(s: State, id: nat)
    requires Enabled(s, Advance(id))
    ensures var s1 := Do(s, Advance(id));
            && s1.cached == Some(s.cached.value + 1) && s1.gate.Free? && s1.lastOk == s.lastOk
            && Enabled(s1, StoreOk(id)) && Do(s1, StoreOk(id)).lastOk == s.clock
            && Enabled(Do(s1, StoreOk(id)), Record(id))
  {
  }

  // ----- what eviction costs

  lemma RunStep(s: State, steps: seq<Step>, mid: State, step: Step)
    requires Run(s, steps) == Some(mid) && Enabled(mid, step)
    ensures Run(s, steps + [step]) == Some(Do(mid, step))
  {
    assert (steps + [step])[..|steps|] == steps;
  }

  lemma RunThree(s: State, a: Step, b: Step, c: Step)
    requires Enabled(s, a) && Enabled(Do(s, a), b) && Enabled(Do(Do(s, a), b), c)
    ensures Run(s, [a, b, c]) == Some(Do(Do(Do(s, a), b), c))
  {
    assert Run(s, []) == Some(s);
    RunStep(s, [], s, a);
    RunStep(s, [a], Do(s, a), b);
    RunStep(s, [a, b], Do(Do(s, a), b), c);
    assert [] + [a] == [a] && [a] + [b] == [a, b] && [a, b] + [c] == [a, b, c];
  }

  /** A request for a hash, from its eviction to the gate of its task. */
  lemma AgainRuns(s: State, id: nat, hash: Hash) returns (steps: seq<Step>, s': State)
    requires s.gate.Free? && id !in s.tasks
    ensures Run(s, steps) == Some(s') && In(s', id, Holding(false)) && s'.tasks[id].hash == hash
    ensures s'.cached == s.cached && s'.log == s.log
  {
    RunThree(s, Evict(hash), Enter(id, hash, false), Count(id));
    var mid := Do(Do(Do(s, Evict(hash)), Enter(id, hash, false)), Count(id));
    s' := FromCounted(mid, id);
    RunConcat(s, [Evict(hash), Enter(id, hash, false), Count(id)], [Place(id), Spawn(id), Acquire(id)]);
    steps := [Evict(hash), Enter(id, hash, false), Count(id)] + [Place(id), Spawn(id), Acquire(id)];
  }

  lemma FromCounted(s: State, id: nat) returns (s': State)
    requires In(s, id, Counted)
    ensures Run(s, [Place(id), Spawn(id), Acquire(id)]) == Some(s') && In(s', id, Holding(false))
    ensures s'.tasks[id].hash == s.tasks[id].hash && s'.cached == s.cached && s'.log == s.log
  {
    RunThree(s, Place(id), Spawn(id), Acquire(id));
    s' := Do(Do(Do(s, Place(id)), Spawn(id)), Acquire(id));
  }

  /** Once its placeholder is evicted, a hash can be accepted again, whatever was accepted before. */
  lemma EvictionAdmitsAgain(s: State, id: nat, hash: Hash)
    requires s.gate.Free? && id !in s.tasks
    ensures exists more, s' :: Run(s, more) == Some(s') && |s'.log| > |s.log|
                               && s'.log[..|s.log|] == s.log && Accepts(s'.log[|s'.log| - 1], hash)
  {
    var steps, mid := AgainRuns(s, id, hash);
    if mid.cached.None? {
      RunStep(s, steps, mid, Fetch(id, Some(0)));
      mid, steps := Do(mid, Fetch(id, Some(0))), steps + [Fetch(id, Some(0))];
    }
    RunStep(s, steps, mid, Submit(id, Admitted));
    var s' := Do(mid, Submit(id, Admitted));
    assert Run(s, steps + [Submit(id, Admitted)]) == Some(s') && s'.log[..|s.log|] == s.log;
  }

  predicate Accepts(e: Event, hash: Hash) { e.SubmitOk? && e.hash == hash }
}
