/**
The relay of NonceProtocol against a well-behaved node: it answers truthfully, admits only its next nonce,
drops nothing and is used by nobody else. An admitted transaction is included within `inclusion` seconds,
and the reconciler gets from its chain read to its decision within `delay` seconds. The relay starts with
nothing of its own waiting for inclusion.
*/
module NonceNode {
  import opened Common
  import opened NonceProtocol

  /** `times[k]` is when nonce `base + k` was admitted; nonces below `committed` are on chain. */
  datatype Node = Node(base: nat, committed: nat, times: seq<nat>)

  datatype World = World(relay: State, node: Node)

  datatype WorldStep = Relay(step: Step) | Include

  function Next(n: Node): nat { n.base + |n.times| }

  ghost predicate Allowed(w: World, ws: WorldStep, inclusion: nat, delay: nat) {
    match ws
    case Include => w.node.committed < Next(w.node)
    case Relay(step) =>
      && Enabled(w.relay, step)
      && match step
         case Fetch(_, next) => next.Some? ==> next.value == w.node.committed
         case Resync(_, next) => next.Some? ==> next.value == w.node.committed
         case ReconcileFetch(next) => next.Some? ==> next.value == w.node.committed
         case Submit(_, reply) =>
           && (reply.Admitted? ==> w.relay.cached.value == Next(w.node))
           && (reply.NonceRefused? ==> w.relay.cached.value != Next(w.node))
         case Tick(seconds) => InTime(w, w.relay.clock + seconds, inclusion, delay)
         case _ => true
  }

  /** At time `now` nothing is overdue: neither an inclusion nor the reconciler's decision. */
  ghost predicate InTime(w: World, now: nat, inclusion: nat, delay: nat) {
    && (forall k :: 0 <= k < |w.node.times| && w.node.committed <= w.node.base + k ==>
          now <= w.node.times[k] + inclusion)
    && (!w.relay.rec.Idle? ==> now <= w.relay.rec.at + delay)
  }

  ghost function After(w: World, ws: WorldStep, inclusion: nat, delay: nat): World
    requires Allowed(w, ws, inclusion, delay)
  {
    match ws
    case Include => w.(node := w.node.(committed := w.node.committed + 1))
    case Relay(step) =>
      World(Do(w.relay, step),
            if step.Submit? && step.reply.Admitted? then w.node.(times := w.node.times + [w.relay.clock]) else w.node)
  }

  ghost function WorldRun(w: World, steps: seq<WorldStep>, inclusion: nat, delay: nat): Option<World> {
    if steps == [] then Some(w)
    else
      var r := WorldRun(w, steps[..|steps| - 1], inclusion, delay);
      var last := steps[|steps| - 1];
      if r.Some? && Allowed(r.value, last, inclusion, delay) then Some(After(r.value, last, inclusion, delay))
      else None
  }

  function Begin(quiet: nat, clock: nat, base: nat): World {
    World(Start(quiet, clock), Node(base, base, []))
  }

  // ----- what every step keeps

  ghost predicate Unstored(s: State) {
    exists id :: id in s.tasks && (s.tasks[id].phase.Accepted? || s.tasks[id].phase.Settling?)
  }

  ghost predicate CacheInv(w: World) {
    && w.node.base <= w.node.committed <= Next(w.node)
    && (w.relay.cached.None? ==> w.node.times == [])
    && (w.relay.cached.Some? ==> w.relay.cached.value + (if AwaitingAdvance(w.relay) then 1 else 0) == Next(w.node))
    && (forall id :: id in w.relay.tasks ==>
          !w.relay.tasks[id].phase.Resyncing? && w.relay.tasks[id].phase != Holding(true))
  }

  /** An admission is covered by the stored success time or some task has yet to store it. */
  ghost predicate StoredInv(w: World) {
    && w.relay.lastOk <= w.relay.clock
    && (forall k :: 0 <= k < |w.node.times| ==> w.node.times[k] <= w.relay.clock)
    && (Unstored(w.relay) || forall k :: 0 <= k < |w.node.times| ==> w.node.times[k] <= w.relay.lastOk)
  }

  /** Whatever the reconciler's chain read misses was admitted at most `inclusion` before the read. */
  ghost predicate ReadInv(w: World, inclusion: nat) {
    !w.relay.rec.Idle? ==>
      && w.node.base <= w.relay.rec.chainNext <= w.node.committed
      && w.relay.rec.at <= w.relay.clock
      && forall k :: 0 <= k < |w.node.times| && w.relay.rec.chainNext <= w.node.base + k ==>
           w.relay.rec.at <= w.node.times[k] + inclusion
  }

  ghost predicate WorldInv(w: World, inclusion: nat, delay: nat) {
    && GateInv(w.relay) && InflightInv(w.relay) && CacheInv(w)
    && InTime(w, w.relay.clock, inclusion, delay) && StoredInv(w) && ReadInv(w, inclusion)
  }

  lemma UnstoredIsLive(s: State)
    requires Unstored(s)
    ensures |Live(s.tasks)| > 0
  {
    var id :| id in s.tasks && (s.tasks[id].phase.Accepted? || s.tasks[id].phase.Settling?);
    assert id in Live(s.tasks);
  }

  lemma UnstoredStep(s: State, step: Step)
    requires Unstored(s) && Enabled(s, step) && !step.StoreOk?
    ensures Unstored(Do(s, step))
  {
    var id :| id in s.tasks && (s.tasks[id].phase.Accepted? || s.tasks[id].phase.Settling?);
    assert id in Do(s, step).tasks;
  }

  /** With nothing overdue, a stale chain read never makes the reconciler touch the cache. */
  lemma ReconcilerLeavesCache(w: World, inclusion: nat, delay: nat)
    requires WorldInv(w, inclusion, delay) && inclusion + delay < w.relay.quiet && w.relay.rec.Locked?
    ensures DecideStep(w.relay).cached == w.relay.cached && DecideStep(w.relay).log == w.relay.log
  {
    if w.relay.cached.Some? && w.relay.rec.chainNext < w.relay.cached.value {
      assert w.node.times[|w.node.times| - 1] <= w.relay.clock;
      if Unstored(w.relay) {
        UnstoredIsLive(w.relay);
      }
    }
  }

  lemma CacheStepUnderGate(w: World, step: Step, inclusion: nat, delay: nat)
    requires WorldInv(w, inclusion, delay) && Allowed(w, Relay(step), inclusion, delay)
    requires step.Fetch? || step.Submit? || step.Resync?
    ensures CacheInv(After(w, Relay(step), inclusion, delay))
  {
  }

  lemma CacheStepOfTask(w: World, step: Step, inclusion: nat, delay: nat)
    requires WorldInv(w, inclusion, delay) && Allowed(w, Relay(step), inclusion, delay)
    requires step.Enter? || step.Count? || step.Place? || step.Spawn? || step.Acquire? || step.Unplace? || step.Advance?
    ensures CacheInv(After(w, Relay(step), inclusion, delay))
  {
  }

  lemma CacheStepAfterwards(w: World, step: Step, inclusion: nat, delay: nat)
    requires WorldInv(w, inclusion, delay) && Allowed(w, Relay(step), inclusion, delay)
    requires step.StoreOk? || step.Record? || step.Finish? || step.Panic?
    ensures CacheInv(After(w, Relay(step), inclusion, delay))
  {
  }

  lemma CacheStepOfOthers(w: World, ws: WorldStep, inclusion: nat, delay: nat)
    requires WorldInv(w, inclusion, delay) && Allowed(w, ws, inclusion, delay)
    requires ws.Include? || ws.step.ReconcileFetch? || ws.step.ReconcileLock? || ws.step.Tick? || ws.step.Evict?
    ensures CacheInv(After(w, ws, inclusion, delay))
  {
  }

  lemma CacheStep(w: World, ws: WorldStep, inclusion: nat, delay: nat)
    requires WorldInv(w, inclusion, delay) && inclusion + delay < w.relay.quiet && Allowed(w, ws, inclusion, delay)
    ensures CacheInv(After(w, ws, inclusion, delay))
  {
    if ws == Relay(ReconcileDecide) {
      ReconcilerLeavesCache(w, inclusion, delay);
    } else if ws.Relay? && (ws.step.Fetch? || ws.step.Submit? || ws.step.Resync?) {
      CacheStepUnderGate(w, ws.step, inclusion, delay);
    } else if ws.Include? || ws.step.ReconcileFetch? || ws.step.ReconcileLock? || ws.step.Tick? || ws.step.Evict? {
      CacheStepOfOthers(w, ws, inclusion, delay);
    } else if ws.step.StoreOk? || ws.step.Record? || ws.step.Finish? || ws.step.Panic? {
      CacheStepAfterwards(w, ws.step, inclusion, delay);
    } else {
      CacheStepOfTask(w, ws.step, inclusion, delay);
    }
  }

  lemma InTimeStep(w: World, ws: WorldStep, inclusion: nat, delay: nat)
    requires WorldInv(w, inclusion, delay) && Allowed(w, ws, inclusion, delay)
    ensures var w' := After(w, ws, inclusion, delay); InTime(w', w'.relay.clock, inclusion, delay)
  {
  }

  lemma StoredStep(w: World, ws: WorldStep, inclusion: nat, delay: nat)
    requires StoredInv(w) && Allowed(w, ws, inclusion, delay)
    ensures StoredInv(After(w, ws, inclusion, delay))
  {
    if ws.Relay? && !ws.step.StoreOk? {
      if ws.step.Submit? && ws.step.reply.Admitted? {
        assert Do(w.relay, ws.step).tasks[ws.step.id].phase.Accepted?;
      } else if Unstored(w.relay) {
        UnstoredStep(w.relay, ws.step);
      }
    }
  }

  lemma ReadStep(w: World, ws: WorldStep, inclusion: nat, delay: nat)
    requires WorldInv(w, inclusion, delay) && Allowed(w, ws, inclusion, delay)
    ensures ReadInv(After(w, ws, inclusion, delay), inclusion)
  {
  }

  lemma WorldStepKeeps(p: World, last: WorldStep, inclusion: nat, delay: nat)
    requires WorldInv(p, inclusion, delay) && inclusion + delay < p.relay.quiet && Allowed(p, last, inclusion, delay)
    ensures WorldInv(After(p, last, inclusion, delay), inclusion, delay)
  {
    CacheStep(p, last, inclusion, delay);
    InTimeStep(p, last, inclusion, delay);
    StoredStep(p, last, inclusion, delay);
    ReadStep(p, last, inclusion, delay);
    if last.Relay? {
      GateStep(p.relay, last.step);
      InflightStep(p.relay, last.step);
    }
  }

  lemma {:induction false} WorldReachable(quiet: nat, clock: nat, base: nat, inclusion: nat, delay: nat,
                                          steps: seq<WorldStep>, w: World)
    requires inclusion + delay < quiet
    requires WorldRun(Begin(quiet, clock, base), steps, inclusion, delay) == Some(w)
    ensures WorldInv(w, inclusion, delay) && w.relay.quiet == quiet
  {
    if steps == [] {
      assert Live(w.relay.tasks) == {};
    } else {
      var before, last := steps[..|steps| - 1], steps[|steps| - 1];
      var p := WorldRun(Begin(quiet, clock, base), before, inclusion, delay).value;
      WorldReachable(quiet, clock, base, inclusion, delay, before, p);
      WorldStepKeeps(p, last, inclusion, delay);
    }
  }

  /**
  Whenever the gate is free and the cache populated, the cache is the node's next nonce, and the node has no
  reason to refuse the nonce of any submit.
  */
  lemma {:induction false} CacheIsExact(quiet: nat, clock: nat, base: nat, inclusion: nat, delay: nat,
                                        steps: seq<WorldStep>, w: World)
    requires inclusion + delay < quiet
    requires WorldRun(Begin(quiet, clock, base), steps, inclusion, delay) == Some(w)
    ensures w.relay.gate.Free? && w.relay.cached.Some? ==> w.relay.cached.value == Next(w.node)
    ensures forall id :: !Allowed(w, Relay(Submit(id, NonceRefused)), inclusion, delay)
  {
    WorldReachable(quiet, clock, base, inclusion, delay, steps, w);
  }

  // ----- the bound on the two delays is exact

  ghost predicate ExactCache(quiet: nat, inclusion: nat, delay: nat) {
    forall clock: nat, base: nat, steps: seq<WorldStep> ::
      var r := WorldRun(Begin(quiet, clock, base), steps, inclusion, delay);
      r.Some? && r.value.relay.gate.Free? && r.value.relay.cached.Some? ==>
        r.value.relay.cached.value == Next(r.value.node)
  }

  /**
  One accepted submit at time 0, a chain read at time `read` just before its inclusion, and the decision of the
  reconciler at time `quiet`.
  */
  function Script(quiet: nat, read: nat): seq<WorldStep>
    requires read <= quiet
  {
    [Relay(Enter(0, 7, false)), Relay(Count(0)), Relay(Place(0)), Relay(Spawn(0)), Relay(Acquire(0)),
     Relay(Fetch(0, Some(1))), Relay(Submit(0, Admitted)), Relay(Advance(0)), Relay(StoreOk(0)),
     Relay(Record(0)), Relay(Finish(0)), Relay(Tick(read)), Relay(ReconcileFetch(Some(1))), Include,
     Relay(Tick(quiet - read)), Relay(ReconcileLock), Relay(ReconcileDecide)]
  }

  /** The world before step `i` of the script. */
  function Scene(quiet: nat, read: nat, i: nat): World {
    var log1 := [Reset(Some(1))];
    var log2 := log1 + [SubmitOk(0, 7, 1, 1, 0)];
    var busy, free, held := Request(0), Free, Reconciler;
    var done := map[0 := Task(7, Done, 1, 1)];
    var n0, n1, n2 := Node(1, 1, []), Node(1, 1, [0]), Node(1, 2, [0]);
    match i
    case 0 => Begin(quiet, 0, 1)
    case 1 => World(State(quiet, 0, busy, None, 0, 0, {}, map[0 := Task(7, Admitting, 0, 0)], Idle, 0, []), n0)
    case 2 => World(State(quiet, 0, busy, None, 1, 0, {}, map[0 := Task(7, Counted, 0, 0)], Idle, 0, []), n0)
    case 3 => World(State(quiet, 0, busy, None, 1, 0, {7}, map[0 := Task(7, Placed, 0, 0)], Idle, 0, []), n0)
    case 4 => World(State(quiet, 0, free, None, 1, 0, {7}, map[0 := Task(7, Queued, 0, 0)], Idle, 0, []), n0)
    case 5 => World(State(quiet, 0, busy, None, 1, 0, {7}, map[0 := Task(7, Holding(false), 1, 0)], Idle, 1, []), n0)
    case 6 => World(State(quiet, 0, busy, Some(1), 1, 0, {7}, map[0 := Task(7, Holding(false), 1, 0)], Idle, 1, log1), n0)
    case 7 => World(State(quiet, 0, busy, Some(1), 1, 0, {7}, map[0 := Task(7, Accepted, 1, 1)], Idle, 1, log2), n1)
    case 8 => World(State(quiet, 0, free, Some(2), 1, 0, {7}, map[0 := Task(7, Settling, 1, 1)], Idle, 1, log2), n1)
    case 9 => World(State(quiet, 0, free, Some(2), 1, 0, {7}, map[0 := Task(7, Recording, 1, 1)], Idle, 1, log2), n1)
    case 10 => World(State(quiet, 0, free, Some(2), 1, 0, {7}, map[0 := Task(7, Finishing, 1, 1)], Idle, 1, log2), n1)
    case 11 => World(State(quiet, 0, free, Some(2), 0, 0, {7}, done, Idle, 1, log2), n1)
    case 12 => World(State(quiet, read, free, Some(2), 0, 0, {7}, done, Idle, 1, log2), n1)
    case 13 => World(State(quiet, read, free, Some(2), 0, 0, {7}, done, Fetched(1, read), 1, log2), n1)
    case 14 => World(State(quiet, read, free, Some(2), 0, 0, {7}, done, Fetched(1, read), 1, log2), n2)
    case 15 => World(State(quiet, quiet, free, Some(2), 0, 0, {7}, done, Fetched(1, read), 1, log2), n2)
    case 16 => World(State(quiet, quiet, held, Some(2), 0, 0, {7}, done, Locked(1, read), 1, log2), n2)
    case _ => World(State(quiet, quiet, free, Some(1), 0, 0, {7}, done, Idle, 1, log2 + [Reset(Some(1))]), n2)
  }

  ghost predicate Follows(quiet: nat, read: nat, inclusion: nat, delay: nat, i: nat)
    requires read <= quiet && i < 17
  {
    var ws := Script(quiet, read)[i];
    && Allowed(Scene(quiet, read, i), ws, inclusion, delay)
    && After(Scene(quiet, read, i), ws, inclusion, delay) == Scene(quiet, read, i + 1)
  }

  lemma FirstScenes(quiet: nat, read: nat, inclusion: nat, delay: nat, i: nat)
    requires read <= quiet && i < 6
    ensures Follows(quiet, read, inclusion, delay, i)
  {
  }

  lemma SubmitScenes(quiet: nat, read: nat, inclusion: nat, delay: nat, i: nat)
    requires read <= quiet && 6 <= i < 8
    ensures Follows(quiet, read, inclusion, delay, i)
  {
  }

  lemma SettleScenes(quiet: nat, read: nat, inclusion: nat, delay: nat, i: nat)
    requires read <= quiet && 8 <= i < 11
    ensures Follows(quiet, read, inclusion, delay, i)
  {
  }

  lemma LastScenes(quiet: nat, read: nat, inclusion: nat, delay: nat, i: nat)
    requires read <= quiet <= read + delay && read <= inclusion && 11 <= i < 17
    ensures Follows(quiet, read, inclusion, delay, i)
  {
  }

  lemma {:induction false} ScriptRuns(quiet: nat, read: nat, inclusion: nat, delay: nat, i: nat)
    requires read <= quiet <= read + delay && read <= inclusion && i <= 17
    ensures WorldRun(Begin(quiet, 0, 1), Script(quiet, read)[..i], inclusion, delay) == Some(Scene(quiet, read, i))
  {
    if i > 0 {
      var k, script := i - 1, Script(quiet, read);
      ScriptRuns(quiet, read, inclusion, delay, k);
      assert script[..i][..k] == script[..k];
      if k < 6 {
        FirstScenes(quiet, read, inclusion, delay, k);
      } else if k < 8 {
        SubmitScenes(quiet, read, inclusion, delay, k);
      } else if k < 11 {
        SettleScenes(quiet, read, inclusion, delay, k);
      } else {
        LastScenes(quiet, read, inclusion, delay, k);
      }
    }
  }

  /** A chain read taken just before the inclusion and acted on `delay` later lowers the cache too far. */
  lemma SlowReadLowersTooFar(quiet: nat, inclusion: nat, delay: nat) returns (steps: seq<WorldStep>, w: World)
    requires quiet <= inclusion + delay
    ensures WorldRun(Begin(quiet, 0, 1), steps, inclusion, delay) == Some(w)
    ensures w.relay.gate.Free? && w.relay.cached == Some(1) && Next(w.node) == 2
  {
    var read := if quiet <= inclusion then quiet else inclusion;
    ScriptRuns(quiet, read, inclusion, delay, 17);
    steps, w := Script(quiet, read)[..17], Scene(quiet, read, 17);
  }

  /** The cache is exact in every run if and only if the two delays together stay below the quiet period. */
  lemma ExactIffDelaysShort(quiet: nat, inclusion: nat, delay: nat)
    ensures ExactCache(quiet, inclusion, delay) <==> inclusion + delay < quiet
  {
    if inclusion + delay < quiet {
      forall clock: nat, base: nat, steps: seq<WorldStep>
        | WorldRun(Begin(quiet, clock, base), steps, inclusion, delay).Some?
        ensures var w := WorldRun(Begin(quiet, clock, base), steps, inclusion, delay).value;
                w.relay.gate.Free? && w.relay.cached.Some? ==> w.relay.cached.value == Next(w.node)
      {
        var w := WorldRun(Begin(quiet, clock, base), steps, inclusion, delay).value;
        CacheIsExact(quiet, clock, base, inclusion, delay, steps, w);
      }
    } else {
      var steps, w := SlowReadLowersTooFar(quiet, inclusion, delay);
      assert WorldRun(Begin(quiet, 0, 1), steps, inclusion, delay).Some?;
    }
  }
}
