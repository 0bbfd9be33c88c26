/** The task queue of taskqueue.c: producers, one worker thread and one destroyer, as
    interleaved atomic steps over a mutex and a condition variable. Between taking
    and releasing the mutex every statement is a step of its own. */
module TaskQueue {

  import opened Common

  type Task = nat

  /** Who holds tskq_lock, and which statement of its critical section comes next. */
  datatype Lock =
    | Free
    | PushInsert(task: Task) | PushCount | PushSignal | PushUnlock   // spd_taskqueue_push
    | StopClear | StopSignal | StopUnlock                            // tps_taskqueue_destroy
    | ByWorker                                                       // see the worker's Pc

  /** The worker's next statement in tps_work_thread and in the pop it calls. */
  datatype Pc =
    | Test                                      // while (poll_thread_run), no lock held
    | Enter                                     // about to lock
    | Check                                     // holding: if (!poll_thread_run) break
    | Depth                                     // holding: size = depth, wait if zero
    | Waiting(signalled: bool)                  // inside spd_cond_wait, lock given up
    | Recheck                                   // holding again: if (!poll_thread_run) break
    | Leave                                     // holding: unlock
    | PopEnter | PopRemove                      // pop: lock; take the head
    | PopCount(got: Task) | PopLeave(popped: Option<Task>)
    | Execute(got: Task)
    | StatEnter | StatUpdate | StatLeave
    | BreakLeave                                // holding: unlock, then break
    | DrainEnter | DrainRemove                  // the purge loop's pop
    | DrainCount(got: Task) | DrainLeave(popped: Option<Task>)
    | Done                                      // the thread has returned

  /** Ghosts: `pushed` in the order of insertion, `executed` and `purged` in the order in
      which they happened, `lateStarts` counting executions begun with the flag down. */
  datatype State = State(lock: Lock, pc: Pc, run: bool, queue: seq<Task>, size: int, sampled: int,
                         processed: nat, maxSize: int,
                         pushed: seq<Task>, executed: seq<Task>, purged: seq<Task>, lateStarts: nat)

  const INITIAL := State(Free, Test, true, [], 0, 0, 0, 0, [], [], [], 0)

  datatype Actor = Producer(task: Task) | Destroyer | Worker | Wakeup

  /** spd_cond_signal wakes the worker if it is waiting and is lost otherwise. */
  function Signal(s: State): State {
    if s.pc.Waiting? then s.(pc := Waiting(true)) else s
  }

  /** The next step of the producer that holds the lock, or of one that wants it. */
  function PusherNext(s: State, t: Task): Option<State> {
    match s.lock
    case Free => Some(s.(lock := PushInsert(t)))
    case PushInsert(u) => Some(s.(lock := PushCount, queue := s.queue + [u], pushed := s.pushed + [u]))
    case PushCount => Some(s.(lock := PushSignal, size := s.size + 1))
    case PushSignal => Some(Signal(s).(lock := PushUnlock))
    case PushUnlock => Some(s.(lock := Free))
    case _ => None
  }

  function StopperNext(s: State): Option<State> {
    match s.lock
    case Free => Some(s.(lock := StopClear))
    case StopClear => Some(s.(lock := StopSignal, run := false))
    case StopSignal => Some(Signal(s).(lock := StopUnlock))
    case StopUnlock => Some(s.(lock := Free))
    case _ => None
  }

  /** Taking the lock, which blocks while it is held, and giving it up. */
  function Take(s: State, pc: Pc): Option<State> {
    if s.lock.Free? then Some(s.(lock := ByWorker, pc := pc)) else None
  }

  function Give(s: State, pc: Pc): Option<State> {
    Some(s.(lock := Free, pc := pc))
  }

  function WorkerNext(s: State): Option<State> {
    match s.pc
    case Test => Some(s.(pc := if s.run then Enter else DrainEnter))
    case Enter => Take(s, Check)
    case Check => Some(s.(pc := if s.run then Depth else BreakLeave))
    case Depth =>
      if s.size == 0 then Give(s.(sampled := s.size), Waiting(false)) else Some(s.(sampled := s.size, pc := Leave))
    case Waiting(signalled) => if signalled then Take(s, Recheck) else None
    case Recheck => Some(s.(pc := if s.run then Leave else BreakLeave))
    case Leave => Give(s, PopEnter)
    case BreakLeave => Give(s, DrainEnter)
    case PopEnter => Take(s, PopRemove)
    case PopRemove =>
      if s.queue == [] then Some(s.(pc := PopLeave(None)))
      else Some(s.(queue := s.queue[1..], pc := PopCount(s.queue[0])))
    case PopCount(t) => Some(s.(size := s.size - 1, pc := PopLeave(Some(t))))
    case PopLeave(got) => Give(s, if got.Some? then Execute(got.value) else Test)
    case Execute(t) =>
      Some(s.(executed := s.executed + [t], pc := StatEnter, lateStarts := s.lateStarts + if s.run then 0 else 1))
    case StatEnter => Take(s, StatUpdate)
    case StatUpdate =>
      Some(s.(processed := s.processed + 1, pc := StatLeave,
              maxSize := if s.sampled > s.maxSize then s.sampled else s.maxSize))
    case StatLeave => Give(s, Test)
    case DrainEnter => Take(s, DrainRemove)
    case DrainRemove =>
      if s.queue == [] then Some(s.(pc := DrainLeave(None)))
      else Some(s.(queue := s.queue[1..], pc := DrainCount(s.queue[0])))
    case DrainCount(t) => Some(s.(size := s.size - 1, pc := DrainLeave(Some(t))))
    case DrainLeave(got) =>
      if got.Some? then Give(s.(purged := s.purged + [got.value]), DrainEnter) else Give(s, Done)
    case Done => None
  }

  function Next(s: State, a: Actor): Option<State> {
    match a
    case Producer(t) => PusherNext(s, t)
    case Destroyer => StopperNext(s)
    case Worker => WorkerNext(s)
    case Wakeup => if s.pc.Waiting? then Some(s.(pc := Waiting(true))) else None   // spurious
  }

  // ---------- the invariant ----------

  /** The task that has left the queue and is neither executed nor purged yet. */
  function InHand(s: State): seq<Task> {
    match s.pc
    case PopCount(t) => [t]
    case PopLeave(Some(t)) => [t]
    case Execute(t) => [t]
    case DrainCount(t) => [t]
    case DrainLeave(Some(t)) => [t]
    case _ => []
  }

  predicate WorkerHolds(pc: Pc) {
    pc.Check? || pc.Depth? || pc.Recheck? || pc.Leave? || pc.BreakLeave? || pc.PopRemove? || pc.PopCount?
    || pc.PopLeave? || pc.StatUpdate? || pc.StatLeave? || pc.DrainRemove? || pc.DrainCount? || pc.DrainLeave?
  }

  /** Has the worker started to purge? */
  predicate Draining(pc: Pc) {
    pc.DrainEnter? || pc.DrainRemove? || pc.DrainCount? || pc.DrainLeave? || pc.Done?
  }

  /** Has the worker executed the task of this round? */
  predicate RoundOver(pc: Pc) {
    pc.StatEnter? || pc.StatUpdate? || pc.StatLeave? || pc.Test? || Draining(pc)
  }

  /** The size field lags behind the queue inside two critical sections only. */
  function Lag(s: State): int {
    if s.lock.PushCount? then 1 else if s.pc.PopCount? || s.pc.DrainCount? then -1 else 0
  }

  /** Nothing is lost, doubled or reordered. */
  ghost predicate Ordered(s: State) {
    && s.pushed == s.executed + s.purged + InHand(s) + s.queue
    && (Draining(s.pc) || s.purged == [])
  }

  ghost predicate Control(s: State) {
    && (s.lock.ByWorker? <==> WorkerHolds(s.pc))
    && s.size + Lag(s) == |s.queue|
    && (s.pc == DrainLeave(None) || s.pc == PopLeave(None) ==> s.queue == [])
    // the flag goes down in the destroyer's critical section and never comes up again
    && (s.lock.StopSignal? || s.lock.StopUnlock? || Draining(s.pc) || s.pc.BreakLeave? ==> !s.run)
    && (s.pc.Depth? || s.pc.Leave? ==> s.run)
    // a waiting worker that nobody has signalled has nothing to do, or will be signalled
    && (s.pc == Waiting(false) ==>
          && (s.queue == [] || s.lock.PushCount? || s.lock.PushSignal?)
          && (s.run || s.lock.StopSignal?))
    // at most one late start, and none may follow it
    && s.lateStarts <= 1
    && (s.lateStarts == 1 ==> !s.run && RoundOver(s.pc))
    && s.processed == |s.executed| - if s.pc.StatEnter? || s.pc.StatUpdate? then 1 else 0
  }

  ghost predicate Inv(s: State) {
    Ordered(s) && Control(s)
  }

  lemma PusherKeeps(s: State, t: Task)
    requires Inv(s) && PusherNext(s, t).Some?
    ensures Inv(PusherNext(s, t).value)
  {
  }

  lemma StopperKeeps(s: State)
    requires Inv(s) && StopperNext(s).Some?
    ensures Inv(StopperNext(s).value)
  {
  }

  predicate InPop(pc: Pc) {
    pc.PopEnter? || pc.PopRemove? || pc.PopCount? || pc.PopLeave?
  }

  lemma PopKeepsControl(s: State)
    requires Control(s) && WorkerNext(s).Some? && InPop(s.pc)
    ensures Control(WorkerNext(s).value)
  {
  }

  lemma LoopKeepsControl(s: State)
    requires Control(s) && WorkerNext(s).Some? && !InPop(s.pc) && !Draining(s.pc)
    ensures Control(WorkerNext(s).value)
  {
  }

  lemma DrainKeepsControl(s: State)
    requires Control(s) && WorkerNext(s).Some? && Draining(s.pc)
    ensures Control(WorkerNext(s).value)
  {
  }

  lemma RemoveKeepsOrder(s: State)
    requires Ordered(s) && WorkerNext(s).Some? && (s.pc.PopRemove? || s.pc.DrainRemove?)
    ensures Ordered(WorkerNext(s).value)
  {
    var s' := WorkerNext(s).value;
    var head := if s.queue == [] then [] else [s.queue[0]];
    assert s.queue == head + s'.queue && InHand(s) == [] && InHand(s') == head;
    Regroup(s.executed + s.purged, [], head, s'.queue);
  }

  lemma FinishKeepsOrder(s: State)
    requires Ordered(s) && WorkerNext(s).Some? && (s.pc.Execute? || s.pc.DrainLeave?)
    ensures Ordered(WorkerNext(s).value)
  {
    Regroup(s.executed, s.purged, InHand(s), s.queue);
  }

  lemma RestKeepsOrder(s: State)
    requires Ordered(s) && WorkerNext(s).Some?
    requires !s.pc.PopRemove? && !s.pc.DrainRemove? && !s.pc.Execute? && !s.pc.DrainLeave?
    ensures Ordered(WorkerNext(s).value)
  {
    assert InHand(WorkerNext(s).value) == InHand(s);
  }

  lemma Regroup(a: seq<Task>, b: seq<Task>, c: seq<Task>, d: seq<Task>)
    ensures a + b + c + d == a + (b + c) + [] + d
    ensures b == [] ==> a + b + c + d == (a + c) + [] + [] + d
    ensures b == [] ==> a + b + (c + d) == a + c + d
  {
  }

  /** Every atomic step of every thread keeps the invariant. */
  lemma StepKeeps(s: State, a: Actor)
    requires Inv(s) && Next(s, a).Some?
    ensures Inv(Next(s, a).value)
  {
    match a {
      case Producer(t) => PusherKeeps(s, t);
      case Destroyer => StopperKeeps(s);
      case Worker =>
        if InPop(s.pc) {
          PopKeepsControl(s);
        } else if Draining(s.pc) {
          DrainKeepsControl(s);
        } else {
          LoopKeepsControl(s);
        }
        if s.pc.PopRemove? || s.pc.DrainRemove? {
          RemoveKeepsOrder(s);
        } else if s.pc.Execute? || s.pc.DrainLeave? {
          FinishKeepsOrder(s);
        } else {
          RestKeepsOrder(s);
        }
      case Wakeup =>
    }
  }

  // ---------- whole runs ----------

  /** A step of the schedule; a thread that is blocked does not move. */
  function Step(s: State, a: Actor): State {
    if Next(s, a).Some? then Next(s, a).value else s
  }

  function Run(s: State, schedule: seq<Actor>): State
    decreases |schedule|
  {
    if schedule == [] then s else Run(Step(s, schedule[0]), schedule[1..])
  }

  lemma {:induction false} RunKeeps(s: State, schedule: seq<Actor>)
    requires Inv(s)
    ensures Inv(Run(s, schedule))
    decreases |schedule|
  {
    if schedule != [] {
      if Next(s, schedule[0]).Some? {
        StepKeeps(s, schedule[0]);
      }
      RunKeeps(Step(s, schedule[0]), schedule[1..]);
    }
  }

  lemma {:induction false} RunConcat(s: State, a: seq<Actor>, b: seq<Actor>)
    ensures Run(s, a + b) == Run(Run(s, a), b)
    decreases |a|
  {
    if a == [] {
      assert a + b == b;
    } else {
      assert (a + b)[1..] == a[1..] + b;
      RunConcat(Step(s, a[0]), a[1..], b);
    }
  }

  /** The states that some interleaving leads to. */
  ghost predicate Reachable(s: State) {
    exists start: State, schedule: seq<Actor> :: start == INITIAL && Run(start, schedule) == s
  }

  lemma ReachableInv(s: State)
    requires Reachable(s)
    ensures Inv(s)
  {
    var start: State, schedule: seq<Actor> :| start == INITIAL && Run(start, schedule) == s;
    RunKeeps(start, schedule);
  }

  lemma ReachableRun(s: State, more: seq<Actor>, s': State)
    requires Reachable(s) && s' == Run(s, more)
    ensures Reachable(s')
  {
    var start: State, schedule: seq<Actor> :| start == INITIAL && Run(start, schedule) == s;
    RunConcat(start, schedule, more);
    assert Run(start, schedule + more) == s';
  }

  /** Linearity, under every interleaving: until the worker starts to purge, what has been
      executed, what is in hand and what is queued make up exactly the pushed
      sequence, so tasks run in the order of their pushes, each at most once. Purging
      takes the rest in the same order. The size field is exact whenever nobody is
      inside a critical section. */
  lemma Linearity(s: State)
    requires Reachable(s)
    ensures !Draining(s.pc) ==> s.pushed == s.executed + InHand(s) + s.queue
    ensures s.executed <= s.pushed
    ensures s.pushed == s.executed + s.purged + InHand(s) + s.queue
    ensures s.lock.Free? ==> s.size == |s.queue|
    ensures s.processed <= |s.executed| <= s.processed + 1
  {
    ReachableInv(s);
    assert s.executed + s.purged + InHand(s) + s.queue == s.executed + (s.purged + InHand(s) + s.queue);
    if !Draining(s.pc) {
      assert s.executed + [] + InHand(s) + s.queue == s.executed + InHand(s) + s.queue;
    }
  }

  /** After the run flag has gone down the worker starts at most one more task. */
  lemma AtMostOneLateStart(s: State)
    requires Reachable(s)
    ensures s.lateStarts <= 1
  {
    ReachableInv(s);
  }

  lemma RunOne(s: State, a: Actor, rest: seq<Actor>)
    ensures Run(s, [a] + rest) == Run(Step(s, a), rest)
  {
    assert ([a] + rest)[1..] == rest;
  }

  lemma RunFive(s: State, a: Actor, b: Actor, c: Actor, d: Actor, e: Actor)
    ensures Run(s, [a, b, c, d, e]) == Step(Step(Step(Step(Step(s, a), b), c), d), e)
  {
    RunOne(s, a, [b, c, d, e]);
    RunOne(Step(s, a), b, [c, d, e]);
    RunOne(Step(Step(s, a), b), c, [d, e]);
    RunOne(Step(Step(Step(s, a), b), c), d, [e]);
    RunOne(Step(Step(Step(Step(s, a), b), c), d), e, []);
    assert [a, b, c, d, e] == [a] + [b, c, d, e] && [b, c, d, e] == [b] + [c, d, e];
    assert [c, d, e] == [c] + [d, e] && [d, e] == [d] + [e] && [e] == [e] + [];
  }

  lemma ReachableFive(s: State, a: Actor, b: Actor, c: Actor, d: Actor, e: Actor)
    requires Reachable(s)
    ensures Reachable(Step(Step(Step(Step(Step(s, a), b), c), d), e))
  {
    RunFive(s, a, b, c, d, e);
    ReachableRun(s, [a, b, c, d, e], Step(Step(Step(Step(Step(s, a), b), c), d), e));
  }

  /** A push, then the worker up to the point where it is about to pop. */
  lemma AboutToPop(t: Task) returns (s: State)
    ensures Reachable(s) && s == INITIAL.(queue := [t], size := 1, pushed := [t], pc := PopEnter, sampled := 1)
  {
    var s0, p := INITIAL, Producer(t);
    assert Run(s0, []) == s0;
    var s1 := s0.(queue := [t], size := 1, pushed := [t]);
    ReachableFive(s0, p, p, p, p, p);
    PushSection(s0, t);
    RunFive(s0, p, p, p, p, p);
    assert Pushed(s0, t) == s1;
    ReachableFive(s1, Worker, Worker, Worker, Worker, Worker);
    s := Step(Step(Step(Step(Step(s1, Worker), Worker), Worker), Worker), Worker);
  }

  /** The bound is tight: a shutdown that comes between the worker's last look at the flag
      and its pop is followed by one task. */
  lemma OneLateStartHappens(t: Task) returns (s: State)
    ensures Reachable(s) && !s.run && s.executed == [t] && s.lateStarts == 1
  {
    var s2 := AboutToPop(t);
    ReachableFive(s2, Destroyer, Destroyer, Destroyer, Destroyer, Worker);
    var s3 := Step(Step(Step(Step(Step(s2, Destroyer), Destroyer), Destroyer), Destroyer), Worker);
    assert s3 == s2.(run := false, lock := ByWorker, pc := PopRemove);
    ReachableFive(s3, Worker, Worker, Worker, Worker, Worker);
    s := Step(Step(Step(Step(Step(s3, Worker), Worker), Worker), Worker), Worker);
  }

  /** No lost wake-up: a worker that waits without having been signalled has an empty queue
      and its flag up, unless a thread inside its critical section is about to signal. */
  lemma NoLostWakeup(s: State)
    requires Reachable(s) && s.pc == Waiting(false)
    ensures s.queue == [] || s.lock.PushCount? || s.lock.PushSignal?
    ensures s.run || s.lock.StopSignal?
    ensures s.lock.Free? ==> s.queue == [] && s.run
  {
    ReachableInv(s);
  }

  // ---------- while the flag is up every task is executed ----------

  /** The steps the worker can still take before it waits, with the flag up. */
  function Todo(s: State): nat {
    var n, idle := 13 * |s.queue|, s.queue == [];
    match s.pc
    case Waiting(signalled) => if signalled then n + 12 else 0
    case Recheck => n + 11
    case Leave => n + if idle then 10 else 2
    case PopEnter => n + if idle then 9 else 1
    case PopRemove => n + if idle then 8 else 0
    case PopCount(_) => n + 12
    case PopLeave(p) => n + if p.Some? then 11 else 5
    case Execute(_) => n + 10
    case StatEnter => n + 9
    case StatUpdate => n + 8
    case StatLeave => n + 7
    case Test => n + if idle then 4 else 6
    case Enter => n + if idle then 3 else 5
    case Check => n + if idle then 2 else 4
    case Depth => n + if idle then 1 else 3
    case _ => n
  }

  /** With the flag up and the lock free, or its own, a worker that is not waiting can move, and
      comes closer to waiting with every step. */
  lemma ServingMoves(s: State)
    requires Inv(s) && s.run && (s.lock.Free? || s.lock.ByWorker?) && s.pc != Waiting(false)
    ensures WorkerNext(s).Some?
    ensures var s' := WorkerNext(s).value;
      Todo(s') < Todo(s) && s'.run && s'.pushed == s.pushed && (s'.lock.Free? || s'.lock.ByWorker?)
  {
    hide Ordered;
  }

  lemma {:induction false} ServesOn(s: State) returns (n: nat)
    requires Inv(s) && s.run && (s.lock.Free? || s.lock.ByWorker?)
    ensures var e := Run(s, Alone(n)); Inv(e) && e.run && e.pc == Waiting(false) && e.pushed == s.pushed
    ensures var e := Run(s, Alone(n)); e.lock.Free? || e.lock.ByWorker?
    decreases Todo(s)
  {
    n := 0;
    if s.pc != Waiting(false) {
      ServingMoves(s);
      StepKeeps(s, Worker);
      hide Inv, WorkerNext;
      n := ServesOn(Step(s, Worker));
      AloneOne(s, n);
      n := n + 1;
    }
  }

  /** As long as the flag is up no task is left behind: whatever has happened before, the worker,
      left to itself, comes to wait with the queue empty and every task that was pushed
      executed, in the order of the pushes. */
  lemma ServesAll(s: State) returns (n: nat)
    requires Reachable(s) && s.run && s.lock.Free?
    ensures var e := Run(s, Alone(n));
      Reachable(e) && e.pc == Waiting(false) && e.queue == [] && e.executed == e.pushed == s.pushed
  {
    ReachableInv(s);
    n := ServesOn(s);
    var e := Run(s, Alone(n));
    ReachableRun(s, Alone(n), e);
    assert e.executed + [] + [] + [] == e.executed;
  }

  // ---------- shutdown ends ----------

  /** The steps the worker can still take once the flag is down. */
  function Measure(s: State): nat {
    var n := 4 * |s.queue|;
    match s.pc
    case Done => 0
    case DrainLeave(p) => if p.Some? then n + 4 else n + 1
    case DrainRemove => n + 2
    case DrainEnter => n + 3
    case DrainCount(_) => n + 5
    case Test => n + 4
    case BreakLeave => n + 4
    case Check => n + 5
    case Recheck => n + 5
    case StatLeave => n + 5
    case Waiting(_) => n + 6
    case Enter => n + 6
    case StatUpdate => n + 6
    case StatEnter => n + 7
    case Execute(_) => n + 8
    case PopLeave(p) => if p.Some? then n + 9 else n + 5
    case PopCount(_) => n + 10
    case PopRemove => n + 7
    case PopEnter => n + 8
    case Depth => n + 10
    case Leave => n + 9
  }

  /** Once the flag is down and the lock free, or the worker's own, the worker is not
      blocked until it has returned, and every step brings it closer. */
  lemma WorkerProgress(s: State)
    requires Inv(s) && !s.run && (s.lock.Free? || s.lock.ByWorker?) && s.pc != Done
    ensures WorkerNext(s).Some?
    ensures Measure(WorkerNext(s).value) < Measure(s)
    ensures !WorkerNext(s).value.run
    ensures WorkerNext(s).value.lock.Free? || WorkerNext(s).value.lock.ByWorker?
    ensures WorkerNext(s).value.pc == Done ==> WorkerNext(s).value.queue == []
  {
  }

  function Alone(n: nat): seq<Actor> {
    seq(n, _ => Worker)
  }

  lemma {:induction false} WorkerReturns(s: State, m: nat)
    requires Inv(s) && !s.run && (s.lock.Free? || s.lock.ByWorker?) && Measure(s) <= m
    ensures Run(s, Alone(m)).pc == Done
    ensures Run(s, Alone(m)).queue == [] || s.pc == Done
    decreases m
  {
    if s.pc == Done {
      DoneStays(s, m);
    } else {
      WorkerProgress(s);
      StepKeeps(s, Worker);
      AloneOne(s, m - 1);
      WorkerReturns(Step(s, Worker), m - 1);
      if Step(s, Worker).pc == Done {
        DoneStays(Step(s, Worker), m - 1);
      }
    }
  }

  lemma AloneOne(s: State, n: nat)
    ensures Run(s, Alone(n + 1)) == Run(Step(s, Worker), Alone(n))
  {
    assert Alone(n + 1)[1..] == Alone(n);
  }

  lemma {:induction false} DoneStays(s: State, n: nat)
    requires s.pc == Done
    ensures Run(s, Alone(n)) == s
    decreases n
  {
    if n > 0 {
      assert Alone(n)[1..] == Alone(n - 1);
      DoneStays(s, n - 1);
    }
  }

  /** tps_taskqueue_destroy cannot block in pthread_join: whatever has happened before, once
      the flag is down and the lock free the worker, left to itself, returns, and has
      then executed or purged every task that was pushed. */
  lemma JoinReturns(s: State) returns (end: State)
    requires Reachable(s) && !s.run && s.lock.Free? && s.pc != Done
    ensures Reachable(end) && end == Run(s, Alone(Measure(s)))
    ensures end.pc == Done && end.pushed == end.executed + end.purged
  {
    ReachableInv(s);
    WorkerReturns(s, Measure(s));
    end := Run(s, Alone(Measure(s)));
    ReachableRun(s, Alone(Measure(s)), end);
    ReachableInv(end);
    assert end.executed + end.purged + [] + [] == end.executed + end.purged;
  }

  // ---------- shutdown while the registry is locked ----------

  /** The task the worker will still start once the flag is down, if there is one. */
  function LastStart(s: State): Option<Task> {
    match s.pc
    case PopEnter | PopRemove => if s.queue == [] then None else Some(s.queue[0])
    case PopCount(t) => Some(t)
    case PopLeave(p) => p
    case Execute(t) => Some(t)
    case _ => None
  }

  /** spd_taskqueue_unreference holds the registry's lock while it joins the worker: a task
      among `users`, which get or give up a queue, waits for that lock and does not return. */
  function HeldStep(s: State, users: set<Task>): State {
    if s.pc.Execute? && s.pc.got in users then s else Step(s, Worker)
  }

  function HeldRun(s: State, users: set<Task>, n: nat): State
    decreases n
  {
    if n == 0 then s else HeldRun(HeldStep(s, users), users, n - 1)
  }

  predicate StartsUser(s: State, users: set<Task>) {
    LastStart(s).Some? && LastStart(s).value in users
  }

  ghost predicate ShuttingDown(s: State) {
    Inv(s) && !s.run && (s.lock.Free? || s.lock.ByWorker?)
  }

  lemma HeldStepKeeps(s: State, users: set<Task>)
    requires ShuttingDown(s) && s.pc != Done
    ensures ShuttingDown(HeldStep(s, users))
    ensures StartsUser(HeldStep(s, users), users) <==> StartsUser(s, users)
    ensures StartsUser(s, users) || Measure(HeldStep(s, users)) < Measure(s)
  {
    WorkerProgress(s);
    StepKeeps(s, Worker);
    hide Ordered;
  }

  lemma {:induction false} HeldForEver(s: State, users: set<Task>, n: nat)
    requires ShuttingDown(s) && StartsUser(s, users)
    ensures HeldRun(s, users, n).pc != Done
    decreases n
  {
    if n > 0 {
      HeldStepKeeps(s, users);
      HeldForEver(HeldStep(s, users), users, n - 1);
    }
  }

  lemma {:induction false} HeldReturns(s: State, users: set<Task>) returns (n: nat)
    requires ShuttingDown(s) && !StartsUser(s, users)
    ensures HeldRun(s, users, n).pc == Done
    decreases Measure(s)
  {
    n := 0;
    if s.pc != Done {
      HeldStepKeeps(s, users);
      n := HeldReturns(HeldStep(s, users), users);
      n := n + 1;
    }
  }

  /** The join inside spd_taskqueue_unreference returns exactly if the one task that may still
      be started does not use the registry itself. */
  lemma HeldJoinReturns(s: State, users: set<Task>)
    requires Reachable(s) && !s.run && s.lock.Free?
    ensures (exists n: nat :: HeldRun(s, users, n).pc == Done) <==> !StartsUser(s, users)
  {
    ReachableInv(s);
    if StartsUser(s, users) {
      forall n: nat
        ensures HeldRun(s, users, n).pc != Done
      {
        HeldForEver(s, users, n);
      }
    } else {
      var n := HeldReturns(s, users);
    }
  }

  /** No thread blocks for ever on the lock: whoever holds it has a next step. */
  lemma HolderMoves(s: State)
    requires Reachable(s) && !s.lock.Free?
    ensures s.lock.ByWorker? ==> WorkerNext(s).Some?
    ensures !s.lock.ByWorker? ==> (forall t :: PusherNext(s, t).Some?) || StopperNext(s).Some?
  {
    ReachableInv(s);
  }

  // ---------- the critical sections as methods ----------

  /** spd_taskqueue_push seen from outside its critical section. */
  function Pushed(s: State, t: Task): State {
    Signal(s.(queue := s.queue + [t], size := s.size + 1, pushed := s.pushed + [t]))
  }

  lemma PushSection(s: State, t: Task)
    requires s.lock.Free?
    ensures Run(s, [Producer(t), Producer(t), Producer(t), Producer(t), Producer(t)]) == Pushed(s, t)
  {
    RunFive(s, Producer(t), Producer(t), Producer(t), Producer(t), Producer(t));
  }

  /** The fields of struct spd_taskqueue that the two operations update. */
  class Queue {
    var tasks: seq<Task>
    var size: int
    var signalled: bool

    ghost predicate Matches(s: State)
      reads this
    {
      tasks == s.queue && size == s.size
    }

    constructor ()
      ensures tasks == [] && size == 0 && !signalled
    {
      tasks, size, signalled := [], 0, false;
    }

    /** spd_taskqueue_push, executed while no other thread is in a critical section. */
    method Push(t: Task, ghost s: State)
      requires Matches(s) && s.lock.Free?
      modifies this
      ensures Matches(Run(s, [Producer(t), Producer(t), Producer(t), Producer(t), Producer(t)]))
      ensures signalled
    {
      PushSection(s, t);
      tasks := tasks + [t];
      size := size + 1;
      signalled := true;
    }

    /** tps_taskqueue_pop, executed while no other thread is in a critical section. */
    method Pop(ghost s: State) returns (task: Option<Task>)
      requires Matches(s) && s.lock.Free? && s.pc == PopEnter
      modifies this`tasks, this`size
      ensures var s3 := Step(Step(Step(s, Worker), Worker), Worker);
        var s' := if old(tasks) == [] then s3 else Step(s3, Worker);
        && Matches(s')
        && s'.lock.Free?
        && s'.pc == if task.Some? then Execute(task.value) else Test
    {
      if tasks == [] {
        return None;
      }
      task := Some(tasks[0]);
      tasks := tasks[1..];
      size := size - 1;
    }
  }
}
