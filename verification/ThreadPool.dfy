/** The thread pool as a protocol between clients and workers (deps/common/thread/thread_pool_executor.cpp).
    A step is one access to the queue or to a counter, or one section under `lock_`. */
module ThreadPool {
  import opened Wrappers

  type Tid = nat

  /** Tasks are numbered in the order in which they enter the queue. */
  type Task = nat

  datatype Phase = New | Running | Terminating

  /** Who holds `lock_`: nobody, `create_thread` before or after it has made the thread, or for good a
      worker that returned without unlocking. */
  datatype Lock = Free | Creating(core: bool, spawned: Option<Tid>) | Abandoned

  /** Where a worker is in `thread_func`. */
  datatype Worker =
    | Started                // running, has not looked up its table entry yet
    | Lost                   // did not find its table entry
    | Idle                   // at the head of the loop
    | Popped(task: Task)     // has a task, not counted as active
    | Active(task: Task)     // counted as active, running the task
    | Ran(task: Task)        // no longer counted as active, task not counted yet
    | Leaving                // out of the loop, still in the table

  datatype Pool = Pool(
    phase: Phase,
    coreSize: int, maxSize: int,
    initializing: bool, creating: bool,   // inside `init`; past the size test of its loop
    leftOver: nat,                        // threads from failed calls when the last `init` began
    lock: Lock,
    table: map<Tid, bool>,                // the thread table: is it a core thread
    workers: map<Tid, Worker>,            // the threads that exist
    queue: seq<Task>,
    submitted: nat,                       // tasks pushed so far
    activeCount: int, taskCount: int,
    started: seq<Task>,                   // tasks in the order in which they began to run
    finished: set<Task>)

  datatype Step =
    | InitBegin(coreSize: int, maxSize: int) | InitTest | InitLock | InitEnd
    | Push | ExtendLock | Shutdown
    | Spawn(t: Tid) | SpawnFails | Insert
    | LookUp(t: Tid) | Pop(t: Tid) | Begin(t: Tid) | End(t: Tid) | Count(t: Tid) | Quit(t: Tid) | Erase(t: Tid)

  const Fresh := Pool(New, 0, 0, false, false, 0, Free, map[], map[], [], 0, 0, 0, [], {})

  /** A client that has seen the pool running may push or extend at any later time. `ExtendLock` is the
      case in which the tests under the lock allow a new thread; the test against the idle threads
      reads racing counters and is left open. A core thread leaves only when the pool is not running
      and the queue is empty; any other thread may also find its deadline passed. */
  predicate Enabled(p: Pool, s: Step) {
    match s
    case InitBegin(c, m) => p.phase.New? && !p.initializing && !(c < 0 || m <= 0 || c > m)
    case InitTest => p.initializing && !p.creating && |p.table| < p.coreSize
    case InitLock => p.creating && p.lock.Free?
    case InitEnd => p.initializing && !p.creating && |p.table| >= p.coreSize
    case Push => !p.phase.New?
    case ExtendLock => !p.phase.New? && p.lock.Free? && |p.table| < p.maxSize
    case Shutdown => p.phase.Running?
    case Spawn(t) => p.lock.Creating? && p.lock.spawned.None? && t !in p.workers
    case SpawnFails => p.lock.Creating? && p.lock.spawned.None?
    case Insert => p.lock.Creating? && p.lock.spawned.Some?
    case LookUp(t) => t in p.workers && p.workers[t].Started? && p.lock.Free?
    case Pop(t) => t in p.workers && p.workers[t].Idle? && p.queue != []
    case Begin(t) => t in p.workers && p.workers[t].Popped?
    case End(t) => t in p.workers && p.workers[t].Active?
    case Count(t) => t in p.workers && p.workers[t].Ran?
    case Quit(t) => t in p.workers && p.workers[t].Idle? && t in p.table &&
                    ((!p.phase.Running? && p.queue == []) || !p.table[t])
    case Erase(t) => t in p.workers && p.workers[t].Leaving? && p.lock.Free?
  }

  /** The steps that move one worker on. */
  predicate Moves(s: Step) {
    s.Spawn? || s.LookUp? || s.Pop? || s.Begin? || s.End? || s.Count? || s.Quit?
  }

  /** Where such a step takes its worker. */
  function Moved(p: Pool, s: Step): Worker
    requires Enabled(p, s) && Moves(s)
  {
    match s
    case Spawn(t) => Started
    case LookUp(t) => if t in p.table then Idle else Lost
    case Pop(t) => Popped(p.queue[0])
    case Begin(t) => Active(p.workers[t].task)
    case End(t) => Ran(p.workers[t].task)
    case Count(t) => Idle
    case Quit(t) => Leaving
  }

  function NextWorkers(p: Pool, s: Step): map<Tid, Worker>
    requires Enabled(p, s)
  {
    if Moves(s) then p.workers[s.t := Moved(p, s)] else if s.Erase? then p.workers - {s.t} else p.workers
  }

  /** What a step does to everything but the workers and the tasks they began and finished. */
  function NextShared(p: Pool, s: Step): Pool
    requires Enabled(p, s)
  {
    match s
    case InitBegin(c, m) => p.(coreSize := c, maxSize := m, initializing := true, leftOver := |p.table|)
    case InitTest => p.(creating := true)
    case InitLock => p.(lock := Creating(true, None))
    case InitEnd => p.(phase := Running, initializing := false)
    case Push => p.(queue := p.queue + [p.submitted], submitted := p.submitted + 1)
    case ExtendLock => p.(lock := Creating(false, None))
    case Shutdown => p.(phase := Terminating)
    case Spawn(t) => p.(lock := p.lock.(spawned := Some(t)))
    case SpawnFails =>
      if p.lock.core then p.(lock := Free, creating := false, initializing := false) else p.(lock := Free)
    case Insert =>
      var q := p.(table := p.table[p.lock.spawned.value := p.lock.core], lock := Free);
      if p.lock.core then q.(creating := false) else q
    case LookUp(t) => if t in p.table then p else p.(lock := Abandoned)
    case Pop(t) => p.(queue := p.queue[1..])
    case Begin(t) => p.(activeCount := p.activeCount + 1)
    case End(t) => p.(activeCount := p.activeCount - 1)
    case Count(t) => p.(taskCount := p.taskCount + 1)
    case Quit(t) => p
    case Erase(t) => p.(table := p.table - {t})
  }

  function Apply(p: Pool, s: Step): Pool
    requires Enabled(p, s)
  {
    NextShared(p, s).(
      workers := NextWorkers(p, s),
      started := if s.Begin? then p.started + [p.workers[s.t].task] else p.started,
      finished := if s.Count? then p.finished + {p.workers[s.t].task} else p.finished)
  }

  predicate IsRun(p: Pool, steps: seq<Step>)
    decreases steps
  {
    steps == [] || (Enabled(p, steps[0]) && IsRun(Apply(p, steps[0]), steps[1..]))
  }

  function Final(p: Pool, steps: seq<Step>): Pool
    requires IsRun(p, steps)
    decreases steps
  {
    if steps == [] then p else Final(Apply(p, steps[0]), steps[1..])
  }

  // ---------------------------------------------------------------- the invariant

  predicate HasTask(w: Worker) {
    w.Popped? || w.Active? || w.Ran?
  }

  predicate Holds(w: Worker, x: Task) {
    HasTask(w) && w.task == x
  }

  function ActiveWorkers(ws: map<Tid, Worker>): set<Tid> {
    set t | t in ws && ws[t].Active?
  }

  /** The first task that is still in the queue. */
  function Head(p: Pool): int {
    p.submitted - |p.queue|
  }

  /** The thread that `create_thread` has made and not yet entered. */
  predicate Pending(lock: Lock, t: Tid) {
    lock.Creating? && lock.spawned == Some(t)
  }

  /** Every existing thread has its own table entry or is the one being entered, which has not looked yet. */
  ghost predicate Entered(lock: Lock, table: map<Tid, bool>, ws: map<Tid, Worker>) {
    && !lock.Abandoned?
    && (forall t | t in table :: t in ws && !Pending(lock, t))
    && (forall t | t in ws :: !ws[t].Lost? && (t in table || Pending(lock, t)))
    && (lock.Creating? && lock.spawned.Some? ==> lock.spawned.value in ws && ws[lock.spawned.value].Started?)
  }

  ghost predicate TableOk(p: Pool) {
    Entered(p.lock, p.table, p.workers)
  }

  function Max(a: int, b: int): int {
    if a < b then b else a
  }

  /** The table is bounded by the core size during `init` and by the maximal size afterwards, or by
      what earlier calls of `init` left over. */
  ghost predicate BoundOk(p: Pool) {
    && (p.phase.New? && !p.initializing ==> !p.creating && !p.lock.Creating?)
    && (p.creating ==> p.initializing && |p.table| < p.coreSize)
    && (p.lock.Creating? ==> if p.lock.core then p.creating else !p.phase.New? && |p.table| < p.maxSize)
    && (p.initializing ==> p.phase.New?)
    && 0 <= p.coreSize <= p.maxSize
    && |p.table| <= Max(p.leftOver, if p.phase.New? then p.coreSize else p.maxSize)
  }

  function CoreThreads(table: map<Tid, bool>): set<Tid> {
    set t | t in table && table[t]
  }

  /** `init` makes core threads only, and they are never more than it was asked for, or than it found;
      `extend_thread` makes none. */
  ghost predicate CoreOk(p: Pool) {
    && |CoreThreads(p.table)| <= Max(p.leftOver, p.coreSize)
    && (p.phase.New? ==> forall t | t in p.table :: p.table[t])
  }

  ghost predicate Counted(ws: map<Tid, Worker>, n: int) {
    n == |ActiveWorkers(ws)|
  }

  ghost predicate CountsOk(p: Pool) {
    Counted(p.workers, p.activeCount) && p.taskCount == |p.finished|
  }

  /** The queue holds the youngest tasks, oldest first. */
  ghost predicate QueueOk(p: Pool) {
    |p.queue| <= p.submitted && forall i | 0 <= i < |p.queue| :: p.queue[i] == Head(p) + i
  }

  /** A task in the hands of a worker has left the queue, is not finished, and is nobody else's. */
  ghost predicate HandsOk(p: Pool) {
    && (forall t | t in p.workers && HasTask(p.workers[t]) ::
          p.workers[t].task < Head(p) && p.workers[t].task !in p.finished)
    && (forall t, u | t in p.workers && u in p.workers && HasTask(p.workers[t]) && HasTask(p.workers[u]) ::
          p.workers[t].task == p.workers[u].task ==> t == u)
    && (forall x | x in p.finished :: x < Head(p))
  }

  /** A task that has left the queue is finished or in somebody's hands. */
  ghost predicate CoverOk(p: Pool) {
    forall x: Task | x < Head(p) :: x in p.finished || InHands(p.workers, x)
  }

  ghost predicate InHands(ws: map<Tid, Worker>, x: Task) {
    exists t :: t in ws && Holds(ws[t], x)
  }

  /** A task that began to run is being run or was run, and began only once. */
  ghost predicate StartedOk(p: Pool) {
    && (forall i, j | 0 <= i < j < |p.started| :: p.started[i] != p.started[j])
    && (forall i | 0 <= i < |p.started| :: p.started[i] < Head(p))
    && (forall t | t in p.workers && p.workers[t].Popped? :: p.workers[t].task !in p.started)
  }

  /** Only a task that began to run is finished. */
  ghost predicate FinishedOk(p: Pool) {
    && (forall t | t in p.workers && (p.workers[t].Active? || p.workers[t].Ran?) :: p.workers[t].task in p.started)
    && (forall x | x in p.finished :: x in p.started)
  }

  ghost predicate Inv(p: Pool) {
    && TableOk(p) && BoundOk(p) && CoreOk(p) && CountsOk(p) && QueueOk(p)
    && HandsOk(p) && CoverOk(p) && StartedOk(p) && FinishedOk(p)
  }

  lemma StepKeepsTable(p: Pool, s: Step)
    requires TableOk(p) && Enabled(p, s)
    ensures TableOk(Apply(p, s))
  {
    hide Entered;
    if s.Spawn? {
      SpawnKeepsEntered(p.lock, p.table, p.workers, s.t);
    } else if s.Erase? {
      EraseKeepsEntered(p.lock, p.table, p.workers, s.t);
    } else if Moves(s) {
      MoveStepKeepsTable(p, s);
    } else {
      LockMoves(p.lock, p.table, p.workers);
    }
  }

  lemma MoveStepKeepsTable(p: Pool, s: Step)
    requires TableOk(p) && Enabled(p, s) && Moves(s) && !s.Spawn?
    ensures TableOk(Apply(p, s))
  {
    assert s.t in p.workers && (p.lock.Free? || !p.workers[s.t].Started?);
    hide Entered;
    MoveKeepsEntered(p.lock, p.table, p.workers, s.t, if s.LookUp? then Idle else Moved(p, s));
    LockUntouched(p, s);
    hide NextShared, Enabled;
  }

  lemma LockUntouched(p: Pool, s: Step)
    requires Enabled(p, s) && Moves(s) && !s.Spawn? && s.t in p.table
    ensures NextShared(p, s).lock == p.lock && NextShared(p, s).table == p.table
  {
  }

  lemma LockMoves(lock: Lock, table: map<Tid, bool>, ws: map<Tid, Worker>)
    requires Entered(lock, table, ws)
    ensures forall core :: lock.Free? ==> Entered(Creating(core, None), table, ws)
    ensures lock.Creating? && lock.spawned.None? ==> Entered(Free, table, ws)
    ensures lock.Creating? && lock.spawned.Some? ==> Entered(Free, table[lock.spawned.value := lock.core], ws)
  {
  }

  lemma SpawnKeepsEntered(lock: Lock, table: map<Tid, bool>, ws: map<Tid, Worker>, t: Tid)
    requires Entered(lock, table, ws) && lock.Creating? && lock.spawned.None? && t !in ws
    ensures Entered(lock.(spawned := Some(t)), table, ws[t := Started])
  {
  }

  lemma EraseKeepsEntered(lock: Lock, table: map<Tid, bool>, ws: map<Tid, Worker>, t: Tid)
    requires Entered(lock, table, ws) && lock.Free?
    ensures Entered(lock, table - {t}, ws - {t})
  {
  }

  /** A worker that moves on is in the table: the one being entered waits for the lock. */
  lemma MoveKeepsEntered(lock: Lock, table: map<Tid, bool>, ws: map<Tid, Worker>, t: Tid, w: Worker)
    requires Entered(lock, table, ws) && t in ws && !w.Lost? && (lock.Free? || !ws[t].Started?)
    ensures t in table && Entered(lock, table, ws[t := w])
  {
  }

  lemma TableSizes(p: Pool, t: Tid, core: bool)
    ensures |p.table[t := core]| <= |p.table| + 1 && |p.table - {t}| <= |p.table|
  {
    assert p.table[t := core].Keys == p.table.Keys + {t} && (p.table - {t}).Keys == p.table.Keys - {t};
    assert |p.table| == |p.table.Keys| && |p.table[t := core]| == |p.table[t := core].Keys|;
    assert |p.table - {t}| == |(p.table - {t}).Keys|;
  }

  lemma StepKeepsBound(p: Pool, s: Step)
    requires BoundOk(p) && Enabled(p, s) && !p.lock.Abandoned?
    ensures BoundOk(Apply(p, s))
  {
    if s.Erase? { TableSizes(p, s.t, true); }
    if s.Insert? { TableSizes(p, p.lock.spawned.value, p.lock.core); }
  }

  /** The table stays within the maximal size over every step, except that a call of `init` after a
      failed one may ask for less than is already there. */
  lemma StepKeepsSizeIff(p: Pool, s: Step)
    requires BoundOk(p) && Enabled(p, s) && |p.table| <= p.maxSize
    ensures var q := Apply(p, s);
            |q.table| <= q.maxSize <==> (s.InitBegin? ==> |p.table| <= s.maxSize)
  {
    if s.Erase? { TableSizes(p, s.t, true); }
    if s.Insert? { TableSizes(p, p.lock.spawned.value, p.lock.core); }
  }

  lemma StepKeepsCore(p: Pool, s: Step)
    requires TableOk(p) && BoundOk(p) && CoreOk(p) && Enabled(p, s)
    ensures CoreOk(Apply(p, s))
  {
    CoreIsPart(p.table);
    hide CoreThreads;
    if s.Erase? {
      CoreErase(p.table, s.t);
    } else if s.Insert? {
      CoreInsert(p.table, p.lock.spawned.value, p.lock.core);
    } else {
      TableUntouched(p, s);
      if s.InitEnd? { assert p.phase.New?; }
      PhaseAdvances(p, s);
      hide NextShared;
      if s.InitBegin? { assert Apply(p, s).leftOver == |p.table| by { BeginLeavesOver(p, s); } }
    }
  }

  lemma CoreIsPart(table: map<Tid, bool>)
    ensures |CoreThreads(table)| <= |table|
  {
    assert CoreThreads(table) <= table.Keys;
    Subset(CoreThreads(table), table.Keys);
    assert |table| == |table.Keys|;
  }

  lemma Subset(a: set<Tid>, b: set<Tid>)
    requires a <= b
    ensures |a| <= |b|
  {
    assert b == a + (b - a);
  }

  lemma CoreErase(table: map<Tid, bool>, t: Tid)
    ensures |CoreThreads(table - {t})| <= |CoreThreads(table)|
  {
    Subset(CoreThreads(table - {t}), CoreThreads(table));
  }

  lemma CoreInsert(table: map<Tid, bool>, t: Tid, core: bool)
    requires t !in table
    ensures |CoreThreads(table[t := core])| == |CoreThreads(table)| + if core then 1 else 0
  {
    assert CoreThreads(table[t := core]) == if core then CoreThreads(table) + {t} else CoreThreads(table);
  }

  lemma TableUntouched(p: Pool, s: Step)
    requires Enabled(p, s) && !s.Erase? && !s.Insert?
    ensures Apply(p, s).table == p.table
    ensures !s.InitBegin? ==> Apply(p, s).coreSize == p.coreSize && Apply(p, s).leftOver == p.leftOver
  {
    hide NextWorkers, Enabled;
  }

  lemma BeginLeavesOver(p: Pool, s: Step)
    requires Enabled(p, s) && s.InitBegin?
    ensures Apply(p, s).leftOver == |p.table|
  {
  }

  function Rank(phase: Phase): nat {
    match phase
    case New => 0
    case Running => 1
    case Terminating => 2
  }

  /** A pool runs once `init` is through, and no longer once it is shut down; nothing else changes that. */
  lemma PhaseAdvances(p: Pool, s: Step)
    requires Enabled(p, s) && (s.InitEnd? ==> p.phase.New?)
    ensures Rank(Apply(p, s).phase) == Rank(p.phase) + if s.InitEnd? || s.Shutdown? then 1 else 0
  {
    assert s.Shutdown? ==> p.phase.Running?;
    hide NextWorkers, Enabled;
  }

  function ActiveIn(ws: map<Tid, Worker>, t: Tid): int {
    if t in ws && ws[t].Active? then 1 else 0
  }

  lemma MoveCounted(ws: map<Tid, Worker>, n: int, t: Tid, w: Worker)
    requires Counted(ws, n)
    ensures Counted(ws[t := w], n - ActiveIn(ws, t) + if w.Active? then 1 else 0)
  {
    var a, b := ActiveWorkers(ws), ActiveWorkers(ws[t := w]);
    assert b == if w.Active? then a + {t} else a - {t};
  }

  lemma EraseCounted(ws: map<Tid, Worker>, n: int, t: Tid)
    requires Counted(ws, n)
    ensures Counted(ws - {t}, n - ActiveIn(ws, t))
  {
    assert ActiveWorkers(ws - {t}) == ActiveWorkers(ws) - {t};
  }

  /** What a step does to workers, tasks and counters. */
  lemma Effects(p: Pool, s: Step)
    requires Enabled(p, s)
    ensures var q := Apply(p, s);
            && q.workers == (if Moves(s) then p.workers[s.t := Moved(p, s)]
                             else if s.Erase? then p.workers - {s.t} else p.workers)
            && q.started == (if s.Begin? then p.started + [Moved(p, s).task] else p.started)
            && q.finished == (if s.Count? then p.finished + {p.workers[s.t].task} else p.finished)
            && q.taskCount == p.taskCount + (if s.Count? then 1 else 0)
            && q.activeCount == p.activeCount + (if s.Begin? then 1 else if s.End? then -1 else 0)
  {
    EffectOnCounts(p, s);
    hide NextShared, Moves;
  }

  lemma EffectOnCounts(p: Pool, s: Step)
    requires Enabled(p, s)
    ensures var q := Apply(p, s);
            && q.taskCount == p.taskCount + (if s.Count? then 1 else 0)
            && q.activeCount == p.activeCount + (if s.Begin? then 1 else if s.End? then -1 else 0)
  {
    hide Enabled, NextWorkers;
  }

  /** Where a worker comes from and where it goes. */
  lemma Turns(p: Pool, s: Step)
    requires Enabled(p, s) && Moves(s)
    ensures var w := Moved(p, s);
            if s.Spawn? then s.t !in p.workers && w.Started?
            else s.t in p.workers &&
                 var v := p.workers[s.t];
                 && (s.Pop? <==> w.Popped?) && (s.Begin? <==> w.Active?) && (s.End? <==> w.Ran?)
                 && (s.Begin? <==> v.Popped?) && (s.End? <==> v.Active?) && (s.Count? <==> v.Ran?)
                 && (s.Begin? || s.End? ==> w.task == v.task)
                 && (s.Pop? ==> p.queue != [] && w.task == p.queue[0])
  {
  }

  lemma StepKeepsActive(p: Pool, s: Step)
    requires Counted(p.workers, p.activeCount) && Enabled(p, s)
    ensures Counted(Apply(p, s).workers, Apply(p, s).activeCount)
  {
    if s.Erase? { assert s.t in p.workers && p.workers[s.t].Leaving?; }
    hide Counted, Apply, Enabled, Moved;
    Effects(p, s);
    if Moves(s) {
      Turns(p, s);
      MoveCounted(p.workers, p.activeCount, s.t, Moved(p, s));
    } else if s.Erase? {
      EraseCounted(p.workers, p.activeCount, s.t);
    }
  }

  lemma StepKeepsCounts(p: Pool, s: Step)
    requires CountsOk(p) && HandsOk(p) && Enabled(p, s)
    ensures CountsOk(Apply(p, s))
  {
    hide Counted, Apply, Enabled, Moved;
    StepKeepsActive(p, s);
    Effects(p, s);
    if s.Count? {
      Turns(p, s);
      NotFinished(p, s.t);
    }
    hide HandsOk;
  }

  lemma NotFinished(p: Pool, t: Tid)
    requires HandsOk(p) && t in p.workers && HasTask(p.workers[t])
    ensures p.workers[t].task < Head(p) && p.workers[t].task !in p.finished
  {
  }

  lemma StepKeepsQueue(p: Pool, s: Step)
    requires QueueOk(p) && Enabled(p, s)
    ensures QueueOk(Apply(p, s)) && Head(Apply(p, s)) == Head(p) + if s.Pop? then 1 else 0
    ensures s.Pop? ==> p.queue[0] == Head(p)
  {
    hide NextWorkers;
    if s.Push? {
      assert Apply(p, s).queue == p.queue + [p.submitted];
    } else if s.Pop? {
      assert Apply(p, s).queue == p.queue[1..];
    } else {
      assert Apply(p, s).queue == p.queue && Apply(p, s).submitted == p.submitted;
    }
  }

  /** The task a worker holds after a step it held before, unless it has just been popped. */
  lemma HeldBefore(p: Pool, s: Step, t: Tid)
    requires Enabled(p, s) && t in Apply(p, s).workers && HasTask(Apply(p, s).workers[t]) && !(s.Pop? && s.t == t)
    ensures t in p.workers && Holds(p.workers[t], Apply(p, s).workers[t].task) && !(s.Count? && s.t == t)
  {
    hide Apply, Enabled, Moved;
    Effects(p, s);
    if Moves(s) { Turns(p, s); }
  }

  lemma PopNow(p: Pool, s: Step)
    requires QueueOk(p) && Enabled(p, s) && s.Pop?
    ensures s.t in Apply(p, s).workers && Apply(p, s).workers[s.t] == Popped(Head(p))
    ensures Apply(p, s).finished == p.finished && Apply(p, s).started == p.started
  {
  }

  lemma StepKeepsHands(p: Pool, s: Step)
    requires QueueOk(p) && HandsOk(p) && Enabled(p, s)
    ensures HandsOk(Apply(p, s))
  {
    var q := Apply(p, s);
    StepKeepsQueue(p, s);
    Effects(p, s);
    if s.Pop? { PopNow(p, s); }
    if s.Count? { Turns(p, s); }
    hide QueueOk, Head, Apply, Enabled, Moved;
    forall t | t in q.workers && HasTask(q.workers[t])
      ensures q.workers[t].task < Head(q) && q.workers[t].task !in q.finished
    {
      if !(s.Pop? && s.t == t) { HeldBefore(p, s, t); }
    }
    forall t, u | t in q.workers && u in q.workers && HasTask(q.workers[t]) && HasTask(q.workers[u])
                  && q.workers[t].task == q.workers[u].task
      ensures t == u
    {
      if !(s.Pop? && s.t == t) { HeldBefore(p, s, t); }
      if !(s.Pop? && s.t == u) { HeldBefore(p, s, u); }
    }
  }

  lemma StepKeepsCover(p: Pool, s: Step)
    requires QueueOk(p) && CoverOk(p) && Enabled(p, s)
    ensures CoverOk(Apply(p, s))
  {
    var q := Apply(p, s);
    StepKeepsQueue(p, s);
    hide QueueOk, Head;
    forall x: Task | x < Head(q) ensures x in q.finished || InHands(q.workers, x) {
      if x >= Head(p) {
        assert Holds(q.workers[s.t], x);
      } else if x !in p.finished {
        var t :| t in p.workers && Holds(p.workers[t], x);
        StillHeld(p, s, t, x);
      }
    }
  }

  lemma StillHeld(p: Pool, s: Step, t: Tid, x: Task)
    requires Enabled(p, s) && t in p.workers && Holds(p.workers[t], x)
    ensures x in Apply(p, s).finished || InHands(Apply(p, s).workers, x)
  {
    var q := Apply(p, s);
    if !(s.Count? && s.t == t) { assert t in q.workers && Holds(q.workers[t], x); }
  }

  lemma StepKeepsStarted(p: Pool, s: Step)
    requires QueueOk(p) && HandsOk(p) && StartedOk(p) && Enabled(p, s)
    ensures StartedOk(Apply(p, s))
  {
    StepKeepsQueue(p, s);
    hide QueueOk, Head;
    if s.Begin? {
      BeginKeepsStarted(p, s.t);
    } else if s.Pop? {
      PopKeepsStarted(p, s.t);
    } else {
      hide HandsOk;
      var q := Apply(p, s);
      assert q.started == p.started;
      forall t | t in q.workers && q.workers[t].Popped? ensures q.workers[t].task !in q.started {
        assert t in p.workers && p.workers[t] == q.workers[t];
      }
    }
  }

  lemma BeginKeepsStarted(p: Pool, t: Tid)
    requires HandsOk(p) && StartedOk(p) && Enabled(p, Begin(t))
    ensures StartedOk(Apply(p, Begin(t)))
  {
    var q, x := Apply(p, Begin(t)), p.workers[t].task;
    hide Head;
    NotFinished(p, t);
    assert q.started == p.started + [x];
    forall u | u in q.workers && q.workers[u].Popped? ensures q.workers[u].task !in q.started {
      assert u in p.workers && HasTask(p.workers[u]) && HasTask(p.workers[t]);
    }
  }

  lemma PopKeepsStarted(p: Pool, t: Tid)
    requires QueueOk(p) && StartedOk(p) && Enabled(p, Pop(t))
    ensures StartedOk(Apply(p, Pop(t)))
  {
    var q := Apply(p, Pop(t));
    assert p.queue[0] == Head(p) && p.queue[0] !in p.started;
    assert q.started == p.started && Head(q) == Head(p) + 1;
  }

  lemma StepKeepsFinished(p: Pool, s: Step)
    requires FinishedOk(p) && Enabled(p, s)
    ensures FinishedOk(Apply(p, s))
  {
    var q := Apply(p, s);
    Effects(p, s);
    if Moves(s) { Turns(p, s); }
    hide Apply, Enabled, Moved;
    forall t | t in q.workers && (q.workers[t].Active? || q.workers[t].Ran?) ensures q.workers[t].task in q.started {
      if s.Begin? && s.t == t {
        assert q.started[|p.started|] == q.workers[t].task;
      } else {
        assert t in p.workers && (p.workers[t].Active? || p.workers[t].Ran?) && p.workers[t].task == q.workers[t].task;
      }
    }
  }

  /** Every step keeps the invariant. */
  lemma StepKeepsInv(p: Pool, s: Step)
    requires Inv(p) && Enabled(p, s)
    ensures Inv(Apply(p, s))
  {
    assert !p.lock.Abandoned?;
    hide TableOk, BoundOk, CoreOk, CountsOk, QueueOk, HandsOk, CoverOk, StartedOk, FinishedOk, Apply, Enabled;
    StepKeepsTable(p, s);
    StepKeepsCore(p, s);
    StepKeepsBound(p, s);
    StepKeepsFinished(p, s);
    StepKeepsCounts(p, s);
    StepKeepsQueue(p, s);
    StepKeepsHands(p, s);
    StepKeepsCover(p, s);
    StepKeepsStarted(p, s);
  }

  lemma {:induction false} RunKeepsInv(p: Pool, steps: seq<Step>)
    requires Inv(p) && IsRun(p, steps)
    ensures Inv(Final(p, steps))
    decreases steps
  {
    if steps != [] {
      StepKeepsInv(p, steps[0]);
      RunKeepsInv(Apply(p, steps[0]), steps[1..]);
    }
  }

  lemma FreshInv()
    ensures Inv(Fresh)
  {
  }

  /** In every reachable state: the table is bounded; whoever looks for its entry finds it and gives the
      lock back; the active count is the number of workers running a task; no task began twice, and
      only tasks that began are finished; and once the queue is empty and no worker holds a task,
      exactly the submitted tasks are finished. */
  lemma Safety(steps: seq<Step>)
    requires IsRun(Fresh, steps)
    ensures var p := Final(Fresh, steps);
            && Inv(p)
            && |p.table| <= Max(p.leftOver, p.maxSize) && |CoreThreads(p.table)| <= Max(p.leftOver, p.coreSize)
            && (forall t | t in p.workers && Enabled(p, LookUp(t)) ::
                  t in p.table && Apply(p, LookUp(t)).lock.Free?)
            && p.activeCount == |ActiveWorkers(p.workers)|
            && (forall i, j | 0 <= i < j < |p.started| :: p.started[i] != p.started[j])
            && (forall x | x in p.finished :: x in p.started)
            && (p.queue == [] && (forall t | t in p.workers :: !HasTask(p.workers[t])) ==>
                  forall x: Task :: x in p.finished <==> x < p.submitted)
  {
    FreshInv();
    RunKeepsInv(Fresh, steps);
    hide IsRun, Final;
    Settled(Final(Fresh, steps));
  }

  lemma Settled(p: Pool)
    requires Inv(p)
    ensures |p.table| <= Max(p.leftOver, p.maxSize)
    ensures forall t | t in p.workers && Enabled(p, LookUp(t)) :: t in p.table && Apply(p, LookUp(t)).lock.Free?
    ensures p.queue == [] && (forall t | t in p.workers :: !HasTask(p.workers[t])) ==>
              forall x: Task :: x in p.finished <==> x < p.submitted
  {
    AllDone(p);
    LooksFind(p);
    hide TableOk, CoreOk, CountsOk, QueueOk, HandsOk, CoverOk, StartedOk, FinishedOk, Enabled, Apply;
  }

  lemma LooksFind(p: Pool)
    requires TableOk(p)
    ensures forall t | t in p.workers && Enabled(p, LookUp(t)) :: t in p.table && Apply(p, LookUp(t)).lock.Free?
  {
  }

  lemma AllDone(p: Pool)
    requires QueueOk(p) && HandsOk(p) && CoverOk(p)
    ensures p.queue == [] && (forall t | t in p.workers :: !HasTask(p.workers[t])) ==>
              forall x: Task :: x in p.finished <==> x < p.submitted
  {
    if p.queue == [] && forall t | t in p.workers :: !HasTask(p.workers[t]) {
      forall x: Task ensures x in p.finished <==> x < p.submitted {
        assert !InHands(p.workers, x);
        assert Head(p) == p.submitted;
      }
    }
  }

  // ---------------------------------------------------------------- the work can be done

  lemma Unfold(p: Pool, s: Step, rest: seq<Step>)
    requires Enabled(p, s) && IsRun(Apply(p, s), rest)
    ensures IsRun(p, [s] + rest) && Final(p, [s] + rest) == Final(Apply(p, s), rest)
  {
    hide Enabled, Apply;
    assert ([s] + rest)[1..] == rest;
  }

  lemma {:induction false} RunConcat(p: Pool, a: seq<Step>, b: seq<Step>)
    requires IsRun(p, a) && IsRun(Final(p, a), b)
    ensures IsRun(p, a + b) && Final(p, a + b) == Final(Final(p, a), b)
    decreases a
  {
    hide Enabled, Apply;
    if a == [] {
      assert a + b == b;
    } else {
      RunConcat(Apply(p, a[0]), a[1..], b);
      assert (a + b)[1..] == a[1..] + b;
    }
  }

  /** A step of a worker, or the end of `create_thread` for a thread that is already running. */
  predicate OfWorker(s: Step) {
    s.LookUp? || s.Pop? || s.Begin? || s.End? || s.Count? || s.Insert? || s.SpawnFails?
  }

  ghost predicate Alive(p: Pool, t: Tid) {
    t in p.workers && !p.workers[t].Leaving?
  }

  function Stages(w: Worker): nat {
    match w
    case Popped(_) => 3
    case Active(_) => 2
    case Ran(_) => 1
    case _ => 0
  }

  /** A run by workers only that leads from p to q. */
  ghost predicate WorksTo(p: Pool, steps: seq<Step>, q: Pool) {
    IsRun(p, steps) && Final(p, steps) == q && forall s | s in steps :: OfWorker(s)
  }

  lemma WorksFirst(p: Pool, s: Step, steps: seq<Step>, q: Pool)
    requires Enabled(p, s) && OfWorker(s) && WorksTo(Apply(p, s), steps, q)
    ensures WorksTo(p, [s] + steps, q)
  {
    Unfold(p, s, steps);
  }

  lemma WorksThen(p: Pool, a: seq<Step>, q: Pool, b: seq<Step>, r: Pool)
    requires WorksTo(p, a, q) && WorksTo(q, b, r)
    ensures WorksTo(p, a + b, r)
  {
    RunConcat(p, a, b);
  }

  /** The next step of a worker with a task, and where it takes the worker. */
  function NextStep(w: Worker, u: Tid): Step
    requires HasTask(w)
  {
    match w
    case Popped(_) => Begin(u)
    case Active(_) => End(u)
    case Ran(_) => Count(u)
  }

  function NextStage(w: Worker): Worker
    requires HasTask(w)
  {
    match w
    case Popped(x) => Active(x)
    case Active(x) => Ran(x)
    case Ran(_) => Idle
  }

  lemma CanWork(p: Pool, u: Tid)
    requires u in p.workers && HasTask(p.workers[u])
    ensures var s := NextStep(p.workers[u], u);
            Enabled(p, s) && OfWorker(s) && Moves(s) && Moved(p, s) == NextStage(p.workers[u])
  {
  }

  lemma Works(p: Pool, u: Tid)
    requires Inv(p) && u in p.workers && HasTask(p.workers[u])
    ensures var w, s := p.workers[u], NextStep(p.workers[u], u);
            && Enabled(p, s) && OfWorker(s)
            && var q := Apply(p, s);
               && Inv(q) && q.workers == p.workers[u := NextStage(w)] && q.submitted == p.submitted
               && q.taskCount == p.taskCount + (if w.Ran? then 1 else 0)
  {
    hide Inv, Enabled, Apply, Moved;
    var s := NextStep(p.workers[u], u);
    CanWork(p, u);
    StepKeepsInv(p, s);
    Effects(p, s);
    QueueUntouched(p, s);
  }

  /** A task in somebody's hands can be brought to its end. */
  lemma {:induction false} FinishHeld(p: Pool, u: Tid) returns (steps: seq<Step>, q: Pool)
    requires Inv(p) && u in p.workers && HasTask(p.workers[u])
    ensures WorksTo(p, steps, q) && Inv(q)
    ensures q.workers == p.workers[u := Idle] && q.taskCount == p.taskCount + 1 && q.submitted == p.submitted
    decreases Stages(p.workers[u])
  {
    hide Inv, Enabled, Apply, WorksTo, OfWorker;
    var w, s := p.workers[u], NextStep(p.workers[u], u);
    Works(p, u);
    var r := Apply(p, s);
    if w.Ran? {
      steps, q := [], r;
      NoWork(r);
    } else {
      steps, q := FinishHeld(r, u);
      assert p.workers[u := NextStage(w)][u := Idle] == p.workers[u := Idle];
    }
    WorksFirst(p, s, steps, q);
    steps := [s] + steps;
  }

  lemma QueueUntouched(p: Pool, s: Step)
    requires Enabled(p, s) && !s.Push?
    ensures Apply(p, s).submitted == p.submitted && (!s.Pop? ==> Apply(p, s).queue == p.queue)
  {
    hide NextWorkers, Enabled;
  }

  /** The lock can be given back. */
  lemma Release(p: Pool) returns (steps: seq<Step>, q: Pool)
    requires Inv(p)
    ensures WorksTo(p, steps, q) && Inv(q) && q.lock.Free?
    ensures q.workers == p.workers && q.taskCount == p.taskCount && q.submitted == p.submitted && q.queue == p.queue
  {
    if p.lock.Free? {
      steps, q := [], p;
      NoWork(p);
    } else {
      var s := if p.lock.spawned.Some? then Insert else SpawnFails;
      q := Apply(p, s);
      assert Enabled(p, s) && OfWorker(s) && q.lock.Free?;
      hide Inv, Enabled, Apply, WorksTo;
      StepKeepsInv(p, s);
      Effects(p, s);
      QueueUntouched(p, s);
      NoWork(q);
      WorksFirst(p, s, [], q);
      steps := [s] + [];
    }
  }

  lemma PopsNext(p: Pool, t: Tid)
    requires Inv(p) && t in p.workers && p.workers[t].Idle? && p.queue != []
    ensures Enabled(p, Pop(t)) && OfWorker(Pop(t))
    ensures var q := Apply(p, Pop(t));
            && Inv(q) && t in q.workers && q.workers[t].Popped?
            && q.taskCount == p.taskCount && q.submitted == p.submitted
  {
    hide Inv, Apply, Moved;
    StepKeepsInv(p, Pop(t));
    Effects(p, Pop(t));
    Turns(p, Pop(t));
    QueueUntouched(p, Pop(t));
  }

  lemma LooksUp(p: Pool, t: Tid)
    requires Inv(p) && t in p.workers && p.workers[t].Started? && p.lock.Free?
    ensures Enabled(p, LookUp(t)) && OfWorker(LookUp(t))
    ensures var q := Apply(p, LookUp(t));
            && Inv(q) && t in q.workers && q.workers[t].Idle?
            && q.taskCount == p.taskCount && q.submitted == p.submitted && q.queue == p.queue
  {
    assert t in p.table;
    hide Inv, Apply;
    StepKeepsInv(p, LookUp(t));
    Effects(p, LookUp(t));
    QueueUntouched(p, LookUp(t));
  }

  /** A worker without a task can take one. */
  lemma TakeTask(p: Pool, t: Tid) returns (steps: seq<Step>, q: Pool)
    requires Inv(p) && Alive(p, t) && !HasTask(p.workers[t]) && p.queue != []
    ensures WorksTo(p, steps, q) && Inv(q)
    ensures t in q.workers && q.workers[t].Popped? && q.taskCount == p.taskCount && q.submitted == p.submitted
  {
    assert !p.workers[t].Lost?;
    hide Inv, Enabled, Apply, WorksTo, OfWorker;
    if p.workers[t].Idle? {
      PopsNext(p, t);
      q := Apply(p, Pop(t));
      NoWork(q);
      WorksFirst(p, Pop(t), [], q);
      steps := [Pop(t)] + [];
    } else {
      var free, r := Release(p);
      LooksUp(r, t);
      var m := Apply(r, LookUp(t));
      PopsNext(m, t);
      q := Apply(m, Pop(t));
      NoWork(q);
      WorksFirst(m, Pop(t), [], q);
      WorksFirst(r, LookUp(t), [Pop(t)] + [], q);
      WorksThen(p, free, r, [LookUp(t)] + ([Pop(t)] + []), q);
      steps := free + ([LookUp(t)] + ([Pop(t)] + []));
    }
  }

  /** As long as one worker has not left its loop, the workers alone can bring every submitted task to its
      end, whatever state the pool is in. */
  lemma {:induction false} CanFinish(p: Pool, t: Tid) returns (steps: seq<Step>, q: Pool)
    requires Inv(p) && Alive(p, t)
    ensures WorksTo(p, steps, q) && q.submitted == p.submitted
    ensures q.queue == [] && forall x: Task :: x in q.finished <==> x < q.submitted
    decreases p.submitted - p.taskCount
  {
    hide WorksTo, Inv;
    FinishedBound(p);
    if u :| u in p.workers && HasTask(p.workers[u]) {
      var a, r := FinishHeld(p, u);
      FinishedBound(r);
      var b;
      b, q := CanFinish(r, t);
      WorksThen(p, a, r, b, q);
      steps := a + b;
    } else if p.queue != [] {
      var a, r := TakeTask(p, t);
      var b, m := FinishHeld(r, t);
      FinishedBound(m);
      var c;
      c, q := CanFinish(m, t);
      WorksThen(r, b, m, c, q);
      WorksThen(p, a, r, b + c, q);
      steps := a + (b + c);
    } else {
      Settled(p);
      NoWork(p);
      steps, q := [], p;
    }
  }

  lemma NoWork(p: Pool)
    ensures WorksTo(p, [], p)
  {
  }

  lemma FinishedBound(p: Pool)
    requires Inv(p)
    ensures p.taskCount <= p.submitted
  {
    Subset(p.finished, UpTo(p.submitted));
  }

  function UpTo(n: nat): (s: set<Task>)
    ensures |s| == n && forall x: Task :: x in s <==> x < n
  {
    if n == 0 then {} else UpTo(n - 1) + {n - 1}
  }

  /** Who may leave its loop: a core thread when the pool does not run and nothing is queued, any other
      idle thread at any time; and when a client may submit: once `init` is through. */
  lemma WhoMayLeave(p: Pool, t: Tid)
    requires t in p.workers && t in p.table && p.workers[t].Idle?
    ensures Enabled(p, Quit(t)) <==> !p.table[t] || (!p.phase.Running? && p.queue == [])
    ensures Enabled(p, Push) <==> Rank(p.phase) > 0
  {
  }

  lemma StepTo(p: Pool, s: Step, q: Pool, rest: seq<Step>)
    requires Enabled(p, s) && Apply(p, s) == q && IsRun(q, rest)
    ensures IsRun(p, [s] + rest) && Final(p, [s] + rest) == Final(q, rest)
  {
    Unfold(p, s, rest);
  }

  /** The states of a pool without core threads in which one task makes thread 7, which runs it and leaves
      after the shutdown. */
  const OneReady := Fresh.(phase := Running, maxSize := 1)
  const OneQueued := OneReady.(queue := [0], submitted := 1)
  const OneLocked := OneQueued.(lock := Creating(false, None))
  const OneSpawned := OneQueued.(lock := Creating(false, Some(7)), workers := map[7 := Started])
  const OneThread := OneQueued.(table := map[7 := false], workers := map[7 := Started])
  const OneIdle := OneThread.(workers := map[7 := Idle])
  const OnePopped := OneThread.(queue := [], workers := map[7 := Popped(0)])
  const OneActive := OnePopped.(workers := map[7 := Active(0)], started := [0], activeCount := 1)
  const OneRan := OnePopped.(workers := map[7 := Ran(0)], started := [0])
  const OneFinished := OnePopped.(workers := map[7 := Idle], started := [0], finished := {0}, taskCount := 1)
  const OneDown := OneFinished.(phase := Terminating)
  const OneLeaving := OneDown.(workers := map[7 := Leaving])
  const OneGone := OneDown.(table := map[], workers := map[])

  lemma FirstSteps()
    ensures var a := Fresh.(coreSize := 0, maxSize := 1, initializing := true);
            && Enabled(Fresh, InitBegin(0, 1)) && Apply(Fresh, InitBegin(0, 1)) == a
            && Enabled(a, InitEnd) && Apply(a, InitEnd) == OneReady
            && Enabled(OneReady, Push) && Apply(OneReady, Push) == OneQueued
  {
  }

  lemma ToOneLocked()
    ensures Enabled(OneQueued, ExtendLock) && Apply(OneQueued, ExtendLock) == OneLocked
  {
  }

  lemma ToOneSpawned()
    ensures Enabled(OneLocked, Spawn(7)) && Apply(OneLocked, Spawn(7)) == OneSpawned
  {
  }

  lemma ToOneThread()
    ensures Enabled(OneSpawned, Insert) && Apply(OneSpawned, Insert) == OneThread
  {
  }

  lemma ToOneIdle()
    ensures Enabled(OneThread, LookUp(7)) && Apply(OneThread, LookUp(7)) == OneIdle
  {
  }

  lemma ToOnePopped()
    ensures Enabled(OneIdle, Pop(7)) && Apply(OneIdle, Pop(7)) == OnePopped
  {
  }

  lemma ToOneActive()
    ensures Enabled(OnePopped, Begin(7)) && Apply(OnePopped, Begin(7)) == OneActive
  {
  }

  lemma ToOneRan()
    ensures Enabled(OneActive, End(7)) && Apply(OneActive, End(7)) == OneRan
  {
  }

  lemma ToOneFinished()
    ensures Enabled(OneRan, Count(7)) && Apply(OneRan, Count(7)) == OneFinished
  {
  }

  lemma ToOneDown()
    ensures Enabled(OneFinished, Shutdown) && Apply(OneFinished, Shutdown) == OneDown
  {
  }

  lemma ToOneLeaving()
    ensures Enabled(OneDown, Quit(7)) && Apply(OneDown, Quit(7)) == OneLeaving
  {
  }

  lemma ToOneGone()
    ensures Enabled(OneLeaving, Erase(7)) && Apply(OneLeaving, Erase(7)) == OneGone
  {
  }

  lemma OneEnds() returns (steps: seq<Step>)
    ensures IsRun(OneActive, steps) && Final(OneActive, steps) == OneGone
  {
    assert IsRun(OneGone, []) && Final(OneGone, []) == OneGone;
    hide Enabled, Apply, IsRun, Final;
    ToOneRan();
    ToOneFinished();
    ToOneDown();
    ToOneLeaving();
    ToOneGone();
    steps := [];
    StepTo(OneLeaving, Erase(7), OneGone, steps);
    steps := [Erase(7)] + steps;
    StepTo(OneDown, Quit(7), OneLeaving, steps);
    steps := [Quit(7)] + steps;
    StepTo(OneFinished, Shutdown, OneDown, steps);
    steps := [Shutdown] + steps;
    StepTo(OneRan, Count(7), OneFinished, steps);
    steps := [Count(7)] + steps;
    StepTo(OneActive, End(7), OneRan, steps);
    steps := [End(7)] + steps;
  }

  lemma OneRuns() returns (steps: seq<Step>)
    ensures IsRun(OneThread, steps) && Final(OneThread, steps) == OneGone
  {
    hide Enabled, Apply, IsRun, Final;
    ToOneIdle();
    ToOnePopped();
    ToOneActive();
    steps := OneEnds();
    StepTo(OnePopped, Begin(7), OneActive, steps);
    steps := [Begin(7)] + steps;
    StepTo(OneIdle, Pop(7), OnePopped, steps);
    steps := [Pop(7)] + steps;
    StepTo(OneThread, LookUp(7), OneIdle, steps);
    steps := [LookUp(7)] + steps;
  }

  lemma OneStarts() returns (steps: seq<Step>)
    ensures IsRun(OneQueued, steps) && Final(OneQueued, steps) == OneGone
  {
    hide Enabled, Apply, IsRun, Final;
    ToOneLocked();
    ToOneSpawned();
    ToOneThread();
    steps := OneRuns();
    StepTo(OneSpawned, Insert, OneThread, steps);
    steps := [Insert] + steps;
    StepTo(OneLocked, Spawn(7), OneSpawned, steps);
    steps := [Spawn(7)] + steps;
    StepTo(OneQueued, ExtendLock, OneLocked, steps);
    steps := [ExtendLock] + steps;
  }

  /** So every kind of step of clients and workers but a failure can be taken, and leads on. */
  lemma OneTask()
    ensures exists steps :: IsRun(Fresh, steps) && Final(Fresh, steps) == OneGone
  {
    hide Enabled, Apply, IsRun, Final;
    var a := Fresh.(coreSize := 0, maxSize := 1, initializing := true);
    FirstSteps();
    var steps := OneStarts();
    StepTo(OneReady, Push, OneQueued, steps);
    steps := [Push] + steps;
    StepTo(a, InitEnd, OneReady, steps);
    steps := [InitEnd] + steps;
    StepTo(Fresh, InitBegin(0, 1), a, steps);
    steps := [InitBegin(0, 1)] + steps;
  }

  // ---------------------------------------------------------------- when init fails

  /** A run in which no `init` fails leaves nothing over, so the table never exceeds the maximal size. */
  predicate NoInitFails(p: Pool, steps: seq<Step>)
    requires IsRun(p, steps)
    decreases steps
  {
    steps == [] || (!(steps[0].SpawnFails? && p.lock.core) && NoInitFails(Apply(p, steps[0]), steps[1..]))
  }

  lemma BoundedWithoutFailure(steps: seq<Step>)
    requires IsRun(Fresh, steps) && NoInitFails(Fresh, steps)
    ensures |Final(Fresh, steps).table| <= Final(Fresh, steps).maxSize
  {
    FreshInv();
    NothingLeftOver(Fresh, steps);
  }

  /** Nothing was left over, and nothing is there before the first `init`. */
  predicate CleanSoFar(p: Pool) {
    p.leftOver == 0 && (p.phase.New? && !p.initializing ==> p.table == map[])
  }

  lemma {:induction false} NothingLeftOver(p: Pool, steps: seq<Step>)
    requires Inv(p) && CleanSoFar(p) && IsRun(p, steps) && NoInitFails(p, steps)
    ensures |Final(p, steps).table| <= Final(p, steps).maxSize
    decreases steps
  {
    if steps == [] {
      hide StartedOk, CountsOk, QueueOk, HandsOk, CoverOk, FinishedOk, TableOk;
    } else {
      StaysClean(p, steps[0]);
      StepKeepsInv(p, steps[0]);
      hide Inv, CleanSoFar, Apply, Enabled;
      NothingLeftOver(Apply(p, steps[0]), steps[1..]);
    }
  }

  lemma StaysClean(p: Pool, s: Step)
    requires TableOk(p) && BoundOk(p) && CleanSoFar(p) && Enabled(p, s) && !(s.SpawnFails? && p.lock.core)
    ensures CleanSoFar(Apply(p, s))
  {
  }

  /** One round of the loop of `init`. */
  function Grow(t: Tid, rest: seq<Step>): seq<Step> {
    [InitTest] + ([InitLock] + ([Spawn(t)] + ([Insert] + rest)))
  }

  lemma Grows(p: Pool, t: Tid, rest: seq<Step>)
    requires p.initializing && !p.creating && p.lock.Free? && |p.table| < p.coreSize && t !in p.workers
    requires IsRun(p.(table := p.table[t := true], workers := p.workers[t := Started]), rest)
    ensures IsRun(p, Grow(t, rest))
    ensures Final(p, Grow(t, rest)) == Final(p.(table := p.table[t := true], workers := p.workers[t := Started]), rest)
  {
    hide IsRun, Final;
    var a := Apply(p, InitTest);
    var b := Apply(a, InitLock);
    var c := Apply(b, Spawn(t));
    assert Apply(c, Insert) == p.(table := p.table[t := true], workers := p.workers[t := Started]);
    Unfold(c, Insert, rest);
    Unfold(b, Spawn(t), [Insert] + rest);
    Unfold(a, InitLock, [Spawn(t)] + ([Insert] + rest));
    Unfold(p, InitTest, [InitLock] + ([Spawn(t)] + ([Insert] + rest)));
  }

  /** Two threads, a failed third, and a second `init` that asks for one: two threads where at most one
      is allowed. */
  lemma LeftOverExceeds()
    ensures var again := [InitTest] + ([InitLock] + ([SpawnFails] + ([InitBegin(1, 1)] + ([InitEnd] + []))));
            var steps := [InitBegin(3, 3)] + Grow(0, Grow(1, again));
            && IsRun(Fresh, steps)
            && var p := Final(Fresh, steps); p.phase.Running? && |p.table| == 2 > p.maxSize
  {
    var again := [InitTest] + ([InitLock] + ([SpawnFails] + ([InitBegin(1, 1)] + ([InitEnd] + []))));
    var p0 := Apply(Fresh, InitBegin(3, 3));
    var p1 := p0.(table := p0.table[0 := true], workers := p0.workers[0 := Started]);
    var p2 := p1.(table := p1.table[1 := true], workers := p1.workers[1 := Started]);
    FailsAgain(p2);
    assert |p1.table| == 1;
    hide IsRun, Final;
    Grows(p1, 1, again);
    Grows(p0, 0, Grow(1, again));
    Unfold(Fresh, InitBegin(3, 3), Grow(0, Grow(1, again)));
  }

  lemma FailsAgain(p: Pool)
    requires p.phase.New? && p.initializing && !p.creating && p.lock.Free? && p.coreSize == 3 && |p.table| == 2
    ensures var again := [InitTest] + ([InitLock] + ([SpawnFails] + ([InitBegin(1, 1)] + ([InitEnd] + []))));
            && IsRun(p, again)
            && var q := Final(p, again); q.phase.Running? && q.table == p.table && q.maxSize == 1
  {
    var a := Apply(p, InitTest);
    var b := Apply(a, InitLock);
    var c := Apply(b, SpawnFails);
    var d := Apply(c, InitBegin(1, 1));
    Unfold(d, InitEnd, []);
    hide IsRun, Final;
    Unfold(c, InitBegin(1, 1), [InitEnd] + []);
    Unfold(b, SpawnFails, [InitBegin(1, 1)] + ([InitEnd] + []));
    Unfold(a, InitLock, [SpawnFails] + ([InitBegin(1, 1)] + ([InitEnd] + [])));
    Unfold(p, InitTest, [InitLock] + ([SpawnFails] + ([InitBegin(1, 1)] + ([InitEnd] + []))));
  }
}
