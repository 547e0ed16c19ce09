/**
  * The invariant of the task queue, kept by every step of every thread, and what it means for whole
  * runs: every task is in one place, no wake-up is lost, waiting and destroying come to an end.
  */
module TaskqProof {
  import opened Taskq

  // ---------- counting ----------

  /** How many workers satisfy `p`. */
  ghost function Count(ws: seq<Worker>, p: Worker -> bool): nat {
    if ws == [] then 0 else One(ws[0], p) + Count(ws[1..], p)
  }

  ghost function One(w: Worker, p: Worker -> bool): nat {
    if p(w) then 1 else 0
  }

  predicate InWait(w: Worker) { w.Blocked? || w.Woken? }
  predicate IsBlocked(w: Worker) { w.Blocked? }
  predicate IsExited(w: Worker) { w.Exited? }
  predicate HasTask(w: Worker) { w.Running? || w.Done? }

  lemma {:induction false} CountUpdate(ws: seq<Worker>, i: nat, w: Worker, p: Worker -> bool)
    requires i < |ws|
    ensures Count(ws[i := w], p) + One(ws[i], p) == Count(ws, p) + One(w, p)
  {
    if i == 0 {
      assert ws[i := w][1..] == ws[1..];
    } else {
      CountUpdate(ws[1..], i - 1, w, p);
      assert ws[i := w][1..] == ws[1..][i - 1 := w];
    }
  }

  lemma {:induction false} CountAll(ws: seq<Worker>, p: Worker -> bool)
    ensures Count(ws, p) <= |ws|
    ensures Count(ws, p) == |ws| <==> forall i :: 0 <= i < |ws| ==> p(ws[i])
    ensures Count(ws, p) == 0 <==> forall i :: 0 <= i < |ws| ==> !p(ws[i])
  {
    if ws != [] {
      CountAll(ws[1..], p);
      assert forall i | 1 <= i < |ws| :: ws[i] == ws[1..][i - 1];
    }
  }

  lemma {:induction false} CountBounds(ws: seq<Worker>)
    ensures Count(ws, IsBlocked) <= Count(ws, InWait)
    ensures Count(ws, InWait) + Count(ws, IsExited) + Count(ws, HasTask) <= |ws|
  {
    if ws != [] {
      CountBounds(ws[1..]);
    }
  }

  /** How many workers are running task `t`. */
  ghost function InFlight(ws: seq<Worker>, t: nat): nat {
    if ws == [] then 0 else Runs(ws[0], t) + InFlight(ws[1..], t)
  }

  ghost function Runs(w: Worker, t: nat): nat {
    if w == Running(t) then 1 else 0
  }

  lemma {:induction false} InFlightUpdate(ws: seq<Worker>, i: nat, w: Worker, t: nat)
    requires i < |ws|
    ensures InFlight(ws[i := w], t) + Runs(ws[i], t) == InFlight(ws, t) + Runs(w, t)
  {
    if i == 0 {
      assert ws[i := w][1..] == ws[1..];
    } else {
      InFlightUpdate(ws[1..], i - 1, w, t);
      assert ws[i := w][1..] == ws[1..][i - 1 := w];
    }
  }

  lemma {:induction false} InFlightIdle(ws: seq<Worker>, t: nat)
    ensures Count(ws, HasTask) == 0 ==> InFlight(ws, t) == 0
  {
    if ws != [] {
      InFlightIdle(ws[1..], t);
    }
  }

  /** What replacing the state of one worker does to all the counts. */
  lemma {:induction false} Moves(ws: seq<Worker>, i: nat, w: Worker) returns (ws': seq<Worker>)
    requires i < |ws|
    ensures ws' == ws[i := w] && |ws'| == |ws|
    ensures Count(ws', InWait) == Count(ws, InWait) - One(ws[i], InWait) + One(w, InWait)
    ensures Count(ws', IsBlocked) == Count(ws, IsBlocked) - One(ws[i], IsBlocked) + One(w, IsBlocked)
    ensures Count(ws', IsExited) == Count(ws, IsExited) - One(ws[i], IsExited) + One(w, IsExited)
    ensures Count(ws', HasTask) == Count(ws, HasTask) - One(ws[i], HasTask) + One(w, HasTask)
    ensures forall t: nat :: InFlight(ws', t) == InFlight(ws, t) - Runs(ws[i], t) + Runs(w, t)
    ensures Count(ws', IsBlocked) <= Count(ws', InWait)
    ensures Count(ws', InWait) + Count(ws', IsExited) + Count(ws', HasTask) <= |ws'|
  {
    ws' := ws[i := w];
    CountUpdate(ws, i, w, InWait);
    CountUpdate(ws, i, w, IsBlocked);
    CountUpdate(ws, i, w, IsExited);
    CountUpdate(ws, i, w, HasTask);
    forall t: nat
      ensures InFlight(ws', t) == InFlight(ws, t) - Runs(ws[i], t) + Runs(w, t)
    {
      InFlightUpdate(ws, i, w, t);
    }
    CountBounds(ws');
  }

  lemma {:induction false} AllWoken(ws: seq<Worker>, ws': seq<Worker>)
    requires |ws'| == |ws| && forall i :: 0 <= i < |ws| ==> ws'[i] == WakeWorker(ws[i])
    ensures Count(ws', IsBlocked) == 0 && Count(ws', InWait) == Count(ws, InWait)
    ensures Count(ws', IsExited) == Count(ws, IsExited) && Count(ws', HasTask) == Count(ws, HasTask)
    ensures forall t: nat :: InFlight(ws', t) == InFlight(ws, t)
  {
    if ws != [] {
      AllWoken(ws[1..], ws'[1..]);
    }
  }

  // ---------- the invariant ----------

  ghost function Min(a: int, b: int): int { if a < b then a else b }

  /** The counters say where the workers and the task structures are. */
  ghost predicate Counted(s: State, n: nat) {
    && |s.workers| == n >= 1
    && s.active == n - Count(s.workers, InWait)
    && s.nthreads == n - Count(s.workers, IsExited)
    && s.nalloc == s.freelist + |s.queue| + Count(s.workers, HasTask)
  }

  /** The queue holds the tasks linked last, in link order. */
  ghost predicate Fifo(s: State) {
    |s.queue| <= s.linked && forall k :: 0 <= k < |s.queue| ==> s.queue[k] == s.linked - |s.queue| + k
  }

  /** A task that has left the queue is being run, or has been run, and that once; no other task is or has been. */
  ghost predicate Conserved(s: State) {
    forall t: nat :: InFlight(s.workers, t) + s.runs[t] == if t < s.linked - |s.queue| then 1 else 0
  }

  /** As many workers are not blocked as there are queued tasks, up to all of them; none is blocked after the
      shutdown. */
  ghost predicate Attended(s: State) {
    if s.on then
      && Count(s.workers, IsExited) == 0
      && |s.workers| - Count(s.workers, IsBlocked) >= Min(|s.workers|, |s.queue|)
    else Count(s.workers, IsBlocked) == 0
  }

  /** Whoever sleeps still has a reason to. */
  ghost predicate NoLostWait(s: State) {
    && (forall j :: 0 <= j < |s.waiters| && s.waiters[j].Sleeping? ==> Busy(s))
    && (s.destroyer == Waiting(Sleeping) ==> Busy(s))
    && (s.destroyer.ReapSleeping? ==> s.nthreads != 0)
  }

  /** What holds once taskq_wait has returned inside taskq_destroy. */
  ghost predicate Quiet(s: State) {
    s.queue == [] && Count(s.workers, HasTask) == 0
  }

  /** How far taskq_destroy has come. */
  ghost predicate Staged(s: State) {
    && (!s.destroyer.Absent? ==> s.allocating == 0)
    && match s.destroyer
       case Absent => s.on
       case Waiting(w) => s.on && (w.Returned? ==> Quiet(s))
       case Reaping => !s.on && Quiet(s)
       case ReapSleeping => !s.on && Quiet(s)
       case Draining => !s.on && Quiet(s) && s.nthreads == 0 && s.minalloc == 0
       case Finished => !s.on && Quiet(s) && s.nthreads == 0 && s.nalloc == 0
  }

  ghost predicate Inv(s: State, n: nat) {
    Counted(s, n) && Fifo(s) && Conserved(s) && Attended(s) && NoLostWait(s) && Staged(s)
  }

  // ---------- every step keeps it ----------

  lemma {:induction false} ReturnKeeps(s: State, n: nat, i: nat)
    requires Inv(s, n) && Enabled(s, Return(i))
    ensures Inv(Apply(s, Return(i)), n)
  {
    var ws := Moves(s.workers, i, Done(s.workers[i].task));
  }

  lemma {:induction false} WakeKeeps(s: State, n: nat, i: nat)
    requires Inv(s, n) && Enabled(s, Wake(i))
    ensures Inv(Apply(s, Wake(i)), n)
  {
    var ws := Moves(s.workers, i, Woken);
  }

  /** A worker holding the lock in front of its loop is the same as one about to take it. */
  lemma {:induction false} ExitKeeps(s: State, n: nat, i: nat)
    requires Inv(s, n) && i < |s.workers| && s.workers[i].Ready? && !s.on
    ensures Inv(Loop(s, i), n)
  {
    var ws := Moves(s.workers, i, Exited);
  }

  lemma {:induction false} BlockKeeps(s: State, n: nat, i: nat)
    requires Inv(s, n) && i < |s.workers| && s.workers[i].Ready? && s.on && s.queue == []
    ensures Inv(Loop(s, i), n)
  {
    var ws := Moves(s.workers, i, Blocked);
  }

  lemma {:induction false} TakeKeeps(s: State, n: nat, i: nat)
    requires Inv(s, n) && i < |s.workers| && s.workers[i].Ready? && s.on && s.queue != []
    ensures Inv(Loop(s, i), n)
  {
    var ws := Moves(s.workers, i, Running(s.queue[0]));
  }

  lemma {:induction false} LoopKeeps(s: State, n: nat, i: nat)
    requires Inv(s, n) && i < |s.workers| && s.workers[i].Ready?
    ensures Inv(Loop(s, i), n)
  {
    if !s.on {
      ExitKeeps(s, n, i);
    } else if s.queue == [] {
      BlockKeeps(s, n, i);
    } else {
      TakeKeeps(s, n, i);
    }
  }

  lemma {:induction false} WaitKeeps(s: State, n: nat, step: Step)
    requires Inv(s, n) && Enabled(s, step)
    requires step.WaitBegin? || step.WaitCheck? || step.WaitWake? || step.DispatchBegin? || step.DispatchFail?
    ensures Inv(Apply(s, step), n)
  {
  }

  /** The loop does not depend on where its worker was. */
  lemma {:induction false} LoopOver(s: State, i: nat, ws: seq<Worker>)
    requires i < |s.workers| && ws == s.workers[i := Ready]
    ensures Loop(s, i) == Loop(s.(workers := ws), i)
  {
    assert ws[i := Exited] == s.workers[i := Exited];
    assert ws[i := Blocked] == s.workers[i := Blocked];
    if s.queue != [] {
      assert ws[i := Running(s.queue[0])] == s.workers[i := Running(s.queue[0])];
    }
  }

  /** The state of a worker back from cv_wait, or with its task on the free list, in front of its loop. */
  ghost function AtLoop(s: State, i: nat): State
    requires i < |s.workers|
  {
    match s.workers[i]
    case Woken => s.(active := s.active + 1)
    case Done(_) => s.(freelist := s.freelist + 1)
    case _ => s
  }

  /** It is like one that is about to take the lock and look at the queue. */
  lemma {:induction false} AtLoopKeeps(s: State, n: nat, i: nat) returns (ws: seq<Worker>)
    requires Inv(s, n) && Enabled(s, Enter(i))
    ensures ws == s.workers[i := Ready] && Inv(AtLoop(s, i).(workers := ws), n)
  {
    ws := Moves(s.workers, i, Ready);
    CountBounds(s.workers);
  }

  lemma {:induction false} FreeKeeps(s: State, n: nat, i: nat)
    requires Inv(s, n) && i < |s.workers| && s.workers[i].Done? && s.nalloc > s.minalloc
    ensures Inv(EnterLock(s, i), n)
  {
    var ws := Moves(s.workers, i, Freeing);
  }

  lemma {:induction false} EnterKeeps(s: State, n: nat, i: nat)
    requires Inv(s, n) && Enabled(s, Enter(i))
    ensures Inv(EnterLock(s, i), n)
  {
    hide Inv, Loop;
    if s.workers[i].Done? && s.nalloc > s.minalloc {
      FreeKeeps(s, n, i);
    } else {
      var ws := AtLoopKeeps(s, n, i);
      LoopOver(AtLoop(s, i), i, ws);
      LoopKeeps(AtLoop(s, i).(workers := ws), n, i);
    }
  }

  lemma {:induction false} LinkKeeps(s: State, n: nat, step: Step)
    requires Inv(s, n) && Enabled(s, step) && (step.DispatchFree? || step.DispatchEnd?)
    ensures Inv(Apply(s, step), n)
  {
    match step.wake
    case None => CountAll(s.workers, IsBlocked);
    case Some(i) => var ws := Moves(s.workers, i, Woken);
  }

  lemma {:induction false} DestroyKeeps(s: State, n: nat, step: Step)
    requires Inv(s, n) && Enabled(s, step)
    requires step.DestroyBegin? || step.DestroyCheck? || step.DestroyWake? || step.DestroyReap? || step.DestroyDrain?
    ensures Inv(Apply(s, step), n)
  {
    CountBounds(s.workers);
  }

  lemma {:induction false} ClearKeeps(s: State, n: nat)
    requires Inv(s, n) && Enabled(s, DestroyClear)
    ensures Inv(Apply(s, DestroyClear), n)
  {
    AllWoken(s.workers, Apply(s, DestroyClear).workers);
  }

  /** Every step of every thread keeps the invariant. */
  lemma {:induction false} StepKeeps(s: State, n: nat, step: Step)
    requires Inv(s, n) && Enabled(s, step)
    ensures Inv(Apply(s, step), n)
  {
    match step
    case Enter(i) => EnterKeeps(s, n, i);
    case Return(i) => ReturnKeeps(s, n, i);
    case Wake(i) => WakeKeeps(s, n, i);
    case DispatchFree(_) => LinkKeeps(s, n, step);
    case DispatchEnd(_) => LinkKeeps(s, n, step);
    case DispatchBegin => WaitKeeps(s, n, step);
    case DispatchFail => WaitKeeps(s, n, step);
    case WaitBegin => WaitKeeps(s, n, step);
    case WaitCheck(_) => WaitKeeps(s, n, step);
    case WaitWake(_) => WaitKeeps(s, n, step);
    case DestroyClear => ClearKeeps(s, n);
    case _ => DestroyKeeps(s, n, step);
  }

  // ---------- whole runs ----------

  /** The steps can be taken one after the other from `s`, and end in `t`. */
  ghost predicate Reaches(s: State, steps: seq<Step>, t: State)
    decreases |steps|
  {
    if steps == [] then s == t
    else Enabled(s, steps[0]) && Reaches(Apply(s, steps[0]), steps[1..], t)
  }

  lemma {:induction false} RunKeeps(s: State, n: nat, steps: seq<Step>, t: State)
    requires Inv(s, n) && Reaches(s, steps, t)
    ensures Inv(t, n)
    decreases |steps|
  {
    if steps != [] {
      StepKeeps(s, n, steps[0]);
      RunKeeps(Apply(s, steps[0]), n, steps[1..], t);
    }
  }

  lemma {:induction false} NobodyStarted(ws: seq<Worker>)
    requires forall i :: 0 <= i < |ws| ==> ws[i].Ready?
    ensures Count(ws, InWait) == Count(ws, IsBlocked) == Count(ws, IsExited) == Count(ws, HasTask) == 0
    ensures forall t: nat :: InFlight(ws, t) == 0
  {
    if ws != [] {
      NobodyStarted(ws[1..]);
    }
  }

  lemma {:induction false} CreatedInv(n: nat, minalloc: int, p: Pool)
    requires n >= 1 && p.nalloc == p.freelist
    ensures Inv(Created(n, minalloc, p), n)
  {
    NobodyStarted(Created(n, minalloc, p).workers);
  }

  /** taskq_create leaves no tasks, or with TASKQ_PREPOPULATE the minimum, all of them free. */
  predicate NewPool(minalloc: int, p: Pool) {
    p == Pool(0, 0) || (minalloc > 0 && p == Pool(minalloc, minalloc))
  }

  /** The states some interleaving of some threads reaches from a new task queue of `n` workers. */
  ghost predicate Reachable(s: State, n: nat) {
    exists minalloc, p: Pool, steps :: n >= 1 && NewPool(minalloc, p) && Reaches(Created(n, minalloc, p), steps, s)
  }

  lemma {:induction false} ReachableInv(s: State, n: nat)
    requires Reachable(s, n)
    ensures Inv(s, n)
  {
    var minalloc, p: Pool, steps :|
      n >= 1 && NewPool(minalloc, p) && Reaches(Created(n, minalloc, p), steps, s);
    CreatedInv(n, minalloc, p);
    RunKeeps(Created(n, minalloc, p), n, steps, s);
  }

  /** Each linked task is queued, being run, or has been run, and only one of the three, only once. */
  lemma {:induction false} OnePlace(s: State, n: nat, t: nat)
    requires Reachable(s, n)
    ensures multiset(s.queue)[t] + InFlight(s.workers, t) + s.runs[t] == if t < s.linked then 1 else 0
  {
    ReachableInv(s, n);
    Queued(s.queue, s.linked - |s.queue|, t);
  }

  lemma {:induction false} Queued(q: seq<nat>, lo: nat, t: nat)
    requires forall k :: 0 <= k < |q| ==> q[k] == lo + k
    ensures multiset(q)[t] == if lo <= t < lo + |q| then 1 else 0
  {
    if q != [] {
      Queued(q[1..], lo + 1, t);
      assert q == [q[0]] + q[1..];
    }
  }

  /** The tasks taken off the queue during a run, in order. */
  ghost function Taken(s: State, steps: seq<Step>, t: State): seq<nat>
    requires Reaches(s, steps, t)
    decreases |steps|
  {
    if steps == [] then [] else
      var u := Apply(s, steps[0]);
      (if |u.queue| < |s.queue| then [s.queue[0]] else []) + Taken(u, steps[1..], t)
  }

  lemma {:induction false} StepTakes(s: State, step: Step)
    requires Enabled(s, step)
    ensures var u := Apply(s, step);
      u.linked - |u.queue| == s.linked - |s.queue| + if |u.queue| < |s.queue| then 1 else 0
  {
  }

  /** Tasks are taken in the order in which they were linked, none left out and none taken twice. */
  lemma {:induction false} TakenInOrder(s: State, n: nat, steps: seq<Step>, t: State)
    requires Inv(s, n) && Reaches(s, steps, t)
    ensures |Taken(s, steps, t)| == (t.linked - |t.queue|) - (s.linked - |s.queue|)
    ensures forall k :: 0 <= k < |Taken(s, steps, t)| ==> Taken(s, steps, t)[k] == s.linked - |s.queue| + k
    decreases |steps|
  {
    if steps != [] {
      StepKeeps(s, n, steps[0]);
      StepTakes(s, steps[0]);
      TakenInOrder(Apply(s, steps[0]), n, steps[1..], t);
    }
  }

  /** When taskq_wait finds its exit condition, every task linked so far has run, once; and only then it may. */
  lemma {:induction false} WaitDone(s: State, n: nat, t: nat)
    requires Reachable(s, n) && !Busy(s)
    ensures s.runs[t] == (if t < s.linked then 1 else 0) && InFlight(s.workers, t) == 0
  {
    ReachableInv(s, n);
    CountBounds(s.workers);
    InFlightIdle(s.workers, t);
  }

  /** tq_active is the number of workers not in cv_wait; every task structure counted is free, queued or with a
      worker. */
  lemma {:induction false} Counters(s: State, n: nat)
    requires Reachable(s, n)
    ensures s.active + Count(s.workers, InWait) == n
    ensures s.nthreads + Count(s.workers, IsExited) == n
    ensures s.nalloc == s.freelist + |s.queue| + Count(s.workers, HasTask)
  {
    ReachableInv(s, n);
  }

  // ---------- how many tasks are kept ----------

  function AtLeastZero(n: int): nat { if n > 0 then n else 0 }

  /** Before the drain there are never more free tasks than the minimum, and once that many are allocated there are
      never fewer. */
  ghost predicate Kept(s: State, floor: int) {
    s.destroyer.Draining? || s.destroyer.Finished? ||
    (s.freelist <= AtLeastZero(s.minalloc) && floor <= s.minalloc && floor <= s.nalloc)
  }

  lemma {:induction false} StepKept(s: State, n: nat, step: Step, floor: int)
    requires Inv(s, n) && Enabled(s, step) && Kept(s, floor)
    ensures Kept(Apply(s, step), floor)
  {
    if step.Enter? && s.workers[step.i].Done? {
      CountAll(s.workers, HasTask);
      assert HasTask(s.workers[step.i]);
    }
  }

  lemma {:induction false} RunKept(s: State, n: nat, steps: seq<Step>, t: State, floor: int)
    requires Inv(s, n) && Reaches(s, steps, t) && Kept(s, floor)
    ensures Kept(t, floor)
    decreases |steps|
  {
    if steps != [] {
      StepKept(s, n, steps[0], floor);
      StepKeeps(s, n, steps[0]);
      RunKept(Apply(s, steps[0]), n, steps[1..], t, floor);
    }
  }

  /** task_free gives a task back to the system exactly while more than the minimum are allocated: there are never more
      free tasks than that, a run never goes below it, and at rest no more are left. */
  lemma {:induction false} FreeTasks(s: State, n: nat, steps: seq<Step>, t: State)
    requires Reachable(s, n) && Reaches(s, steps, t) && !t.destroyer.Draining? && !t.destroyer.Finished?
    ensures t.minalloc == s.minalloc && t.freelist <= AtLeastZero(t.minalloc)
    ensures t.nalloc >= Min(s.nalloc, s.minalloc)
    ensures t.on && !Busy(t) ==> t.nalloc == t.freelist <= AtLeastZero(t.minalloc)
  {
    ReachableInv(s, n);
    RunKeeps(s, n, steps, t);
    var minalloc, p: Pool, first :|
      n >= 1 && NewPool(minalloc, p) && Reaches(Created(n, minalloc, p), first, s);
    CreatedInv(n, minalloc, p);
    RunKept(Created(n, minalloc, p), n, first, s, Min(0, minalloc));
    NotYetDrained(s, steps, t);
    RunKept(s, n, steps, t, Min(s.nalloc, s.minalloc));
    CountBounds(t.workers);
  }

  lemma {:induction false} NotYetDrained(s: State, steps: seq<Step>, t: State)
    requires Reaches(s, steps, t) && !t.destroyer.Draining? && !t.destroyer.Finished?
    ensures !s.destroyer.Draining? && !s.destroyer.Finished? && t.minalloc == s.minalloc
    decreases |steps|
  {
    if steps != [] {
      NotYetDrained(Apply(s, steps[0]), steps[1..], t);
    }
  }

  /** With TASKQ_PREPOPULATE exactly the minimum is left at rest. */
  lemma {:induction false} MinimumKept(n: nat, minalloc: nat, steps: seq<Step>, t: State)
    requires n >= 1 && Reaches(Created(n, minalloc, Pool(minalloc, minalloc)), steps, t) && t.on && !Busy(t)
    ensures t.nalloc == t.freelist == minalloc
  {
    var s := Created(n, minalloc, Pool(minalloc, minalloc));
    assert NewPool(minalloc, Pool(minalloc, minalloc)) && Reaches(s, [], s);
    CreatedInv(n, minalloc, Pool(minalloc, minalloc));
    RunKeeps(s, n, steps, t);
    FreeTasks(s, n, steps, t);
  }

  /** No wake-up is lost: work finds a worker that is not blocked, and whoever sleeps must. */
  lemma {:induction false} NoLostWakeUp(s: State, n: nat)
    requires Reachable(s, n)
    ensures s.on && s.queue != [] ==>
      exists i :: 0 <= i < |s.workers| && !s.workers[i].Blocked? && !s.workers[i].Exited?
    ensures forall j :: 0 <= j < |s.waiters| && s.waiters[j].Sleeping? ==> Busy(s)
    ensures s.destroyer == Waiting(Sleeping) ==> Busy(s)
    ensures s.destroyer.ReapSleeping? ==> s.nthreads != 0
  {
    ReachableInv(s, n);
    CountAll(s.workers, IsBlocked);
    CountAll(s.workers, IsExited);
  }

  // ---------- progress ----------

  predicate WorkerStep(step: Step) { step.Enter? || step.Return? }

  function Weight(w: Worker): nat {
    match w
    case Running(_) => 3
    case Done(_) => 2
    case Blocked => 0
    case Exited => 0
    case _ => 1
  }

  ghost function Effort(ws: seq<Worker>): nat {
    if ws == [] then 0 else Weight(ws[0]) + Effort(ws[1..])
  }

  /** A bound on the steps the workers have left if nothing is dispatched. */
  ghost function Work(s: State): nat {
    3 * |s.queue| + Effort(s.workers)
  }

  lemma {:induction false} EffortUpdate(ws: seq<Worker>, i: nat, w: Worker)
    requires i < |ws|
    ensures Effort(ws[i := w]) + Weight(ws[i]) == Effort(ws) + Weight(w)
  {
    if i == 0 {
      assert ws[i := w][1..] == ws[1..];
    } else {
      EffortUpdate(ws[1..], i - 1, w);
      assert ws[i := w][1..] == ws[1..][i - 1 := w];
    }
  }

  /** Every step of a worker uses up some of the work. */
  lemma {:induction false} WorkFalls(s: State, step: Step)
    requires Enabled(s, step) && WorkerStep(step)
    ensures Work(Apply(s, step)) < Work(s)
  {
    var i, u := step.i, Apply(s, step);
    EffortUpdate(s.workers, i, u.workers[i]);
    assert u.workers == s.workers[i := u.workers[i]];
  }

  /** A step that brings no new work: no dispatch, no spurious wake-up of a worker, no shutdown. */
  predicate Settling(step: Step) {
    !step.DispatchFree? && !step.DispatchEnd? && !step.Wake? && !step.DestroyClear?
  }

  ghost function WorkerSteps(steps: seq<Step>): nat {
    if steps == [] then 0 else (if WorkerStep(steps[0]) then 1 else 0) + WorkerSteps(steps[1..])
  }

  /** Without new work the workers come to rest, after at most Work(s) steps. */
  lemma {:induction false} Settles(s: State, steps: seq<Step>, t: State)
    requires Reaches(s, steps, t)
    requires forall k :: 0 <= k < |steps| ==> Settling(steps[k])
    ensures WorkerSteps(steps) + Work(t) <= Work(s)
    decreases |steps|
  {
    if steps != [] {
      var u := Apply(s, steps[0]);
      if WorkerStep(steps[0]) {
        WorkFalls(s, steps[0]);
      } else {
        assert u.workers == s.workers && u.queue == s.queue;
      }
      Settles(u, steps[1..], t);
    }
  }

  /** While the queue is active and somebody waits for the workers, or taskq_destroy sleeps, some worker can take a
      step. */
  lemma {:induction false} NotStuck(s: State, n: nat) returns (i: nat)
    requires Reachable(s, n)
    requires (s.on && Busy(s)) || s.destroyer == Waiting(Sleeping) || s.destroyer.ReapSleeping?
    ensures Enabled(s, Enter(i)) || Enabled(s, Return(i))
  {
    ReachableInv(s, n);
    CountBounds(s.workers);
    CountAll(s.workers, IsBlocked);
    CountAll(s.workers, IsExited);
    i :| 0 <= i < |s.workers| && !IsBlocked(s.workers[i]) && !IsExited(s.workers[i]);
  }

  /** No worker can take a step. */
  ghost predicate Resting(s: State) {
    forall i :: !Enabled(s, Enter(i)) && !Enabled(s, Return(i))
  }

  /** Once the workers are at rest taskq_destroy does not sleep and everything has run.  The condition of taskq_wait is
      settled exactly while the queue is active: the workers that exit never leave tq_active. */
  lemma {:induction false} AtRest(s: State, n: nat)
    requires Reachable(s, n) && Resting(s)
    ensures s.destroyer != Waiting(Sleeping) && !s.destroyer.ReapSleeping?
    ensures s.on <==> !Busy(s)
    ensures s.on ==> forall j :: 0 <= j < |s.waiters| ==> !s.waiters[j].Sleeping?
    ensures forall t: nat :: s.runs[t] == if t < s.linked then 1 else 0
  {
    ReachableInv(s, n);
    if !s.on {
      AllExited(s, n);
    }
    if (s.on && Busy(s)) || s.destroyer == Waiting(Sleeping) || s.destroyer.ReapSleeping? {
      var i := NotStuck(s, n);
      assert false;
    }
    forall t: nat ensures s.runs[t] == if t < s.linked then 1 else 0 {
      AllRun(s, n, t);
    }
  }

  lemma {:induction false} AllExited(s: State, n: nat)
    requires Inv(s, n) && !s.on && Resting(s)
    ensures s.active == n && forall i :: 0 <= i < |s.workers| ==> s.workers[i].Exited?
  {
    CountAll(s.workers, IsBlocked);
    forall i | 0 <= i < |s.workers|
      ensures s.workers[i].Exited?
    {
      assert !Enabled(s, Enter(i)) && !Enabled(s, Return(i)) && !IsBlocked(s.workers[i]);
    }
    CountAll(s.workers, InWait);
  }

  /** A thread in taskq_wait after the shutdown sleeps for good: no run lets it return. */
  lemma {:induction false} NeverReturns(s: State, n: nat, steps: seq<Step>, t: State, j: nat)
    requires Reachable(s, n) && !s.on && Resting(s)
    requires Reaches(s, steps, t) && j < |s.waiters| && !s.waiters[j].Returned?
    ensures j < |t.waiters| && !t.waiters[j].Returned?
  {
    ReachableInv(s, n);
    AllExited(s, n);
    StaysBusy(s, steps, t, j);
  }

  lemma {:induction false} StaysBusy(s: State, steps: seq<Step>, t: State, j: nat)
    requires !s.on && s.active >= 1 && s.allocating == 0 && !s.destroyer.Absent? && !s.destroyer.Waiting?
    requires forall i :: 0 <= i < |s.workers| ==> s.workers[i].Exited?
    requires Reaches(s, steps, t) && j < |s.waiters| && !s.waiters[j].Returned?
    ensures j < |t.waiters| && !t.waiters[j].Returned?
    decreases |steps|
  {
    if steps != [] {
      StaysBusy(Apply(s, steps[0]), steps[1..], t, j);
    }
  }

  lemma {:induction false} RunOn(s: State, steps: seq<Step>, t: State, step: Step)
    requires Reaches(s, steps, t) && Enabled(t, step)
    ensures Reaches(s, steps + [step], Apply(t, step))
    decreases |steps|
  {
    if steps == [] {
      assert steps + [step] == [step] && [step][1..] == [];
    } else {
      RunOn(Apply(s, steps[0]), steps[1..], t, step);
      assert (steps + [step])[1..] == steps[1..] + [step];
    }
  }

  lemma {:induction false} ReachableNext(s: State, n: nat, step: Step) returns (t: State)
    requires Reachable(s, n) && Enabled(s, step)
    ensures t == Apply(s, step) && Reachable(t, n)
  {
    var minalloc, p: Pool, steps :|
      n >= 1 && NewPool(minalloc, p) && Reaches(Created(n, minalloc, p), steps, s);
    RunOn(Created(n, minalloc, p), steps, s, step);
    t := Apply(s, step);
  }

  /** A task queue of one worker that has had no task. */
  function Idle(on: bool, active: int, nthreads: int, w: Worker, waiters: seq<Waiter>, d: Destroyer): State {
    State(on, active, nthreads, 0, 0, 0, [], 0, multiset{}, 0, [w], waiters, d)
  }

  lemma {:induction false} DestroyOvertakes() returns (s: State)
    ensures s == Idle(true, 0, 1, Blocked, [Polling], Waiting(Returned)) && Reachable(s, 1)
  {
    s := Created(1, 0, Pool(0, 0));
    assert s == Idle(true, 1, 1, Ready, [], Absent) && Reaches(s, [], s);
    s := ReachableNext(s, 1, Enter(0));
    assert s == Idle(true, 0, 1, Blocked, [], Absent);
    s := ReachableNext(s, 1, DestroyBegin);
    s := ReachableNext(s, 1, DestroyCheck);
    s := ReachableNext(s, 1, WaitBegin);
  }

  /** There is such a thread in some run: one worker, a destruction, and a call of taskq_wait that tests its condition
      when the worker is gone. */
  lemma {:induction false} WaiterStranded() returns (s: State)
    ensures Reachable(s, 1) && !s.on && Resting(s) && s.waiters == [Sleeping]
  {
    hide Reachable;
    s := DestroyOvertakes();
    s := ReachableNext(s, 1, DestroyClear);
    assert s == Idle(false, 0, 1, Woken, [Polling], ReapSleeping);
    s := ReachableNext(s, 1, Enter(0));
    assert RouseAll([Polling]) == [Polling];
    assert s == Idle(false, 1, 0, Exited, [Polling], Reaping);
    s := ReachableNext(s, 1, WaitCheck(0));
  }

  lemma {:induction false} AllRun(s: State, n: nat, t: nat)
    requires Inv(s, n) && (s.on ==> !Busy(s))
    ensures s.runs[t] == if t < s.linked then 1 else 0
  {
    CountBounds(s.workers);
    InFlightIdle(s.workers, t);
  }

  /** The drain finds a free task whenever one is counted and gives one back to the system; at its end there is none. */
  lemma {:induction false} DrainFalls(s: State, n: nat)
    requires Reachable(s, n) && s.destroyer.Draining?
    ensures s.nalloc == s.freelist >= 0
    ensures var u := Apply(s, DestroyDrain);
      if s.nalloc == 0 then u.destroyer.Finished?
      else u.destroyer.Draining? && u.nalloc == s.nalloc - 1 && u.freelist == s.freelist - 1
  {
    ReachableInv(s, n);
  }

  /** When taskq_destroy is done no worker and no task structure is left, and every task has run once. */
  lemma {:induction false} DestroyDone(s: State, n: nat)
    requires Reachable(s, n) && s.destroyer.Finished?
    ensures s.nalloc == 0 && s.freelist == 0 && s.queue == []
    ensures forall i :: 0 <= i < |s.workers| ==> s.workers[i].Exited?
    ensures forall t: nat :: s.runs[t] == if t < s.linked then 1 else 0
  {
    ReachableInv(s, n);
    CountAll(s.workers, IsExited);
    forall t: nat ensures s.runs[t] == if t < s.linked then 1 else 0 {
      AllRun(s, n, t);
    }
  }
}
