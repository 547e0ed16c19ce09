/**
  * The task queue as a state machine.  One step is what a thread does between taking the lock and
  * giving it up (or the return of a task's function, or a wake-up); a step carries the choices the
  * scheduler and the condition variables make.  Wake-ups may also be spurious.
  */
module Taskq {

  /** Where a worker is whenever it does not hold the lock. */
  datatype Worker =
    | Ready                // about to take the lock and look at the queue
    | Blocked              // in cv_wait on the dispatch condition
    | Woken                // woken up, about to take the lock again
    | Running(task: nat)   // in the task's function
    | Done(task: nat)      // the function has returned, the task is not freed yet
    | Freeing              // in the unlocked part of task_free
    | Exited

  /** Where a thread in taskq_wait is. */
  datatype Waiter = Polling | Sleeping | Returned

  /** Where the thread in taskq_destroy is. */
  datatype Destroyer =
    | Absent
    | Waiting(w: Waiter)   // in the call of taskq_wait
    | Reaping              // about to check the number of threads
    | ReapSleeping         // in cv_wait for the threads to exit
    | Draining             // freeing the free list
    | Finished

  datatype State = State(
    on: bool,                // TASKQ_ACTIVE
    active: int,             // tq_active
    nthreads: int,           // tq_nthreads
    nalloc: int,             // tq_nalloc
    minalloc: int,           // tq_minalloc
    freelist: nat,           // the number of tasks on tq_freelist
    queue: seq<nat>,         // the linked tasks, numbered in link order
    linked: nat,             // how many tasks have been linked so far
    runs: multiset<nat>,     // the tasks whose function has returned, once for each time
    allocating: nat,         // dispatchers in the unlocked part of task_alloc
    workers: seq<Worker>,
    waiters: seq<Waiter>,
    destroyer: Destroyer)

  datatype Option<+T> = None | Some(value: T)

  datatype Step =
    | Enter(i: nat)                     // a worker takes the lock and runs until it gives it up
    | Return(i: nat)                    // the function of the task run by a worker returns
    | Wake(i: nat)                      // a spurious wake-up of a worker
    | DispatchFree(wake: Option<nat>)   // dispatch with a task from the free list
    | DispatchBegin                     // dispatch drops the lock to allocate a task
    | DispatchFail                      // the allocation fails or is refused
    | DispatchEnd(wake: Option<nat>)    // dispatch links the allocated task
    | WaitBegin                         // a thread calls taskq_wait
    | WaitCheck(j: nat)                 // it evaluates its condition
    | WaitWake(j: nat)                  // a spurious wake-up of it
    | DestroyBegin                      // taskq_destroy is called
    | DestroyCheck                      // it evaluates the condition of taskq_wait
    | DestroyWake                       // a spurious wake-up of it
    | DestroyClear                      // it clears TASKQ_ACTIVE
    | DestroyReap                       // it checks the number of threads
    | DestroyDrain                      // it frees one task of the free list, or finds none allocated

  // ---------- the free list ----------

  /** The task structures: how many are counted as allocated, how many of them are on the free list. */
  datatype Pool = Pool(nalloc: int, freelist: nat)

  /** task_alloc by a thread that nobody disturbs, when memory can be had. */
  function Alloc(p: Pool, minalloc: int): Pool {
    if p.freelist > 0 && p.nalloc >= minalloc then p.(freelist := p.freelist - 1) else p.(nalloc := p.nalloc + 1)
  }

  /** task_free. */
  function Free(p: Pool, minalloc: int): Pool {
    if p.nalloc <= minalloc then p.(freelist := p.freelist + 1) else p.(nalloc := p.nalloc - 1)
  }

  /** The prepopulation loop of taskq_create leaves exactly the minimum on the free list. */
  method Prepopulate(minalloc: int) returns (p: Pool)
    ensures p.nalloc == p.freelist == if minalloc > 0 then minalloc else 0
  {
    p := Pool(0, 0);
    var left := minalloc;
    while left > 0
      invariant left <= minalloc && (left < 0 ==> left == minalloc)
      invariant p.nalloc == p.freelist == if minalloc > 0 then minalloc - left else 0
    {
      p := Free(Alloc(p, minalloc), minalloc);
      left := left - 1;
    }
  }

  /** The queue as taskq_create leaves it, with an empty or a prepopulated free list. */
  function Created(nthreads: nat, minalloc: int, p: Pool): State {
    State(true, nthreads, nthreads, p.nalloc, minalloc, p.freelist, [], 0, multiset{}, 0,
          seq(nthreads, _ => Ready), [], Absent)
  }

  // ---------- what one step does ----------

  function Rouse(w: Waiter): Waiter {
    if w.Sleeping? then Polling else w
  }

  function RouseAll(ws: seq<Waiter>): seq<Waiter> {
    seq(|ws|, j requires 0 <= j < |ws| => Rouse(ws[j]))
  }

  function RouseDestroyer(d: Destroyer): Destroyer {
    match d
    case Waiting(w) => Waiting(Rouse(w))
    case ReapSleeping => Reaping
    case _ => d
  }

  /** cv_broadcast on the wait condition. */
  function BroadcastWait(s: State): State {
    s.(waiters := RouseAll(s.waiters), destroyer := RouseDestroyer(s.destroyer))
  }

  function WakeWorker(w: Worker): Worker {
    if w.Blocked? then Woken else w
  }

  /** cv_broadcast on the dispatch condition. */
  function BroadcastDispatch(s: State): State {
    s.(workers := seq(|s.workers|, i requires 0 <= i < |s.workers| => WakeWorker(s.workers[i])))
  }

  /** cv_signal on the dispatch condition wakes one blocked worker if there is one. */
  predicate MaySignal(s: State, wake: Option<nat>) {
    match wake
    case None => forall i :: 0 <= i < |s.workers| ==> !s.workers[i].Blocked?
    case Some(i) => i < |s.workers| && s.workers[i].Blocked?
  }

  function Signal(s: State, wake: Option<nat>): State
    requires MaySignal(s, wake)
  {
    match wake
    case None => s
    case Some(i) => s.(workers := s.workers[i := Woken])
  }

  /** Link a task at the end of the queue and signal. */
  function Link(s: State, wake: Option<nat>): State
    requires MaySignal(s, wake)
  {
    Signal(s, wake).(queue := s.queue + [s.linked], linked := s.linked + 1)
  }

  /** The worker's loop from its condition on, with the lock held. */
  function Loop(s: State, i: nat): State
    requires i < |s.workers|
  {
    if !s.on then
      BroadcastWait(s.(nthreads := s.nthreads - 1, workers := s.workers[i := Exited]))
    else if s.queue == [] then
      var t := s.(active := s.active - 1, workers := s.workers[i := Blocked]);
      if t.active == 0 then BroadcastWait(t) else t
    else
      s.(queue := s.queue[1..], workers := s.workers[i := Running(s.queue[0])])
  }

  /** The worker takes the lock: back from cv_wait, to free its task, or to look at the queue. */
  function EnterLock(s: State, i: nat): State
    requires i < |s.workers|
  {
    match s.workers[i]
    case Woken => Loop(s.(active := s.active + 1), i)
    case Done(_) =>
      var p := Free(Pool(s.nalloc, s.freelist), s.minalloc);
      if p.nalloc == s.nalloc then Loop(s.(freelist := p.freelist), i)
      else s.(nalloc := p.nalloc, workers := s.workers[i := Freeing])
    case _ => Loop(s, i)
  }

  predicate CanEnter(w: Worker) {
    w.Ready? || w.Woken? || w.Done? || w.Freeing?
  }

  /** The condition under which taskq_wait keeps waiting. */
  predicate Busy(s: State) {
    s.queue != [] || s.active != 0
  }

  /** task_alloc takes a task from the free list, and does not count another. */
  predicate UsesFree(s: State) {
    Alloc(Pool(s.nalloc, s.freelist), s.minalloc).nalloc == s.nalloc
  }

  /** No dispatch once destruction has begun. */
  predicate MayDispatch(s: State) {
    s.on && s.destroyer.Absent?
  }

  predicate Enabled(s: State, step: Step) {
    match step
    case Enter(i) => i < |s.workers| && CanEnter(s.workers[i])
    case Return(i) => i < |s.workers| && s.workers[i].Running?
    case Wake(i) => i < |s.workers| && s.workers[i].Blocked?
    case DispatchFree(wake) => MayDispatch(s) && UsesFree(s) && MaySignal(s, wake)
    case DispatchBegin => MayDispatch(s) && !UsesFree(s)
    case DispatchFail => s.allocating > 0
    case DispatchEnd(wake) => s.allocating > 0 && MaySignal(s, wake)
    case WaitBegin => true
    case WaitCheck(j) => j < |s.waiters| && s.waiters[j].Polling?
    case WaitWake(j) => j < |s.waiters| && s.waiters[j].Sleeping?
    case DestroyBegin => s.destroyer.Absent? && s.allocating == 0
    case DestroyCheck => s.destroyer == Waiting(Polling)
    case DestroyWake => s.destroyer == Waiting(Sleeping) || s.destroyer.ReapSleeping?
    case DestroyClear => s.destroyer == Waiting(Returned)
    case DestroyReap => s.destroyer.Reaping?
    case DestroyDrain => s.destroyer.Draining?
  }

  function Checked(s: State): Waiter {
    if Busy(s) then Sleeping else Returned
  }

  function Apply(s: State, step: Step): State
    requires Enabled(s, step)
  {
    match step
    case Enter(i) => EnterLock(s, i)
    case Return(i) =>
      s.(runs := s.runs + multiset{s.workers[i].task}, workers := s.workers[i := Done(s.workers[i].task)])
    case Wake(i) => s.(workers := s.workers[i := Woken])
    case DispatchFree(wake) => Link(s.(freelist := s.freelist - 1), wake)
    case DispatchBegin => s.(allocating := s.allocating + 1)
    case DispatchFail => s.(allocating := s.allocating - 1)
    case DispatchEnd(wake) => Link(s.(allocating := s.allocating - 1, nalloc := s.nalloc + 1), wake)
    case WaitBegin => s.(waiters := s.waiters + [Polling])
    case WaitCheck(j) => s.(waiters := s.waiters[j := Checked(s)])
    case WaitWake(j) => s.(waiters := s.waiters[j := Polling])
    case DestroyBegin => s.(destroyer := Waiting(Polling))
    case DestroyCheck => s.(destroyer := Waiting(Checked(s)))
    case DestroyWake => s.(destroyer := RouseDestroyer(s.destroyer))
    case DestroyClear =>
      var t := BroadcastDispatch(s.(on := false));
      t.(destroyer := if t.nthreads != 0 then ReapSleeping else Reaping)
    case DestroyReap =>
      if s.nthreads != 0 then s.(destroyer := ReapSleeping) else s.(destroyer := Draining, minalloc := 0)
    case DestroyDrain =>
      if s.nalloc == 0 then s.(destroyer := Finished)
      else var p := Free(Alloc(Pool(s.nalloc, s.freelist), s.minalloc), s.minalloc);
           s.(nalloc := p.nalloc, freelist := p.freelist)
  }
}
