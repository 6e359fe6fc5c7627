// The thread pool (src/net/thread_pool.cpp) as a transition system: workers, WaitAll callers,
// the mutex, and notifications in flight. One step is one critical section or one unlocked action.
module ThreadPools {
  type TaskId = nat

  /** Where a worker is in WorkerLoop. */
  datatype Phase =
    | AtLoop               // about to test stop_ at the top of the loop
    | Checking             // about to take the mutex and evaluate the wait predicate
    | Deciding             // holds the mutex, found the predicate false, not yet blocked
    | Sleeping             // blocked in cv_.wait
    | Running(task: TaskId)  // between taking a task and decrementing active_tasks_
    | Notifying            // decremented, about to call done_cv_.notify_all
    | Exited

  /** Where a caller of WaitAll is. */
  datatype WaitPhase = WChecking | WDeciding | WSleeping | WReturned

  // A mutex holder matters only where the mutex is held across steps: between evaluating a wait
  // predicate and blocking.
  datatype Lock = Free | ByWorker(w: nat) | ByWaiter(j: nat)

  /** `pending` counts notify_one calls still to be made by Submit; `announced` is the destructor's
      notify_all. The last four fields are history. */
  datatype Pool = Pool(
    tasks: seq<TaskId>, active: nat, stop: bool, announced: bool,
    workers: seq<Phase>, waiters: seq<WaitPhase>, lock: Lock, pending: nat,
    submitted: seq<TaskId>, started: seq<TaskId>, finished: multiset<TaskId>,
    late: seq<nat>)  // per worker, the tasks it started after stop_ was set

  datatype Step =
    | Submit(task: TaskId)
    | NotifyOne(w: nat)      // wakes a sleeping worker
    | NotifyNobody           // finds no worker asleep
    | LoopTest(w: nat)
    | Check(w: nat)
    | Sleep(w: nat)
    | Spurious(w: nat)
    | Finish(w: nat)         // the task returned or threw
    | NotifyDone(w: nat)
    | CallWaitAll
    | WaitCheck(j: nat)
    | WaitSleep(j: nat)
    | WaitSpurious(j: nat)
    | SetStop
    | Announce

  function Start(n: nat): Pool {
    Pool([], 0, false, false, seq(n, _ => AtLoop), [], Free, 0, [], [], multiset{}, seq(n, _ => 0))
  }

  predicate AllDone(s: Pool) { s.tasks == [] && s.active == 0 }

  predicate WorkerAt(s: Pool, w: nat, p: Phase) { w < |s.workers| && s.workers[w] == p }

  predicate WaiterAt(s: Pool, j: nat, p: WaitPhase) { j < |s.waiters| && s.waiters[j] == p }

  predicate Enabled(s: Pool, step: Step) {
    match step
    case Submit(_) => s.lock.Free?
    case NotifyOne(w) => s.pending > 0 && WorkerAt(s, w, Sleeping)
    case NotifyNobody => s.pending > 0 && Sleeping !in s.workers
    case LoopTest(w) => WorkerAt(s, w, AtLoop)
    case Check(w) => WorkerAt(s, w, Checking) && s.lock.Free?
    case Sleep(w) => WorkerAt(s, w, Deciding)
    case Spurious(w) => WorkerAt(s, w, Sleeping)
    case Finish(w) => w < |s.workers| && s.workers[w].Running? && s.active > 0 && s.lock.Free?
    case NotifyDone(w) => WorkerAt(s, w, Notifying)
    case CallWaitAll => true
    case WaitCheck(j) => WaiterAt(s, j, WChecking) && s.lock.Free?
    case WaitSleep(j) => WaiterAt(s, j, WDeciding)
    case WaitSpurious(j) => WaiterAt(s, j, WSleeping)
    case SetStop => !s.stop
    case Announce => s.stop && !s.announced
  }

  function At(s: Pool, w: nat, p: Phase): Pool
    requires w < |s.workers|
  {
    s.(workers := s.workers[w := p])
  }

  function WokenWorkers(ws: seq<Phase>): (r: seq<Phase>)
    ensures |r| == |ws|
    ensures forall i :: 0 <= i < |ws| ==> r[i] == if ws[i].Sleeping? then Checking else ws[i]
  {
    seq(|ws|, i requires 0 <= i < |ws| => if ws[i].Sleeping? then Checking else ws[i])
  }

  function WokenWaiters(ws: seq<WaitPhase>): (r: seq<WaitPhase>)
    ensures |r| == |ws|
    ensures forall i :: 0 <= i < |ws| ==> r[i] == if ws[i].WSleeping? then WChecking else ws[i]
  {
    seq(|ws|, i requires 0 <= i < |ws| => if ws[i].WSleeping? then WChecking else ws[i])
  }

  // A worker's critical section after it has the mutex.
  function Checked(s: Pool, w: nat): Pool
    requires w < |s.workers|
  {
    if s.stop && s.tasks == [] then At(s, w, Exited)
    else if s.tasks != [] then
      At(s, w, Running(s.tasks[0])).(
        tasks := s.tasks[1..], active := s.active + 1, started := s.started + [s.tasks[0]],
        late := if s.stop && w < |s.late| then s.late[w := s.late[w] + 1] else s.late)
    else At(s, w, Deciding).(lock := ByWorker(w))
  }

  function Apply(s: Pool, step: Step): Pool
    requires Enabled(s, step)
  {
    match step
    case Submit(t) => s.(tasks := s.tasks + [t], pending := s.pending + 1, submitted := s.submitted + [t])
    case NotifyOne(w) => At(s, w, Checking).(pending := s.pending - 1)
    case NotifyNobody => s.(pending := s.pending - 1)
    case LoopTest(w) => At(s, w, if s.stop then Exited else Checking)
    case Check(w) => Checked(s, w)
    case Sleep(w) => At(s, w, Sleeping).(lock := Free)
    case Spurious(w) => At(s, w, Checking)
    case Finish(w) =>
      At(s, w, Notifying).(active := s.active - 1, finished := s.finished + multiset{s.workers[w].task})
    case NotifyDone(w) => At(s, w, AtLoop).(waiters := WokenWaiters(s.waiters))
    case CallWaitAll => s.(waiters := s.waiters + [WChecking])
    case WaitCheck(j) =>
      if AllDone(s) then s.(waiters := s.waiters[j := WReturned])
      else s.(waiters := s.waiters[j := WDeciding], lock := ByWaiter(j))
    case WaitSleep(j) => s.(waiters := s.waiters[j := WSleeping], lock := Free)
    case WaitSpurious(j) => s.(waiters := s.waiters[j := WChecking])
    case SetStop => s.(stop := true)
    case Announce => s.(announced := true, workers := WokenWorkers(s.workers))
  }

  // ---- Runs ----

  predicate ValidRun(s: Pool, steps: seq<Step>)
    decreases |steps|
  {
    steps == [] || (Enabled(s, steps[0]) && ValidRun(Apply(s, steps[0]), steps[1..]))
  }

  function Exec(s: Pool, steps: seq<Step>): Pool
    requires ValidRun(s, steps)
    decreases |steps|
  {
    if steps == [] then s else Exec(Apply(s, steps[0]), steps[1..])
  }

  // ---- The invariant ----

  function RunningTasks(ws: seq<Phase>): multiset<TaskId> {
    if ws == [] then multiset{}
    else RunningTasks(ws[..|ws| - 1]) + TaskOf(ws[|ws| - 1])
  }

  function TaskOf(p: Phase): multiset<TaskId> {
    if p.Running? then multiset{p.task} else multiset{}
  }

  /** The mutex is held across steps only by the thread about to block, whose predicate is still false. */
  ghost predicate LockInv(s: Pool) {
    && (forall w :: 0 <= w < |s.workers| ==> (s.workers[w].Deciding? <==> s.lock == ByWorker(w)))
    && (forall j :: 0 <= j < |s.waiters| ==> (s.waiters[j].WDeciding? <==> s.lock == ByWaiter(j)))
    && (s.lock.ByWorker? ==> s.lock.w < |s.workers| && s.tasks == [])
    && (s.lock.ByWaiter? ==> s.lock.j < |s.waiters| && !AllDone(s))
  }

  /** Task conservation: submitted = started, in submission order, followed by queued; and each
      started task is running at one worker or finished. */
  ghost predicate TaskInv(s: Pool) {
    && s.submitted == s.started + s.tasks
    && multiset(s.started) == s.finished + RunningTasks(s.workers)
    && s.active == |RunningTasks(s.workers)|
  }

  /** No lost wakeup: while a worker sleeps, queued tasks are covered by workers about to re-check
      and notifications in flight. */
  ghost predicate WakeInv(s: Pool) {
    Sleeping in s.workers ==> |s.tasks| <= multiset(s.workers)[Checking] + s.pending
  }

  /** And while a WaitAll caller sleeps although everything is done, a worker is about to notify. */
  ghost predicate DoneInv(s: Pool) {
    WSleeping in s.waiters && AllDone(s) ==> Notifying in s.workers
  }

  /** After stop_ a worker starts at most one more task, and none exits before. */
  ghost predicate StopInv(s: Pool) {
    && |s.late| == |s.workers|
    && (s.announced ==> s.stop)
    && forall w :: 0 <= w < |s.workers| ==>
         && s.late[w] <= 1
         && (!s.stop ==> s.late[w] == 0 && !s.workers[w].Exited?)
         && (s.late[w] == 1 ==>
               s.workers[w].Running? || s.workers[w].Notifying? || s.workers[w].AtLoop? || s.workers[w].Exited?)
  }

  ghost predicate Inv(s: Pool) {
    LockInv(s) && TaskInv(s) && WakeInv(s) && DoneInv(s) && StopInv(s)
  }

  // ---- The pool object ----

  datatype Outcome = Exit | Take(task: TaskId) | Block

  /** The fields the threads share, and the critical sections that touch them. `sys` is the state
      of the whole system of threads; every section is one of its steps. */
  class ThreadPool {
    var tasks: seq<TaskId>
    var activeTasks: nat
    var stop: bool
    ghost var sys: Pool

    ghost predicate Valid()
      reads this
    {
      tasks == sys.tasks && activeTasks == sys.active && stop == sys.stop
    }

    constructor (numThreads: nat)
      ensures Valid() && sys == Start(numThreads)
    {
      tasks, activeTasks, stop := [], 0, false;
      sys := Start(numThreads);
    }

    /** The locked part of Submit; its notify_one is a later step. */
    method PushTask(task: TaskId)
      requires Valid() && Enabled(sys, Submit(task))
      modifies this
      ensures Valid() && sys == Apply(old(sys), Submit(task))
    {
      tasks := tasks + [task];
      sys := Apply(sys, Submit(task));
    }

    /** The body of cv_.wait's loop and what follows it, under the mutex. */
    method TakeTask(ghost w: nat) returns (outcome: Outcome)
      requires Valid() && Enabled(sys, Check(w))
      modifies this
      ensures Valid() && sys == Apply(old(sys), Check(w))
      ensures sys.workers[w] == match outcome case Exit => Exited case Take(t) => Running(t) case Block => Deciding
    {
      if stop || tasks != [] {
        if stop && tasks == [] {
          outcome := Exit;
        } else {
          outcome := Take(tasks[0]);
          tasks := tasks[1..];
          activeTasks := activeTasks + 1;
        }
      } else {
        outcome := Block;
      }
      sys := Apply(sys, Check(w));
    }

    method FinishTask(ghost w: nat)
      requires Valid() && Enabled(sys, Finish(w))
      modifies this
      ensures Valid() && sys == Apply(old(sys), Finish(w))
    {
      activeTasks := activeTasks - 1;
      sys := Apply(sys, Finish(w));
    }

    /** The predicate of WaitAll, under the mutex. */
    method CheckDone(ghost j: nat) returns (done: bool)
      requires Valid() && Enabled(sys, WaitCheck(j))
      modifies this`sys
      ensures Valid() && sys == Apply(old(sys), WaitCheck(j))
      ensures done <==> sys.waiters[j].WReturned?
    {
      done := tasks == [] && activeTasks == 0;
      sys := Apply(sys, WaitCheck(j));
    }

    /** The destructor's first statement, made without the mutex. */
    method RequestStop()
      requires Valid() && Enabled(sys, SetStop)
      modifies this
      ensures Valid() && sys == Apply(old(sys), SetStop)
    {
      stop := true;
      sys := Apply(sys, SetStop);
    }
  }
}
