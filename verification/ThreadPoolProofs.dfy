// Safety and progress of the thread pool over every run.
module ThreadPoolProofs {
  import opened ThreadPools

  // ---- Every step keeps the invariant ----

  lemma Regroup(a: multiset<TaskId>, b: multiset<TaskId>, c: multiset<TaskId>, d: multiset<TaskId>, e: multiset<TaskId>)
    requires a + b == c + d
    ensures (a + e) + b == (c + e) + d
  {
    assert (a + e) + b == (a + b) + e && (c + e) + d == (c + d) + e;
  }

  lemma {:induction false} RunningUpdate(ws: seq<Phase>, w: nat, p: Phase)
    requires w < |ws|
    ensures RunningTasks(ws[w := p]) + TaskOf(ws[w]) == RunningTasks(ws) + TaskOf(p)
  {
    hide TaskOf;
    var n, init, ws' := |ws| - 1, ws[..|ws| - 1], ws[w := p];
    if w < n {
      assert ws'[..n] == init[w := p];
      RunningUpdate(init, w, p);
      Regroup(RunningTasks(init[w := p]), TaskOf(ws[w]), RunningTasks(init), TaskOf(p), TaskOf(ws[n]));
    } else {
      assert ws'[..n] == init;
      Regroup(multiset{}, TaskOf(p), TaskOf(p), multiset{}, RunningTasks(init));
      assert RunningTasks(ws') == RunningTasks(init) + TaskOf(p);
    }
  }

  lemma {:induction false} RunningWoken(ws: seq<Phase>)
    ensures RunningTasks(WokenWorkers(ws)) == RunningTasks(ws)
  {
    if ws != [] {
      var n := |ws| - 1;
      assert WokenWorkers(ws)[..n] == WokenWorkers(ws[..n]);
      RunningWoken(ws[..n]);
    }
  }

  lemma {:induction false} NobodyRunning(ws: seq<Phase>)
    requires forall w :: 0 <= w < |ws| ==> !ws[w].Running?
    ensures RunningTasks(ws) == multiset{}
  {
    if ws != [] {
      NobodyRunning(ws[..|ws| - 1]);
    }
  }

  lemma {:induction false} RunningIsCounted(ws: seq<Phase>, w: nat)
    requires w < |ws| && ws[w].Running?
    ensures ws[w].task in RunningTasks(ws) && |RunningTasks(ws)| > 0
  {
    if w < |ws| - 1 {
      RunningIsCounted(ws[..|ws| - 1], w);
    }
  }

  predicate MovesWorker(step: Step) {
    || step.NotifyOne? || step.LoopTest? || step.Check? || step.Sleep?
    || step.Spurious? || step.Finish? || step.NotifyDone?
  }

  lemma CheckKeepsLock(s: Pool, w: nat)
    requires LockInv(s) && Enabled(s, Check(w))
    ensures LockInv(Checked(s, w))
  {
  }

  lemma WorkerKeepsLock(s: Pool, step: Step)
    requires LockInv(s) && Enabled(s, step) && MovesWorker(step)
    ensures LockInv(Apply(s, step))
  {
    hide Checked, LockInv;
    if step.Check? {
      CheckKeepsLock(s, step.w);
    } else if step.Sleep? {
      SleepKeepsLock(s, step.w);
    } else {
      MoveKeepsLock(s, Apply(s, step), step.w, Apply(s, step).workers[step.w]);
    }
  }

  lemma SleepKeepsLock(s: Pool, w: nat)
    requires LockInv(s) && Enabled(s, Sleep(w))
    ensures LockInv(Apply(s, Sleep(w)))
  {
    hide Checked;
  }

  // A worker that is not about to block moves on to where it is not either.
  lemma MoveKeepsLock(s: Pool, s': Pool, w: nat, p: Phase)
    requires LockInv(s) && w < |s.workers| && s'.workers == s.workers[w := p]
    requires !s.workers[w].Deciding? && !p.Deciding?
    requires s'.lock == s.lock && s'.tasks == s.tasks && (s.lock.ByWaiter? ==> s'.active == s.active)
    requires s'.waiters == s.waiters || s'.waiters == WokenWaiters(s.waiters)
    ensures LockInv(s')
  {
  }

  lemma StepKeepsLock(s: Pool, step: Step)
    requires LockInv(s) && Enabled(s, step)
    ensures LockInv(Apply(s, step))
  {
    hide Checked;
    if MovesWorker(step) {
      WorkerKeepsLock(s, step);
    }
  }

  // Worker w moves from one phase to another; what it stops running, it has finished.
  lemma MoveKeepsTasks(s: Pool, s': Pool, w: nat, p: Phase)
    requires TaskInv(s) && w < |s.workers| && s'.workers == s.workers[w := p]
    requires s'.submitted == s.submitted && s'.started + s'.tasks == s.started + s.tasks
    requires multiset(s'.started) == multiset(s.started) + TaskOf(p)
    requires s'.finished == s.finished + TaskOf(s.workers[w])
    requires s'.active + |TaskOf(s.workers[w])| == s.active + |TaskOf(p)|
    ensures TaskInv(s')
  {
    RunningUpdate(s.workers, w, p);
    hide RunningTasks, TaskOf;
    var before, after, out := RunningTasks(s.workers), RunningTasks(s'.workers), TaskOf(s.workers[w]);
    Rebalance(multiset(s.started), s.finished, before, after, out, TaskOf(p));
    Sizes(before, after, out, TaskOf(p));
  }

  lemma Rebalance(started: multiset<TaskId>, finished: multiset<TaskId>, before: multiset<TaskId>,
                  after: multiset<TaskId>, out: multiset<TaskId>, into: multiset<TaskId>)
    requires after + out == before + into && started == finished + before
    ensures started + into == (finished + out) + after
  {
    forall x
      ensures (started + into)[x] == ((finished + out) + after)[x]
    {
      assert (after + out)[x] == (before + into)[x];
    }
  }

  lemma Sizes(before: multiset<TaskId>, after: multiset<TaskId>, out: multiset<TaskId>, into: multiset<TaskId>)
    requires after + out == before + into
    ensures |after| + |out| == |before| + |into|
  {
    assert |after + out| == |before + into|;
  }

  lemma CheckKeepsTasks(s: Pool, w: nat)
    requires TaskInv(s) && Enabled(s, Check(w))
    ensures TaskInv(Checked(s, w))
  {
    hide TaskInv;
    if s.tasks == [] {
      MoveKeepsTasks(s, Checked(s, w), w, if s.stop then Exited else Deciding);
    } else {
      TakingKeepsOrder(s.started, s.tasks);
      MoveKeepsTasks(s, Checked(s, w), w, Running(s.tasks[0]));
    }
  }

  lemma TakingKeepsOrder(started: seq<TaskId>, tasks: seq<TaskId>)
    requires tasks != []
    ensures (started + [tasks[0]]) + tasks[1..] == started + tasks
    ensures multiset(started + [tasks[0]]) == multiset(started) + multiset{tasks[0]}
  {
  }

  lemma MovingKeepsTasks(s: Pool, step: Step)
    requires TaskInv(s) && Enabled(s, step) && MovesWorker(step) && !step.Check?
    ensures TaskInv(Apply(s, step))
  {
    hide TaskInv, Checked, WokenWaiters, WokenWorkers;
    MoveKeepsTasks(s, Apply(s, step), step.w, Apply(s, step).workers[step.w]);
  }

  lemma StepKeepsTasks(s: Pool, step: Step)
    requires TaskInv(s) && Enabled(s, step)
    ensures TaskInv(Apply(s, step))
  {
    hide RunningTasks, Checked;
    if step.Check? {
      CheckKeepsTasks(s, step.w);
    } else if MovesWorker(step) {
      MovingKeepsTasks(s, step);
    } else if step.Announce? {
      RunningWoken(s.workers);
    }
  }

  // One worker moves on: who is about to re-check, and who sleeps.
  lemma MoveCounts(ws: seq<Phase>, w: nat, p: Phase)
    requires w < |ws|
    ensures multiset(ws[w := p])[Checking] + (if ws[w].Checking? then 1 else 0)
            == multiset(ws)[Checking] + (if p.Checking? then 1 else 0)
    ensures Sleeping in ws[w := p] ==> Sleeping in ws || p.Sleeping?
  {
    assert multiset(ws[w := p]) == multiset(ws) - multiset{ws[w]} + multiset{p};
  }

  // Queued tasks stay covered if no more of them are queued than covers are gained.
  lemma MoveKeepsWake(s: Pool, s': Pool, w: nat, p: Phase)
    requires WakeInv(s) && w < |s.workers| && s'.workers == s.workers[w := p]
    requires p.Sleeping? ==> s'.tasks == []
    requires |s'.tasks| + (if s.workers[w].Checking? then 1 else 0) + s.pending
             <= |s.tasks| + (if p.Checking? then 1 else 0) + s'.pending || s'.tasks == []
    ensures WakeInv(s')
  {
    MoveCounts(s.workers, w, p);
  }

  lemma CheckKeepsWake(s: Pool, w: nat)
    requires WakeInv(s) && Enabled(s, Check(w))
    ensures WakeInv(Checked(s, w))
  {
    hide WakeInv;
    MoveKeepsWake(s, Checked(s, w), w, Checked(s, w).workers[w]);
  }

  lemma WorkerKeepsWake(s: Pool, step: Step)
    requires LockInv(s) && WakeInv(s) && Enabled(s, step) && MovesWorker(step)
    ensures WakeInv(Apply(s, step))
  {
    hide Checked, WakeInv, WokenWaiters;
    if step.Check? {
      CheckKeepsWake(s, step.w);
    } else {
      MoveKeepsWake(s, Apply(s, step), step.w, Apply(s, step).workers[step.w]);
    }
  }

  lemma StepKeepsWake(s: Pool, step: Step)
    requires LockInv(s) && WakeInv(s) && Enabled(s, step)
    ensures WakeInv(Apply(s, step))
  {
    hide Checked;
    if MovesWorker(step) {
      WorkerKeepsWake(s, step);
    }
  }

  // A worker that is about to notify stays so through every step but its own.
  lemma NotifierStays(s: Pool, step: Step)
    requires Enabled(s, step) && Notifying in s.workers && !step.NotifyDone?
    ensures Notifying in Apply(s, step).workers
  {
    var k :| 0 <= k < |s.workers| && s.workers[k] == Notifying;
    assert Apply(s, step).workers[k] == Notifying;
  }

  lemma StepKeepsDone(s: Pool, step: Step)
    requires LockInv(s) && DoneInv(s) && Enabled(s, step)
    ensures DoneInv(Apply(s, step))
  {
    if step.Finish? {
      assert Apply(s, step).workers[step.w] == Notifying;
    } else if Notifying in s.workers && !step.NotifyDone? {
      NotifierStays(s, step);
    }
  }

  lemma CheckKeepsStop(s: Pool, w: nat)
    requires StopInv(s) && Enabled(s, Check(w))
    ensures StopInv(Checked(s, w))
  {
  }

  lemma WorkerKeepsStop(s: Pool, step: Step)
    requires StopInv(s) && Enabled(s, step) && MovesWorker(step)
    ensures StopInv(Apply(s, step))
  {
    hide Checked, WokenWaiters;
    match step
    case Check(w) => CheckKeepsStop(s, w);
    case _ =>
  }

  lemma StepKeepsStop(s: Pool, step: Step)
    requires StopInv(s) && Enabled(s, step)
    ensures StopInv(Apply(s, step))
  {
    hide Checked;
    if MovesWorker(step) {
      WorkerKeepsStop(s, step);
    }
  }

  lemma StepKeepsInv(s: Pool, step: Step)
    requires Inv(s) && Enabled(s, step)
    ensures Inv(Apply(s, step))
  {
    hide LockInv, TaskInv, WakeInv, DoneInv, StopInv, Apply;
    StepKeepsLock(s, step);
    StepKeepsTasks(s, step);
    StepKeepsWake(s, step);
    StepKeepsDone(s, step);
    StepKeepsStop(s, step);
  }

  lemma NobodyRunningAtStart(n: nat)
    ensures Inv(Start(n))
  {
    NobodyRunning(Start(n).workers);
  }

  lemma {:induction false} RunKeepsInv(s: Pool, steps: seq<Step>)
    requires Inv(s) && ValidRun(s, steps)
    ensures Inv(Exec(s, steps))
    decreases |steps|
  {
    hide Inv;
    if steps != [] {
      StepKeepsInv(s, steps[0]);
      RunKeepsInv(Apply(s, steps[0]), steps[1..]);
    }
  }

  /** A state some run of a pool of n workers reaches. */
  ghost predicate Reachable(n: nat, s: Pool) {
    exists steps :: ValidRun(Start(n), steps) && s == Exec(Start(n), steps)
  }

  lemma ReachableInv(n: nat, s: Pool)
    requires Reachable(n, s)
    ensures Inv(s)
  {
    hide Inv;
    var steps :| ValidRun(Start(n), steps) && s == Exec(Start(n), steps);
    NobodyRunningAtStart(n);
    RunKeepsInv(Start(n), steps);
  }

  lemma StepKeepsWorkers(s: Pool, step: Step)
    requires Enabled(s, step)
    ensures |Apply(s, step).workers| == |s.workers|
  {
  }

  lemma {:induction false} RunKeepsWorkers(s: Pool, steps: seq<Step>)
    requires ValidRun(s, steps)
    ensures |Exec(s, steps).workers| == |s.workers|
    decreases |steps|
  {
    hide Apply, Enabled;
    if steps != [] {
      StepKeepsWorkers(s, steps[0]);
      RunKeepsWorkers(Apply(s, steps[0]), steps[1..]);
    }
  }

  /** The pool has as many workers as it was made with, at the start all at the top of their loop. */
  lemma WorkersStay(n: nat, s: Pool)
    requires Reachable(n, s)
    ensures |s.workers| == n && Start(n).workers == seq(n, _ => AtLoop)
  {
    hide Apply, Enabled, ValidRun, Exec;
    var steps :| ValidRun(Start(n), steps) && s == Exec(Start(n), steps);
    RunKeepsWorkers(Start(n), steps);
  }

  // ---- Safety ----

  /** No lost wakeup, for workers and for WaitAll, in every reachable state. */
  lemma NoLostWakeup(n: nat, s: Pool)
    requires Reachable(n, s)
    ensures Sleeping in s.workers ==> |s.tasks| <= multiset(s.workers)[Checking] + s.pending
    ensures WSleeping in s.waiters && s.tasks == [] && s.active == 0 ==> Notifying in s.workers
  {
    ReachableInv(n, s);
  }

  /** Tasks are neither lost nor duplicated: what was submitted is what was started, in that order,
      followed by what is queued; what was started is finished or running at one worker; and
      active_tasks_ counts the latter. */
  lemma TasksConserved(n: nat, s: Pool)
    requires Reachable(n, s)
    ensures s.submitted == s.started + s.tasks
    ensures multiset(s.submitted) == s.finished + RunningTasks(s.workers) + multiset(s.tasks)
    ensures s.active == |RunningTasks(s.workers)|
  {
    ReachableInv(n, s);
  }

  /** WaitAll returns only when everything submitted so far has finished. */
  lemma WaitAllIsRight(n: nat, s: Pool, j: nat)
    requires Reachable(n, s) && Enabled(s, WaitCheck(j))
    ensures Apply(s, WaitCheck(j)).waiters[j].WReturned? ==> s.finished == multiset(s.submitted)
  {
    ReachableInv(n, s);
    if AllDone(s) {
      assert RunningTasks(s.workers) == multiset{};
      assert s.submitted == s.started;
    }
  }

  /** After stop_ is set a worker starts at most one more task. */
  lemma AtMostOneLateTask(n: nat, s: Pool, w: nat)
    requires Reachable(n, s) && w < |s.workers|
    ensures |s.late| == |s.workers| && s.late[w] <= 1
    ensures Enabled(s, Check(w)) ==> s.late[w] == 0
  {
    ReachableInv(n, s);
  }

  // The tasks that one worker starts in a run.
  function StartsBy(s: Pool, steps: seq<Step>, w: nat): nat
    requires ValidRun(s, steps)
    decreases |steps|
  {
    if steps == [] then 0
    else
      var next := Apply(s, steps[0]);
      (if steps[0] == Check(w) && next.started != s.started then 1 else 0) + StartsBy(next, steps[1..], w)
  }

  lemma LateStep(s: Pool, step: Step, w: nat)
    requires s.stop && Enabled(s, step) && w < |s.workers| == |s.late|
    ensures var next := Apply(s, step);
            next.stop && next.late[w] == s.late[w] + if step == Check(w) && next.started != s.started then 1 else 0
  {
  }

  lemma {:induction false} LateCounts(s: Pool, steps: seq<Step>, w: nat)
    requires ValidRun(s, steps) && Inv(s) && s.stop && w < |s.workers|
    ensures |Exec(s, steps).late| == |Exec(s, steps).workers| == |s.workers|
    ensures Exec(s, steps).late[w] == s.late[w] + StartsBy(s, steps, w)
    decreases |steps|
  {
    hide Apply, Enabled, LockInv, TaskInv, WakeInv, DoneInv;
    if steps != [] {
      LateStep(s, steps[0], w);
      StepKeepsInv(s, steps[0]);
      StepKeepsWorkers(s, steps[0]);
      LateCounts(Apply(s, steps[0]), steps[1..], w);
    }
  }

  /** In every run from a state in which stop_ is set, a worker starts at most one task. */
  lemma OneStartAfterStop(n: nat, s: Pool, steps: seq<Step>, w: nat)
    requires Reachable(n, s) && s.stop && ValidRun(s, steps) && w < |s.workers|
    ensures StartsBy(s, steps, w) <= 1
  {
    hide Apply, Enabled, Exec, ValidRun, StartsBy, LockInv, TaskInv, WakeInv, DoneInv, Reachable;
    ReachableInv(n, s);
    RunKeepsInv(s, steps);
    LateCounts(s, steps, w);
  }

  // ---- The loops of the threads ----

  lemma CheckedMoves(s: Pool, w: nat)
    requires Enabled(s, Check(w))
    ensures Checked(s, w).workers ==
              s.workers[w := if s.tasks != [] then Running(s.tasks[0]) else if s.stop then Exited else Deciding]
  {
  }

  /** Whatever step is taken, a worker stays where it is or goes on in its loop: from its top to the wait or, once
      stop_ is set, out; in the wait it tests the predicate under the mutex, on every wakeup anew, blocks
      while that is false, then takes the first task or, if there is none, leaves. */
  lemma WorkerWalks(s: Pool, step: Step, w: nat)
    requires Enabled(s, step) && w < |s.workers|
    ensures var p, q := s.workers[w], Apply(s, step).workers[w];
            q != p ==>
              match p
              case AtLoop => q == if s.stop then Exited else Checking
              case Checking =>
                s.lock.Free? && q == if s.tasks != [] then Running(s.tasks[0]) else if s.stop then Exited else Deciding
              case Deciding => q == Sleeping
              case Sleeping => q == Checking
              case Running(task) => q == Notifying && task in Apply(s, step).finished
              case Notifying => q == AtLoop
              case Exited => false
  {
    hide WokenWaiters, AllDone, Checked;
    if step.Check? {
      CheckedMoves(s, step.w);
    }
  }

  /** And a caller of WaitAll tests its predicate on every wakeup, and returns only from there. */
  lemma WaiterWalks(s: Pool, step: Step, j: nat)
    requires Enabled(s, step) && j < |s.waiters|
    ensures var p, q := s.waiters[j], Apply(s, step).waiters[j];
            q != p ==>
              match p
              case WChecking => s.lock.Free? && q == if s.tasks == [] && s.active == 0 then WReturned else WDeciding
              case WDeciding => q == WSleeping
              case WSleeping => q == WChecking
              case WReturned => false
  {
  }

  // ---- Progress ----

  /** Steps the pool takes by itself: not new calls from outside, and not spurious wakeups. */
  predicate Internal(step: Step) {
    !step.Submit? && !step.CallWaitAll? && !step.SetStop? && !step.Spurious? && !step.WaitSpurious?
  }

  ghost predicate Stuck(s: Pool) {
    forall step :: Internal(step) ==> !Enabled(s, step)
  }

  lemma StuckIsUnlocked(s: Pool)
    requires LockInv(s) && Stuck(s)
    ensures s.lock.Free? && s.pending == 0
  {
    var holder := match s.lock case Free => 0 case ByWorker(w) => w case ByWaiter(j) => j;
    assert !Enabled(s, Sleep(holder)) && !Enabled(s, WaitSleep(holder)) && !Enabled(s, NotifyNobody);
    if Sleeping in s.workers {
      var w :| 0 <= w < |s.workers| && s.workers[w] == Sleeping;
      assert !Enabled(s, NotifyOne(w));
    }
  }

  // With the mutex free, a worker that neither sleeps nor has exited can move.
  lemma WorkerCanMove(s: Pool, w: nat) returns (step: Step)
    requires LockInv(s) && TaskInv(s) && s.lock.Free? && w < |s.workers|
    requires !s.workers[w].Sleeping? && !s.workers[w].Exited?
    ensures Internal(step) && Enabled(s, step)
  {
    hide RunningTasks;
    match s.workers[w]
    case AtLoop => step := LoopTest(w);
    case Checking => step := Check(w);
    case Notifying => step := NotifyDone(w);
    case _ =>
      RunningIsCounted(s.workers, w);
      step := Finish(w);
  }

  lemma StuckWorker(s: Pool, w: nat)
    requires Inv(s) && Stuck(s) && s.lock.Free? && w < |s.workers|
    ensures s.workers[w].Sleeping? || s.workers[w].Exited?
  {
    hide LockInv, TaskInv, WakeInv, DoneInv, StopInv, Enabled, Internal;
    if !s.workers[w].Sleeping? && !s.workers[w].Exited? {
      var step := WorkerCanMove(s, w);
    }
  }

  // Where the threads are when nothing can move.
  lemma StuckPhases(s: Pool)
    requires Inv(s) && Stuck(s)
    ensures s.lock.Free? && s.pending == 0 && s.active == 0
    ensures forall w :: 0 <= w < |s.workers| ==> s.workers[w].Sleeping? || s.workers[w].Exited?
    ensures forall j :: 0 <= j < |s.waiters| ==> s.waiters[j].WSleeping? || s.waiters[j].WReturned?
  {
    StuckIsUnlocked(s);
    forall w | 0 <= w < |s.workers|
      ensures s.workers[w].Sleeping? || s.workers[w].Exited?
    {
      StuckWorker(s, w);
    }
    forall j | 0 <= j < |s.waiters|
      ensures s.waiters[j].WSleeping? || s.waiters[j].WReturned?
    {
      assert !Enabled(s, WaitCheck(j));
    }
    NobodyRunning(s.workers);
  }

  /** Before stop_, a pool with a worker gets stuck only when its work is done: the queue is empty,
      everything submitted has finished, and every WaitAll has returned. */
  lemma StuckMeansDone(s: Pool)
    requires Inv(s) && Stuck(s) && !s.stop && s.workers != []
    ensures s.tasks == [] && s.finished == multiset(s.submitted)
    ensures forall j :: 0 <= j < |s.waiters| ==> s.waiters[j].WReturned?
  {
    StuckPhases(s);
    NobodyRunning(s.workers);
    assert s.workers[0] == Sleeping;
    assert multiset(s.workers)[Checking] == 0 by {
      assert Checking !in s.workers;
    }
    assert s.started == s.submitted;
  }

  // ---- A bound on the number of internal steps ----

  function Weight(p: Phase, waiters: nat): nat {
    match p
    case Sleeping => 0
    case Exited => 0
    case Deciding => 1
    case Checking => 2
    case AtLoop => 3
    case Notifying => 4 + 2 * waiters
    case Running(_) => 5 + 2 * waiters
  }

  function WaitWeight(p: WaitPhase): nat {
    match p
    case WSleeping => 0
    case WReturned => 0
    case WDeciding => 1
    case WChecking => 2
  }

  function WorkersWeight(ws: seq<Phase>, waiters: nat): nat {
    if ws == [] then 0 else WorkersWeight(ws[..|ws| - 1], waiters) + Weight(ws[|ws| - 1], waiters)
  }

  function WaitersWeight(ws: seq<WaitPhase>): nat {
    if ws == [] then 0 else WaitersWeight(ws[..|ws| - 1]) + WaitWeight(ws[|ws| - 1])
  }

  /** Every internal step lowers this, whichever thread takes it. */
  function Measure(s: Pool): nat {
    WorkersWeight(s.workers, |s.waiters|) + WaitersWeight(s.waiters)
    + |s.tasks| * (4 + 2 * |s.waiters|) + 3 * s.pending
    + if s.announced then 0 else 1 + 2 * |s.workers|
  }

  lemma {:induction false} WorkerWeightUpdate(ws: seq<Phase>, w: nat, p: Phase, n: nat)
    requires w < |ws|
    ensures WorkersWeight(ws[w := p], n) + Weight(ws[w], n) == WorkersWeight(ws, n) + Weight(p, n)
  {
    hide Weight;
    var last, ws' := |ws| - 1, ws[w := p];
    if w < last {
      assert ws'[..last] == ws[..last][w := p];
      WorkerWeightUpdate(ws[..last], w, p, n);
    } else {
      assert ws'[..last] == ws[..last];
    }
  }

  lemma {:induction false} WaiterWeightUpdate(ws: seq<WaitPhase>, j: nat, p: WaitPhase)
    requires j < |ws|
    ensures WaitersWeight(ws[j := p]) + WaitWeight(ws[j]) == WaitersWeight(ws) + WaitWeight(p)
  {
    hide WaitWeight;
    var last, ws' := |ws| - 1, ws[j := p];
    if j < last {
      assert ws'[..last] == ws[..last][j := p];
      WaiterWeightUpdate(ws[..last], j, p);
    } else {
      assert ws'[..last] == ws[..last];
    }
  }

  lemma {:induction false} WokenWorkersWeight(ws: seq<Phase>, n: nat)
    ensures WorkersWeight(WokenWorkers(ws), n) <= WorkersWeight(ws, n) + 2 * |ws|
  {
    if ws != [] {
      assert WokenWorkers(ws)[..|ws| - 1] == WokenWorkers(ws[..|ws| - 1]);
      WokenWorkersWeight(ws[..|ws| - 1], n);
    }
  }

  lemma {:induction false} WokenWaitersWeight(ws: seq<WaitPhase>)
    ensures WaitersWeight(WokenWaiters(ws)) <= WaitersWeight(ws) + 2 * |ws|
  {
    if ws != [] {
      assert WokenWaiters(ws)[..|ws| - 1] == WokenWaiters(ws[..|ws| - 1]);
      WokenWaitersWeight(ws[..|ws| - 1]);
    }
  }

  lemma CheckLowersMeasure(s: Pool, w: nat)
    requires Enabled(s, Check(w))
    ensures Measure(Checked(s, w)) < Measure(s)
  {
    hide WorkersWeight, WaitersWeight;
    WorkerWeightUpdate(s.workers, w, Checked(s, w).workers[w], |s.waiters|);
    if s.tasks != [] {
      var unit := 4 + 2 * |s.waiters|;
      assert |s.tasks| * unit == |s.tasks[1..]| * unit + unit;
    }
  }

  lemma WorkerLowersMeasure(s: Pool, step: Step)
    requires Enabled(s, step) && MovesWorker(step) && Internal(step) && !step.Check?
    ensures Measure(Apply(s, step)) < Measure(s)
  {
    hide WorkersWeight, WaitersWeight;
    WorkerWeightUpdate(s.workers, step.w, Apply(s, step).workers[step.w], |s.waiters|);
    WokenWaitersWeight(s.waiters);
  }

  lemma InternalLowersMeasure(s: Pool, step: Step)
    requires Enabled(s, step) && Internal(step)
    ensures Measure(Apply(s, step)) < Measure(s)
  {
    hide WorkersWeight, WaitersWeight, Checked;
    if step.Check? {
      CheckLowersMeasure(s, step.w);
    } else if MovesWorker(step) {
      WorkerLowersMeasure(s, step);
    } else if step.WaitCheck? || step.WaitSleep? {
      WaiterWeightUpdate(s.waiters, step.j, Apply(s, step).waiters[step.j]);
    } else if step.Announce? {
      WokenWorkersWeight(s.workers, |s.waiters|);
    }
  }

  ghost predicate AllInternal(steps: seq<Step>) {
    forall i :: 0 <= i < |steps| ==> Internal(steps[i])
  }

  lemma {:induction false} InternalRunsEnd(s: Pool, steps: seq<Step>)
    requires ValidRun(s, steps) && AllInternal(steps)
    ensures |steps| + Measure(Exec(s, steps)) <= Measure(s)
    decreases |steps|
  {
    hide Measure, Internal;
    if steps != [] {
      assert Internal(steps[0]);
      InternalLowersMeasure(s, steps[0]);
      InternalRunsEnd(Apply(s, steps[0]), steps[1..]);
    }
  }

  lemma InternalStepKeeps(s: Pool, step: Step)
    requires Enabled(s, step) && Internal(step)
    ensures var s' := Apply(s, step);
            s'.stop == s.stop && |s'.workers| == |s.workers| && s'.submitted == s.submitted
  {
  }

  lemma {:induction false} InternalKeepsStop(s: Pool, steps: seq<Step>)
    requires ValidRun(s, steps) && AllInternal(steps)
    ensures Exec(s, steps).stop == s.stop && |Exec(s, steps).workers| == |s.workers|
    ensures Exec(s, steps).submitted == s.submitted
    decreases |steps|
  {
    hide Apply, Enabled, Internal;
    if steps != [] {
      InternalStepKeeps(s, steps[0]);
      InternalKeepsStop(Apply(s, steps[0]), steps[1..]);
    }
  }

  /** Left alone before stop_, a pool with a worker finishes: every run of its own steps is bounded,
      and one that cannot go on has finished every task and returned from every WaitAll. */
  lemma LeftAloneItFinishes(n: nat, s: Pool, steps: seq<Step>)
    requires Reachable(n, s) && !s.stop && s.workers != []
    requires ValidRun(s, steps) && AllInternal(steps)
    ensures |steps| <= Measure(s)
    ensures var end := Exec(s, steps);
            Stuck(end) ==>
              && end.tasks == [] && end.finished == multiset(s.submitted)
              && forall j :: 0 <= j < |end.waiters| ==> end.waiters[j].WReturned?
  {
    hide Measure, Inv;
    ReachableInv(n, s);
    RunKeepsInv(s, steps);
    InternalRunsEnd(s, steps);
    InternalKeepsStop(s, steps);
    if Stuck(Exec(s, steps)) {
      StuckMeansDone(Exec(s, steps));
    }
  }

  // ---- The destructor ----

  /** No worker is asleep, or holds the mutex about to be. */
  ghost predicate Awake(s: Pool) {
    s.stop && forall w :: 0 <= w < |s.workers| ==> !s.workers[w].Sleeping? && !s.workers[w].Deciding?
  }

  lemma {:induction false} AwakeForever(s: Pool, steps: seq<Step>)
    requires Awake(s) && ValidRun(s, steps)
    ensures Awake(Exec(s, steps))
    decreases |steps|
  {
    if steps != [] {
      AwakeStep(s, steps[0]);
      AwakeForever(Apply(s, steps[0]), steps[1..]);
    }
  }

  lemma AwakeStep(s: Pool, step: Step)
    requires Awake(s) && Enabled(s, step)
    ensures Awake(Apply(s, step))
  {
  }

  /** In no run from here is a worker ever asleep. */
  ghost predicate NeverAsleep(s: Pool) {
    forall steps :: ValidRun(s, steps) ==> Sleeping !in Exec(s, steps).workers
  }

  lemma StepThenRun(s: Pool, step: Step, rest: seq<Step>)
    requires Enabled(s, step) && ValidRun(Apply(s, step), rest)
    ensures ValidRun(s, [step] + rest) && Exec(s, [step] + rest) == Exec(Apply(s, step), rest)
  {
    hide Enabled, Apply;
    assert ([step] + rest)[1..] == rest;
  }

  /** The destructor sets stop_ and notifies without the mutex. No worker sleeps ever after exactly
      when, at its notify_all, no worker is between finding the predicate false and blocking. */
  lemma AnnounceReachesAll(s: Pool)
    requires Enabled(s, Announce)
    ensures NeverAsleep(Apply(s, Announce)) <==> Deciding !in s.workers
  {
    var after := Apply(s, Announce);
    if Deciding in s.workers {
      var w :| 0 <= w < |s.workers| && s.workers[w] == Deciding;
      StepThenRun(after, Sleep(w), []);
      assert Apply(after, Sleep(w)).workers[w] == Sleeping;
      assert Sleeping in Exec(after, [Sleep(w)] + []).workers;
    } else {
      assert Awake(after);
      forall steps | ValidRun(after, steps)
        ensures Sleeping !in Exec(after, steps).workers
      {
        AwakeForever(after, steps);
      }
    }
  }

  /** Then every run of the pool's own steps is bounded, and ends with all workers gone. */
  lemma JoinReturns(n: nat, s: Pool, steps: seq<Step>)
    requires Reachable(n, s) && Enabled(s, Announce) && Deciding !in s.workers
    requires var after := Apply(s, Announce);
             ValidRun(after, steps) && AllInternal(steps)
    ensures |steps| <= Measure(Apply(s, Announce))
    ensures var end := Exec(Apply(s, Announce), steps);
            |end.workers| == |s.workers| &&
            (Stuck(end) ==> forall w :: 0 <= w < |end.workers| ==> end.workers[w].Exited?)
  {
    hide Inv, Measure;
    var after := Apply(s, Announce);
    ReachableInv(n, s);
    StepKeepsInv(s, Announce);
    RunKeepsInv(after, steps);
    InternalKeepsStop(after, steps);
    InternalRunsEnd(after, steps);
    assert Awake(after);
    AwakeForever(after, steps);
    if Stuck(Exec(after, steps)) {
      StuckPhases(Exec(after, steps));
    }
  }

  // ---- Otherwise it hangs in some schedule ----

  /** A worker sleeps after the destructor's notify_all, and no notification is left. */
  ghost predicate Abandoned(s: Pool, w: nat) { s.announced && s.pending == 0 && WorkerAt(s, w, Sleeping) }

  lemma AbandonedStep(s: Pool, w: nat, step: Step)
    requires Abandoned(s, w) && Enabled(s, step) && Internal(step)
    ensures Abandoned(Apply(s, step), w)
  {
  }

  // Whatever the others do, an abandoned worker sleeps until nothing moves.
  lemma {:induction false} AbandonedToStuck(s: Pool, w: nat) returns (steps: seq<Step>)
    requires Abandoned(s, w)
    ensures ValidRun(s, steps) && AllInternal(steps)
    ensures Stuck(Exec(s, steps)) && Abandoned(Exec(s, steps), w)
    decreases Measure(s)
  {
    hide Measure, Apply, Enabled, Abandoned, Internal;
    steps := [];
    if !Stuck(s) {
      var step :| Internal(step) && Enabled(s, step);
      InternalLowersMeasure(s, step);
      AbandonedStep(s, w, step);
      steps := AbandonedToStuck(Apply(s, step), w);
      StepThenRun(s, step, steps);
      steps := [step] + steps;
    }
  }

  // Notifications left over find nobody asleep; then the worker blocks.
  lemma {:induction false} DecidingIsAbandoned(s: Pool, w: nat) returns (steps: seq<Step>)
    requires s.announced && Sleeping !in s.workers && WorkerAt(s, w, Deciding)
    ensures ValidRun(s, steps) && AllInternal(steps) && Stuck(Exec(s, steps)) && Abandoned(Exec(s, steps), w)
    decreases s.pending
  {
    hide ValidRun, Exec, Stuck;
    var step := if s.pending == 0 then Sleep(w) else NotifyNobody;
    if s.pending == 0 {
      steps := AbandonedToStuck(Apply(s, step), w);
    } else {
      steps := DecidingIsAbandoned(Apply(s, step), w);
    }
    StepThenRun(s, step, steps);
    steps := [step] + steps;
  }

  /** From here every run of the pool's own steps that cannot go on has all workers gone: the
      destructor's join returns whatever the schedule. */
  ghost predicate JoinAlwaysReturns(s: Pool) {
    forall steps :: ValidRun(s, steps) && AllInternal(steps) && Stuck(Exec(s, steps)) ==>
      forall w :: 0 <= w < |Exec(s, steps).workers| ==> Exec(s, steps).workers[w].Exited?
  }

  /** The join returns in every schedule exactly when, at the destructor's notify_all, no worker is
      between finding the predicate false and blocking. */
  lemma JoinReturnsExactly(n: nat, s: Pool)
    requires Reachable(n, s) && Enabled(s, Announce)
    ensures JoinAlwaysReturns(Apply(s, Announce)) <==> Deciding !in s.workers
  {
    hide ValidRun, Exec, Stuck, AllInternal, Reachable, Measure;
    var after := Apply(s, Announce);
    if Deciding in s.workers {
      var w :| 0 <= w < |s.workers| && s.workers[w] == Deciding;
      var steps := DecidingIsAbandoned(after, w);
      assert Exec(after, steps).workers[w] == Sleeping;
    } else {
      forall steps | ValidRun(after, steps) && AllInternal(steps) && Stuck(Exec(after, steps))
        ensures forall w :: 0 <= w < |Exec(after, steps).workers| ==> Exec(after, steps).workers[w].Exited?
      {
        JoinReturns(n, s, steps);
      }
    }
  }

  lemma OneAsleepIsStuck(s: Pool)
    requires s.announced && s.pending == 0 && s.workers == [Sleeping] && s.waiters == []
    ensures Stuck(s)
  {
  }

  /** Such a state is reached: a run of one worker to a state where stop_ is set and announced, the
      worker sleeps, and nothing but a spurious wakeup could move it. */
  lemma JoinCanHang() returns (steps: seq<Step>)
    ensures ValidRun(Start(1), steps)
    ensures var end := Exec(Start(1), steps);
            end.stop && end.announced && end.workers == [Sleeping] && Stuck(end)
  {
    var s1 := Apply(Start(1), LoopTest(0));
    var s2 := Apply(s1, Check(0));
    assert s2.workers == [Deciding] && s2.waiters == [] && s2.pending == 0 && !s2.stop && !s2.announced;
    hide ValidRun, Exec, Start, Checked, Stuck;
    steps := DecidingHangs(s2);
    StepThenRun(s1, Check(0), steps);
    steps := [Check(0)] + steps;
    StepThenRun(Start(1), LoopTest(0), steps);
    steps := [LoopTest(0)] + steps;
  }

  // The destructor runs while the one worker is about to block.
  lemma DecidingHangs(s: Pool) returns (steps: seq<Step>)
    requires s.workers == [Deciding] && s.waiters == [] && s.pending == 0 && !s.stop && !s.announced
    ensures ValidRun(s, steps)
    ensures var end := Exec(s, steps); end.stop && end.announced && end.workers == [Sleeping] && Stuck(end)
  {
    var s1 := Apply(s, SetStop);
    var s2 := Apply(s1, Announce);
    assert s2.workers == [Deciding];
    var s3 := Apply(s2, Sleep(0));
    assert s3.workers == [Sleeping];
    OneAsleepIsStuck(s3);
    assert ValidRun(s3, []) && Exec(s3, []) == s3;
    hide ValidRun, Exec, Stuck;
    steps := [Sleep(0)] + [];
    StepThenRun(s2, Sleep(0), []);
    StepThenRun(s1, Announce, steps);
    steps := [Announce] + steps;
    StepThenRun(s, SetStop, steps);
    steps := [SetStop] + steps;
  }
}
