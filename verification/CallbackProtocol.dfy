/** The callback thread as a transition system. A critical section is one step, because all of them
    hold the same mutex; everything a thread does outside the mutex is a step of its own. */
module CallbackProtocol {

  /** A queue entry: the task and promise of a submission, or what is left after they were moved out. */
  datatype Package = Full(id: nat) | Shell

  /** Where the worker thread is. */
  datatype Worker =
    | NotStarted
    | AtWait                              // before taking the mutex and testing the wait predicate
    | Asleep(notified: bool)              // inside the wait, mutex released
    | Running(id: nat)                    // task moved out of the queue, mutex released
    | AtPop(id: nat, threw: bool)         // the task returned or threw
    | Destroying(id: nat, threw: bool)    // shell popped, task object still alive
    | Settling(id: nat, threw: bool)      // task object destroyed, promise not yet set
    | Exited
    | Failed                              // null task, pop of an empty queue, or a promise set twice

  datatype Destructor =
    | Alive
    | Stopping(onWorker: bool)            // stop requested, join or detach not yet decided
    | Joining
    | Gone(detached: bool)

  datatype Outcome = Pending | Value | Exception

  datatype State = State(
    queue: seq<Package>,
    worker: Worker,
    started: nat,                         // number of threads ever created
    stop: bool,                           // stop requested on the worker's token
    destructor: Destructor,
    futures: seq<Outcome>,                // one per submission, in submission order
    ran: seq<nat>,                        // tasks in the order in which they began
    finished: seq<nat>,                   // tasks that returned or threw
    threw: set<nat>,
    popped: seq<nat>,
    destroyed: seq<nat>)

  const Init := State([], NotStarted, 0, false, Alive, [], [], [], {}, [], [])

  // ----- guards -----

  predicate InTask(w: Worker) { w.Running? || w.Destroying? }

  /** m_thread.joinable(): a thread was assigned and neither joined nor detached. */
  predicate Joinable(s: State) { s.started > 0 && !s.destructor.Gone? }

  /** The worker is executing the destructor inside a task and can do nothing else. */
  predicate WorkerBusy(s: State) { s.destructor == Stopping(true) }

  /** Anyone may submit while the object is alive; while another thread destroys it, only the running task may. */
  predicate CanSubmit(s: State) {
    s.destructor.Alive? || (InTask(s.worker) && (s.destructor == Stopping(false) || s.destructor.Joining?))
  }

  predicate PredicateHolds(s: State) { s.stop || s.queue != [] }

  predicate CanRequestStop(s: State, onWorker: bool) { s.destructor.Alive? && (onWorker ==> InTask(s.worker)) }

  // ----- steps -----

  datatype Label =
    | Submit
    | Check                               // the worker tests the predicate and sleeps, exits or takes a task
    | Wake                                // it leaves the wait, notified or spuriously
    | Return(fails: bool)                 // the running task returns or throws
    | Pop
    | Destroy
    | Settle
    | RequestStop(byWorker: bool)
    | JoinOrDetach
    | JoinReturns

  function Notify(w: Worker): Worker { if w.Asleep? then Asleep(true) else w }

  predicate Enabled(s: State, l: Label) {
    match l
    case Submit => CanSubmit(s)
    case Check => s.worker.AtWait? && !WorkerBusy(s)
    case Wake => s.worker.Asleep?
    case Return(_) => s.worker.Running? && !WorkerBusy(s)
    case Pop => s.worker.AtPop?
    case Destroy => s.worker.Destroying? && !WorkerBusy(s)
    case Settle => s.worker.Settling?
    case RequestStop(byWorker) => CanRequestStop(s, byWorker)
    case JoinOrDetach => s.destructor.Stopping?
    case JoinReturns => s.destructor.Joining? && s.worker.Exited?
  }

  function Next(s: State, l: Label): State
    requires Enabled(s, l)
  {
    match l
    case Submit =>
      var w := if Joinable(s) then s.worker else AtWait;
      s.(queue := s.queue + [Full(|s.futures|)],
         futures := s.futures + [Pending],
         started := if Joinable(s) then s.started else s.started + 1,
         worker := Notify(w))
    case Check =>
      if !PredicateHolds(s) then s.(worker := Asleep(false))
      else if s.queue == [] then s.(worker := Exited)
      else if s.queue[0].Full? then
        s.(queue := [Shell] + s.queue[1..], worker := Running(s.queue[0].id), ran := s.ran + [s.queue[0].id])
      else s.(worker := Failed)
    case Wake => s.(worker := AtWait)
    case Return(fails) =>
      s.(worker := AtPop(s.worker.id, fails), finished := s.finished + [s.worker.id],
         threw := if fails then s.threw + {s.worker.id} else s.threw)
    case Pop =>
      if s.queue == [] then s.(worker := Failed) else
      s.(queue := s.queue[1..], worker := Destroying(s.worker.id, s.worker.threw), popped := s.popped + [s.worker.id])
    case Destroy =>
      s.(worker := Settling(s.worker.id, s.worker.threw), destroyed := s.destroyed + [s.worker.id])
    case Settle =>
      if s.worker.id >= |s.futures| || !s.futures[s.worker.id].Pending? then s.(worker := Failed) else
      s.(worker := AtWait,
         futures := s.futures[s.worker.id := if s.worker.threw then Exception else Value])
    case RequestStop(byWorker) =>
      s.(stop := s.started > 0, destructor := Stopping(byWorker), worker := Notify(s.worker))
    case JoinOrDetach =>
      s.(destructor := if !Joinable(s) then Gone(false)
                       else if s.destructor.onWorker then Gone(true) else Joining)
    case JoinReturns => s.(destructor := Gone(false))
  }

  // ----- the invariant -----

  function Iota(n: nat): (r: seq<nat>)
    ensures |r| == n && forall i :: 0 <= i < n ==> r[i] == i
  {
    if n == 0 then [] else Iota(n - 1) + [n - 1]
  }

  function Waiting(first: nat, end: nat): (q: seq<Package>)
    requires first <= end
    ensures |q| == end - first
    ensures forall i :: 0 <= i < |q| ==> q[i] == Full(first + i)
  {
    if first == end then [] else Waiting(first, end - 1) + [Full(end - 1)]
  }

  /** The queue is the shell of the running task, if any, followed by the tasks that have not begun. */
  ghost predicate QueueShape(s: State) {
    && |s.ran| <= |s.futures|
    && s.queue == (if s.worker.Running? || s.worker.AtPop? then [Shell] else []) + Waiting(|s.ran|, |s.futures|)
  }

  /** The worker holds a task, or at least its promise. */
  predicate HasTask(w: Worker) { w.Running? || w.AtPop? || w.Destroying? || w.Settling? }

  /** How far the current task has come; everything before it is complete. */
  ghost predicate Histories(s: State) {
    var n := |s.ran|;
    && s.ran == Iota(n)
    && (HasTask(s.worker) ==> n > 0 && s.worker.id == n - 1)
    && s.finished == Iota(if s.worker.Running? then n - 1 else n)
    && s.popped == Iota(if s.worker.Running? || s.worker.AtPop? then n - 1 else n)
    && s.destroyed == Iota(if s.worker.Running? || s.worker.AtPop? || s.worker.Destroying? then n - 1 else n)
    && (s.worker.AtPop? || s.worker.Destroying? || s.worker.Settling? ==>
         (s.worker.threw <==> s.worker.id in s.threw))
    && (forall i :: i in s.threw ==> i in s.finished)
  }

  /** Promises are set for the complete tasks and for no other. */
  ghost predicate Promises(s: State) {
    forall i: nat :: i < |s.futures| ==>
      s.futures[i] == if i < |s.ran| && !(HasTask(s.worker) && i == |s.ran| - 1)
                      then if i in s.threw then Exception else Value
                      else Pending
  }

  ghost predicate Lifecycle(s: State) {
    && !s.worker.Failed?
    && (s.worker.NotStarted? <==> s.started == 0) && s.started <= 1
    && (s.started == 0 <==> s.futures == [])
    && (s.stop ==> s.started == 1 && !s.destructor.Alive?)
    && (s.started == 1 && !s.destructor.Alive? ==> s.stop)
    && (s.destructor == Stopping(true) ==> InTask(s.worker))
    && (s.destructor.Joining? ==> s.started == 1)
    && (s.destructor == Gone(true) ==> s.started == 1)
    && (s.destructor == Gone(false) && s.started == 1 ==> s.worker.Exited?)
    && (s.worker.Exited? ==> s.stop && s.queue == [])
    && (s.worker.Asleep? && !s.worker.notified ==> !s.stop && s.queue == [])
  }

  ghost predicate Inv(s: State) { QueueShape(s) && Histories(s) && Promises(s) && Lifecycle(s) }

  lemma InitInv()
    ensures Inv(Init)
  {
  }

  lemma StepQueue(s: State, l: Label)
    requires Inv(s) && Enabled(s, l)
    ensures QueueShape(Next(s, l))
  {
    match l
    case Submit => SubmitQueue(s);
    case Check => CheckQueue(s);
    case Pop => PopRemovesTheShell(s);
    case _ =>
  }

  lemma SubmitQueue(s: State)
    requires QueueShape(s) && Enabled(s, Submit) && Lifecycle(s)
    ensures QueueShape(Next(s, Submit))
  {
    assert Waiting(|s.ran|, |s.futures| + 1) == Waiting(|s.ran|, |s.futures|) + [Full(|s.futures|)];
  }

  lemma CheckQueue(s: State)
    requires QueueShape(s) && Enabled(s, Check)
    ensures QueueShape(Next(s, Check)) && !Next(s, Check).worker.Failed?
  {
    if s.queue != [] {
      assert s.queue[1..] == Waiting(|s.ran| + 1, |s.futures|);
    }
  }

  /** The front of the queue, when the worker takes it, is the package of the next task in submission order. */
  lemma FrontIsNextTask(s: State)
    requires Inv(s) && Enabled(s, Check) && s.queue != []
    ensures var n := |s.ran|;
      && s.queue[0] == Full(n)
      && Next(s, Check) == s.(queue := s.queue[0 := Shell], worker := Running(n), ran := s.ran + [n])
  {
    CheckQueue(s);
    assert s.queue[0 := Shell] == [Shell] + s.queue[1..];
  }

  /** Whatever was submitted since the task was taken, pop removes the shell of the task that just ran. */
  lemma PopRemovesTheShell(s: State)
    requires Inv(s) && s.worker.AtPop?
    ensures s.queue != [] && s.queue[0] == Shell && s.worker.id == |s.ran| - 1
    ensures Next(s, Pop).queue == Waiting(s.worker.id + 1, |s.futures|)
    ensures QueueShape(Next(s, Pop))
  {
    assert s.queue[1..] == Waiting(|s.ran|, |s.futures|);
  }

  lemma StepHistories(s: State, l: Label)
    requires Inv(s) && Enabled(s, l)
    ensures Histories(Next(s, l))
  {
    match l
    case Check => CheckHistories(s);
    case Pop => PopHistories(s);
    case Destroy => DestroyHistories(s);
    case Return(fails) => ReturnHistories(s, fails);
    case _ =>
  }

  lemma CheckHistories(s: State)
    requires Inv(s) && Enabled(s, Check)
    ensures Histories(Next(s, Check))
  {
    CheckQueue(s);
  }

  lemma PopHistories(s: State)
    requires Inv(s) && Enabled(s, Pop)
    ensures Histories(Next(s, Pop))
  {
  }

  lemma DestroyHistories(s: State)
    requires Inv(s) && Enabled(s, Destroy)
    ensures Histories(Next(s, Destroy))
  {
  }

  lemma ReturnHistories(s: State, fails: bool)
    requires Inv(s) && Enabled(s, Return(fails))
    ensures Histories(Next(s, Return(fails)))
  {
  }

  lemma StepPromises(s: State, l: Label)
    requires Inv(s) && Enabled(s, l)
    ensures Promises(Next(s, l))
  {
    match l
    case Settle => SettlePromises(s);
    case Check => CheckPromises(s);
    case Return(fails) => ReturnPromises(s, fails);
    case _ =>
  }

  lemma SettlePromises(s: State)
    requires Inv(s) && Enabled(s, Settle)
    ensures Promises(Next(s, Settle))
  {
  }

  lemma CheckPromises(s: State)
    requires Inv(s) && Enabled(s, Check)
    ensures Promises(Next(s, Check))
  {
  }

  lemma ReturnPromises(s: State, fails: bool)
    requires Inv(s) && Enabled(s, Return(fails))
    ensures Promises(Next(s, Return(fails)))
  {
  }

  lemma StepLifecycle(s: State, l: Label)
    requires Inv(s) && Enabled(s, l)
    ensures Lifecycle(Next(s, l))
  {
    if l == Check {
      CheckQueue(s);
    }
  }

  lemma StepInv(s: State, l: Label)
    requires Inv(s) && Enabled(s, l)
    ensures Inv(Next(s, l))
  {
    StepQueue(s, l);
    StepHistories(s, l);
    StepPromises(s, l);
    StepLifecycle(s, l);
  }

  // ----- runs -----

  /** States of a run from s0 on: state i + 1 follows state i by label i. */
  ghost predicate IsRun(run: seq<State>, labels: seq<Label>, s0: State) {
    && |run| == |labels| + 1 && run[0] == s0
    && forall i :: 0 <= i < |labels| ==> Follows(run, labels, i)
  }

  ghost predicate Follows(run: seq<State>, labels: seq<Label>, i: int)
    requires 0 <= i < |labels| && |run| == |labels| + 1
  {
    Enabled(run[i], labels[i]) && run[i + 1] == Next(run[i], labels[i])
  }

  lemma StepOf(run: seq<State>, labels: seq<Label>, s0: State, i: nat)
    requires IsRun(run, labels, s0) && i < |labels|
    ensures Enabled(run[i], labels[i]) && run[i + 1] == Next(run[i], labels[i])
  {
    assert Follows(run, labels, i);
  }

  lemma {:induction false} RunInv(run: seq<State>, labels: seq<Label>, s0: State, i: nat)
    requires IsRun(run, labels, s0) && Inv(s0) && i < |run|
    ensures Inv(run[i])
  {
    if i > 0 {
      RunInv(run, labels, s0, i - 1);
      StepOf(run, labels, s0, i - 1);
      StepInv(run[i - 1], labels[i - 1]);
    }
  }

  /** In every run at most one worker exists, it never fails, and the tasks begin one after the other in
      submission order, each exactly once: the next begins only after the one before was destroyed. */
  lemma TasksRunOnceInOrder(run: seq<State>, labels: seq<Label>, i: nat)
    requires IsRun(run, labels, Init) && i < |run|
    ensures var s := run[i];
            && s.started <= 1 && !s.worker.Failed?
            && |s.ran| <= |s.futures| && (forall k :: 0 <= k < |s.ran| ==> s.ran[k] == k)
            && (forall k :: 0 <= k < |s.ran| - 1 ==> k in s.finished && k in s.popped && k in s.destroyed)
  {
    InitInv();
    RunInv(run, labels, Init, i);
    var s := run[i];
    forall k | 0 <= k < |s.ran| - 1 ensures k in s.finished && k in s.popped && k in s.destroyed {
      assert s.finished[k] == k && s.popped[k] == k && s.destroyed[k] == k;
    }
  }

  /** A ready future means the task has run, its package was popped and its task object destroyed; it
      carries an exception exactly when the task threw. */
  lemma ReadyMeansDestroyed(run: seq<State>, labels: seq<Label>, i: nat, id: nat)
    requires IsRun(run, labels, Init) && i < |run| && id < |run[i].futures|
    ensures var s := run[i];
            !s.futures[id].Pending? ==>
              && id in s.finished && id in s.popped && id in s.destroyed
              && (s.futures[id] == Exception <==> id in s.threw)
  {
    InitInv();
    RunInv(run, labels, Init, i);
    var s := run[i];
    if !s.futures[id].Pending? {
      assert s.finished[id] == id && s.popped[id] == id && s.destroyed[id] == id;
    }
  }

  /** A promise is set at most once: later states of the run show the same outcome. */
  lemma {:induction false} OutcomesAreFinal(run: seq<State>, labels: seq<Label>, s0: State, i: nat, j: nat, id: nat)
    requires IsRun(run, labels, s0) && Inv(s0) && i <= j < |run| && id < |run[i].futures|
    ensures |run[i].futures| <= |run[j].futures|
    ensures !run[i].futures[id].Pending? ==> run[j].futures[id] == run[i].futures[id]
    decreases j
  {
    if i < j {
      OutcomesAreFinal(run, labels, s0, i, j - 1, id);
      RunInv(run, labels, s0, j - 1);
      StepOf(run, labels, s0, j - 1);
      FuturesGrow(run[j - 1], labels[j - 1], id);
    }
  }

  lemma FuturesGrow(s: State, l: Label, id: nat)
    requires Inv(s) && Enabled(s, l) && id < |s.futures|
    ensures |s.futures| <= |Next(s, l).futures|
    ensures !s.futures[id].Pending? ==> Next(s, l).futures[id] == s.futures[id]
  {
  }

  /** isEmpty() answers true exactly when every submitted task has returned or thrown and was popped. */
  lemma EmptyMeansAllFinished(run: seq<State>, labels: seq<Label>, i: nat)
    requires IsRun(run, labels, Init) && i < |run|
    ensures var s := run[i];
            s.queue == [] <==> forall id: nat :: id < |s.futures| ==> id in s.finished && id in s.popped
  {
    InitInv();
    RunInv(run, labels, Init, i);
    var s := run[i];
    if s.queue == [] {
      forall id: nat | id < |s.futures| ensures id in s.finished && id in s.popped {
        assert s.finished[id] == id && s.popped[id] == id;
      }
    } else {
      var id := |s.futures| - 1;
      assert id !in s.popped || id !in s.finished;
    }
  }

  /** A worker that sleeps without a pending notification has nothing to do: no submit and no stop request
      was missed, for every interleaving with spurious wake-ups. */
  lemma NoLostWakeUp(run: seq<State>, labels: seq<Label>, i: nat)
    requires IsRun(run, labels, Init) && i < |run| && run[i].worker == Asleep(false)
    ensures run[i].queue == [] && !run[i].stop
    ensures forall id: nat :: id < |run[i].futures| ==> !run[i].futures[id].Pending?
  {
    InitInv();
    RunInv(run, labels, Init, i);
  }

  /** The worker leaves only after a stop request and with every submitted task run and settled; when the
      destructor returned on the join path, that is where it is. */
  lemma ShutdownDrains(run: seq<State>, labels: seq<Label>, i: nat)
    requires IsRun(run, labels, Init) && i < |run|
    requires run[i].worker.Exited? || run[i].destructor == Gone(false)
    ensures var s := run[i];
            && !s.destructor.Alive? && s.queue == [] && |s.ran| == |s.futures|
            && forall id: nat :: id < |s.futures| ==> id in s.ran && !s.futures[id].Pending?
  {
    InitInv();
    RunInv(run, labels, Init, i);
    var s := run[i];
    forall id: nat | id < |s.futures| ensures id in s.ran {
      assert s.ran[id] == id;
    }
  }

  // ----- draining after a stop request -----

  predicate IsWorkerStep(l: Label) {
    l == Check || l == Wake || l.Return? || l == Pop || l == Destroy || l == Settle
  }

  /** Steps the worker has left before it exits: five per task, and one to see that nothing is left. */
  function Remaining(s: State): nat
    requires |s.ran| <= |s.futures|
  {
    5 * (|s.futures| - |s.ran|) +
    match s.worker
    case NotStarted => 0
    case AtWait => 1
    case Asleep(_) => 2
    case Running(_) => 5
    case AtPop(_, _) => 4
    case Destroying(_, _) => 3
    case Settling(_, _) => 2
    case Exited => 0
    case Failed => 0
  }

  /** Once stop was requested, every worker step is progress and submissions cost five steps each. */
  lemma StepTowardsExit(s: State, l: Label)
    requires Inv(s) && s.stop && Enabled(s, l)
    ensures Next(s, l).stop && |Next(s, l).ran| <= |Next(s, l).futures|
    ensures Remaining(Next(s, l)) ==
            if IsWorkerStep(l) then Remaining(s) - 1 else if l == Submit then Remaining(s) + 5 else Remaining(s)
  {
    match l
    case Check => CheckTowardsExit(s);
    case Pop => PopRemovesTheShell(s);
    case Settle => StepLifecycle(s, l);
    case _ =>
  }

  lemma CheckTowardsExit(s: State)
    requires Inv(s) && s.stop && Enabled(s, Check)
    ensures |Next(s, Check).ran| <= |Next(s, Check).futures| && Remaining(Next(s, Check)) == Remaining(s) - 1
  {
    CheckQueue(s);
  }

  /** How many of the first n labels are of a kind. */
  function Count(labels: seq<Label>, n: nat, kind: Label -> bool): nat
    requires n <= |labels|
  {
    if n == 0 then 0 else Count(labels, n - 1, kind) + if kind(labels[n - 1]) then 1 else 0
  }

  predicate IsSubmit(l: Label) { l == Submit }

  lemma DrainStep(s: State, l: Label, t: State)
    requires Inv(s) && s.stop && Enabled(s, l) && t == Next(s, l)
    ensures Inv(t) && t.stop && (Remaining(t) == 0 <==> t.worker.Exited?)
    ensures Remaining(t) + (if IsWorkerStep(l) then 1 else 0) == Remaining(s) + 5 * (if IsSubmit(l) then 1 else 0)
  {
    StepInv(s, l);
    StepTowardsExit(s, l);
    NothingRemains(t);
  }

  lemma NothingRemains(s: State)
    requires Inv(s) && s.stop
    ensures Remaining(s) == 0 <==> s.worker.Exited?
  {
  }

  /** After a stop request the worker makes exactly the promised number of steps before it exits: whatever
      else happens, steps made plus steps remaining account for the tasks known and submitted since. */
  lemma {:induction false} DrainIsBounded(run: seq<State>, labels: seq<Label>, s0: State, i: nat)
    requires IsRun(run, labels, s0) && Inv(s0) && s0.stop && i < |run|
    ensures Inv(run[i]) && run[i].stop
    ensures Count(labels, i, IsWorkerStep) + Remaining(run[i]) == Remaining(s0) + 5 * Count(labels, i, IsSubmit)
    ensures Remaining(run[i]) == 0 <==> run[i].worker.Exited?
  {
    if i == 0 {
      NothingRemains(s0);
    } else {
      DrainIsBounded(run, labels, s0, i - 1);
      StepOf(run, labels, s0, i - 1);
      DrainStep(run[i - 1], labels[i - 1], run[i]);
    }
  }

  /** No deadlock on the way: until the worker has exited, it or the destructor it runs can make a step. */
  lemma NeverStuck(s: State) returns (l: Label)
    requires Inv(s) && s.stop && !s.worker.Exited?
    ensures Enabled(s, l)
    ensures IsWorkerStep(l) || (WorkerBusy(s) && l == JoinOrDetach && !WorkerBusy(Next(s, l)))
  {
    if WorkerBusy(s) { return JoinOrDetach; }
    match s.worker
    case AtWait => l := Check;
    case Asleep(_) => l := Wake;
    case Running(_) => l := Return(false);
    case AtPop(_, _) => l := Pop;
    case Destroying(_, _) => l := Destroy;
    case Settling(_, _) => l := Settle;
    case _ => l := Settle;
  }

  /** So a run that can go on no further after a stop request has settled every submitted task, on the
      join path and on the detach path alike. */
  lemma QuietMeansDrained(run: seq<State>, labels: seq<Label>, i: nat)
    requires IsRun(run, labels, Init) && i < |run| && run[i].stop
    requires forall l :: IsWorkerStep(l) || l == JoinOrDetach ==> !Enabled(run[i], l)
    ensures run[i].worker.Exited? && run[i].queue == []
    ensures forall id: nat :: id < |run[i].futures| ==> !run[i].futures[id].Pending?
  {
    InitInv();
    RunInv(run, labels, Init, i);
    if !run[i].worker.Exited? {
      var l := NeverStuck(run[i]);
    }
  }
}
