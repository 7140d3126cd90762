/** The callback thread as an object: every method is one atomic step of one of the threads involved. */
module CallbackThread {
  import opened CallbackProtocol

  class CallbackThread {
    var tasks: seq<Package>
    var worker: Worker
    var started: nat
    var stopRequested: bool
    var destructor: Destructor
    var futures: seq<Outcome>
    ghost var ran: seq<nat>
    ghost var finished: seq<nat>
    ghost var threw: set<nat>
    ghost var popped: seq<nat>
    ghost var destroyed: seq<nat>

    /** The protocol state this object is in. */
    ghost function Abs(): State
      reads this
    {
      State(tasks, worker, started, stopRequested, destructor, futures, ran, finished, threw, popped, destroyed)
    }

    constructor ()
      ensures Abs() == Init
      ensures tasks == [] && worker == NotStarted && started == 0 && !stopRequested && destructor == Alive
      ensures futures == []
    {
      tasks, worker, started, stopRequested, destructor, futures := [], NotStarted, 0, false, Alive, [];
      ran, finished, threw, popped, destroyed := [], [], {}, [], [];
    }

    function Joinable(): bool
      reads this
    {
      started > 0 && !destructor.Gone?
    }

    method NotifyOne()
      modifies this`worker
      ensures worker == Notify(old(worker))
    {
      if worker.Asleep? {
        worker := Asleep(true);
      }
    }

    /** submit: enqueue, start the worker for the first task, notify; all under the mutex. */
    method Submit() returns (future: nat)
      requires Inv(Abs()) && CanSubmit(Abs())
      modifies this
      ensures Abs() == Next(old(Abs()), Label.Submit) && Inv(Abs())
      ensures future == |old(futures)| && futures == old(futures) + [Pending] && tasks == old(tasks) + [Full(future)]
      ensures started == 1 && (old(started) == 0 ==> worker == AtWait)
      ensures old(worker).Asleep? ==> worker == Asleep(true)
      ensures old(started) == 1 && !old(worker).Asleep? ==> worker == old(worker)
    {
      StepInv(Abs(), Label.Submit);
      future := |futures|;
      futures := futures + [Pending];
      tasks := tasks + [Full(future)];
      if !Joinable() {
        worker, started := AtWait, started + 1;
      }
      NotifyOne();
    }

    /** isEmpty: every submitted task has returned or thrown. */
    method IsEmpty() returns (empty: bool)
      requires Inv(Abs())
      ensures empty ==> forall id: nat :: id < |futures| ==> id in finished
      ensures empty <==> tasks == []
    {
      empty := tasks == [];
      if empty {
        forall id: nat | id < |futures| ensures id in finished {
          assert finished[id] == id;
        }
      }
    }

    /** The worker holds the mutex: test the wait predicate, then sleep, leave, or move the front task out. The
        unguarded front() never finds an empty queue or an emptied package. */
    method WaitForTask()
      requires Inv(Abs()) && Enabled(Abs(), Check)
      modifies this
      ensures Abs() == Next(old(Abs()), Check) && Inv(Abs())
      ensures worker == if old(tasks) != [] then Running(|old(ran)|) else if old(stopRequested) then Exited
                        else Asleep(false)
      ensures old(tasks) != [] ==> old(tasks)[0] == Full(|old(ran)|) && tasks == old(tasks)[0 := Shell]
      ensures old(tasks) == [] ==> tasks == []
    {
      StepInv(Abs(), Check);
      if tasks != [] {
        FrontIsNextTask(Abs());
      }
      if !stopRequested && tasks == [] {
        worker := Asleep(false);
      } else if stopRequested && tasks == [] {
        worker := Exited;
      } else {
        var task := tasks[0].id;
        tasks := tasks[0 := Shell];
        worker := Running(task);
        ran := ran + [task];
      }
    }

    /** Leaving the wait, because of a notification or spuriously. */
    method WakeUp()
      requires Inv(Abs()) && Enabled(Abs(), Wake)
      modifies this
      ensures Abs() == Next(old(Abs()), Wake) && Inv(Abs())
      ensures Abs() == old(Abs()).(worker := AtWait)
    {
      StepInv(Abs(), Wake);
      worker := AtWait;
    }

    /** task->run() returns or throws. */
    method RunReturns(fails: bool)
      requires Inv(Abs()) && Enabled(Abs(), Return(fails))
      modifies this
      ensures Abs() == Next(old(Abs()), Return(fails)) && Inv(Abs())
      ensures worker == AtPop(old(worker.id), fails) && (fails <==> old(worker.id) in threw)
      ensures finished == old(finished) + [old(worker.id)] && tasks == old(tasks) && futures == old(futures)
    {
      StepInv(Abs(), Return(fails));
      var task := worker.id;
      finished := finished + [task];
      if fails {
        threw := threw + {task};
      }
      worker := AtPop(task, fails);
    }

    /** The unguarded pop() never finds an empty queue, and removes the emptied package. */
    method PopShell()
      requires Inv(Abs()) && Enabled(Abs(), Label.Pop)
      modifies this
      ensures Abs() == Next(old(Abs()), Label.Pop) && Inv(Abs())
      ensures old(tasks) == [Shell] + tasks && popped == old(popped) + [old(worker.id)]
      ensures worker == Destroying(old(worker.id), old(worker.threw)) && futures == old(futures)
    {
      StepInv(Abs(), Label.Pop);
      PopRemovesTheShell(Abs());
      popped := popped + [worker.id];
      tasks := tasks[1..];
      worker := Destroying(worker.id, worker.threw);
    }

    /** The unique_ptr goes out of scope. */
    method DestroyTask()
      requires Inv(Abs()) && Enabled(Abs(), Destroy)
      modifies this
      ensures Abs() == Next(old(Abs()), Destroy) && Inv(Abs())
      ensures destroyed == old(destroyed) + [old(worker.id)] && futures[old(worker.id)] == Pending
      ensures worker == Settling(old(worker.id), old(worker.threw)) && tasks == old(tasks) && futures == old(futures)
    {
      StepInv(Abs(), Destroy);
      destroyed := destroyed + [worker.id];
      worker := Settling(worker.id, worker.threw);
    }

    /** The promise is in place and has not been set before. */
    method SettlePromise()
      requires Inv(Abs()) && Enabled(Abs(), Settle)
      modifies this
      ensures Abs() == Next(old(Abs()), Settle) && Inv(Abs())
      ensures var id := old(worker.id);
        && id < |old(futures)| && old(futures)[id] == Pending && (old(worker.threw) <==> id in threw)
        && futures == old(futures)[id := if old(worker.threw) then Exception else Value]
      ensures worker == AtWait && tasks == old(tasks)
    {
      StepInv(Abs(), Settle);
      futures := futures[worker.id := if worker.threw then Exception else Value];
      worker := AtWait;
    }

    /** First part of the destructor, under the mutex. Without a thread there is no stop state to set. */
    method RequestStopAndNotify(byWorker: bool)
      requires Inv(Abs()) && Enabled(Abs(), RequestStop(byWorker))
      modifies this
      ensures Abs() == Next(old(Abs()), RequestStop(byWorker)) && Inv(Abs())
      ensures destructor == Stopping(byWorker) && (stopRequested <==> started == 1)
      ensures worker == if old(worker).Asleep? then Asleep(true) else old(worker)
    {
      StepInv(Abs(), RequestStop(byWorker));
      stopRequested := started > 0;
      destructor := Stopping(byWorker);
      NotifyOne();
    }

    /** Second part: detach when running on the worker itself, join otherwise. */
    method DecideJoinOrDetach()
      requires Inv(Abs()) && Enabled(Abs(), JoinOrDetach)
      modifies this
      ensures Abs() == Next(old(Abs()), JoinOrDetach) && Inv(Abs())
      ensures old(destructor) == Stopping(true) ==> destructor == Gone(true)
      ensures old(destructor) == Stopping(false) ==> destructor == if started == 1 then Joining else Gone(false)
    {
      StepInv(Abs(), JoinOrDetach);
      if Joinable() {
        if destructor.onWorker {
          destructor := Gone(true);
        } else {
          destructor := Joining;
        }
      } else {
        destructor := Gone(false);
      }
    }

    method FinishJoin()
      requires Inv(Abs()) && Enabled(Abs(), JoinReturns)
      modifies this
      ensures Abs() == Next(old(Abs()), JoinReturns) && Inv(Abs())
      ensures destructor == Gone(false) && worker == Exited && tasks == []
      ensures forall id: nat :: id < |futures| ==> futures[id] != Pending
    {
      StepInv(Abs(), JoinReturns);
      destructor := Gone(false);
    }
  }
}
