/** Runs of the callback thread seen from their events: what a label did decides what the states show later. */
module CallbackRuns {
  import opened CallbackProtocol

  lemma RunStep(run: seq<State>, labels: seq<Label>, i: nat)
    requires IsRun(run, labels, Init) && i < |labels|
    ensures Inv(run[i]) && Enabled(run[i], labels[i]) && run[i + 1] == Next(run[i], labels[i])
  {
    InitInv();
    RunInv(run, labels, Init, i);
    StepOf(run, labels, Init, i);
  }

  // ----- the worker at the head of its loop -----

  /** With a task in the queue the worker takes it; with none it leaves after a stop request and sleeps otherwise. */
  lemma CheckDecides(s: State)
    requires Inv(s) && Enabled(s, Check)
    ensures Next(s, Check).worker ==
            if s.queue != [] then Running(|s.ran|) else if s.stop then Exited else Asleep(false)
    ensures s.queue == [] ==> Next(s, Check) == s.(worker := Next(s, Check).worker)
  {
    if s.queue != [] {
      FrontIsNextTask(s);
    }
  }

  /** A spurious wake-up is possible at any time and changes nothing: the worker tests the predicate and sleeps on. */
  lemma SpuriousWakeUp(s: State)
    requires Inv(s) && s.worker == Asleep(false)
    ensures Enabled(s, Wake) && Enabled(Next(s, Wake), Check) && Next(Next(s, Wake), Check) == s
  {
  }

  /** While another thread waits in the destructor, the running task may still submit. */
  lemma SubmitDuringJoin(s: State)
    requires Inv(s) && InTask(s.worker) && (s.destructor == Stopping(false) || s.destructor.Joining?)
    ensures Enabled(s, Submit) && Inv(Next(s, Submit))
    ensures Next(s, Submit).queue == s.queue + [Full(|s.futures|)] && Next(s, Submit).worker == s.worker
  {
    StepInv(s, Submit);
  }

  /** A running task may destroy the object: the thread is detached and the task goes on. */
  lemma DetachFromTask(s: State)
    requires Inv(s) && InTask(s.worker) && s.destructor.Alive?
    ensures Enabled(s, RequestStop(true)) && Enabled(Next(s, RequestStop(true)), JoinOrDetach)
    ensures Next(Next(s, RequestStop(true)), JoinOrDetach) == s.(stop := true, destructor := Gone(true))
  {
  }

  // ----- outcomes -----

  /** Before state i the task returned, or threw when `fails` holds. */
  ghost predicate Returned(run: seq<State>, labels: seq<Label>, i: nat, id: nat, fails: bool)
    requires |run| == |labels| + 1 && i < |run|
  {
    exists j :: 0 <= j < i && labels[j] == Return(fails) && run[j].worker == Running(id)
  }

  lemma {:induction false} FinishedMeansReturned(run: seq<State>, labels: seq<Label>, i: nat, id: nat)
    requires IsRun(run, labels, Init) && i < |run| && id in run[i].finished
    ensures Returned(run, labels, i, id, id in run[i].threw)
  {
    if i > 0 {
      RunStep(run, labels, i - 1);
      var s, l := run[i - 1], labels[i - 1];
      if id in s.finished {
        FinishedMeansReturned(run, labels, i - 1, id);
        ThrewStays(s, l, id);
      } else {
        JustReturned(s, l, id);
      }
    }
  }

  lemma ThrewStays(s: State, l: Label, id: nat)
    requires Inv(s) && Enabled(s, l) && id in s.finished
    ensures id in Next(s, l).threw <==> id in s.threw
  {
    if l.Return? {
      assert s.worker.id !in s.finished;
    }
  }

  lemma JustReturned(s: State, l: Label, id: nat)
    requires Inv(s) && Enabled(s, l) && id !in s.finished && id in Next(s, l).finished
    ensures s.worker == Running(id) && l == Return(id in Next(s, l).threw)
  {
  }

  /** A settled future tells what its task did: an exception if it threw, a value if it returned. */
  lemma OutcomeIsWhatTheTaskDid(run: seq<State>, labels: seq<Label>, i: nat, id: nat)
    requires IsRun(run, labels, Init) && i < |run| && id < |run[i].futures| && !run[i].futures[id].Pending?
    ensures exists j :: 0 <= j < i && run[j].worker == Running(id)
                        && labels[j] == Return(run[i].futures[id] == Exception)
  {
    ReadyMeansDestroyed(run, labels, i, id);
    FinishedMeansReturned(run, labels, i, id);
  }

  // ----- the destructor -----

  predicate Side(d: Destructor, byWorker: bool) {
    if byWorker then d == Stopping(true) || d == Gone(true)
    else d == Stopping(false) || d == Joining || d == Gone(false)
  }

  lemma DestructorStep(s: State, l: Label, t: State, byWorker: bool)
    requires Inv(s) && Enabled(s, l) && t == Next(s, l)
    requires Side(s.destructor, byWorker) || l == RequestStop(byWorker)
    ensures Side(t.destructor, byWorker)
  {
  }

  lemma {:induction false} DestructorSince(run: seq<State>, labels: seq<Label>, j: nat, i: nat, byWorker: bool)
    requires IsRun(run, labels, Init) && j < i < |run| && labels[j] == RequestStop(byWorker)
    ensures Side(run[i].destructor, byWorker)
  {
    RunStep(run, labels, i - 1);
    if j < i - 1 {
      DestructorSince(run, labels, j, i - 1, byWorker);
    }
    DestructorStep(run[i - 1], labels[i - 1], run[i], byWorker);
  }

  /** A destructor on another thread never detaches: it returns with every future settled. */
  lemma ElsewhereJoins(run: seq<State>, labels: seq<Label>, j: nat, i: nat)
    requires IsRun(run, labels, Init) && j < i < |run| && labels[j] == RequestStop(false)
    ensures run[i].destructor == Stopping(false) || run[i].destructor == Joining || run[i].destructor == Gone(false)
    ensures run[i].destructor.Gone? ==>
      forall id: nat :: id < |run[i].futures| ==> !run[i].futures[id].Pending?
  {
    DestructorSince(run, labels, j, i, false);
    if run[i].destructor == Gone(false) {
      ShutdownDrains(run, labels, i);
    }
  }

  /** A destructor on the worker never joins, which would be waiting for itself: it detaches. */
  lemma OnWorkerDetaches(run: seq<State>, labels: seq<Label>, j: nat, i: nat)
    requires IsRun(run, labels, Init) && j < i < |run| && labels[j] == RequestStop(true)
    ensures run[i].destructor == Stopping(true) || run[i].destructor == Gone(true)
  {
    DestructorSince(run, labels, j, i, true);
  }

  // ----- the histories are the events -----

  predicate IsReturn(l: Label) { l.Return? }
  predicate IsPop(l: Label) { l == Label.Pop }
  predicate IsDestroy(l: Label) { l == Destroy }
  predicate IsRequestStop(l: Label) { l.RequestStop? }

  ghost predicate Adds(s: State, l: Label, t: State) {
    && |t.futures| == |s.futures| + (if IsSubmit(l) then 1 else 0)
    && |t.finished| == |s.finished| + (if IsReturn(l) then 1 else 0)
    && |t.popped| == |s.popped| + (if IsPop(l) then 1 else 0)
    && |t.destroyed| == |s.destroyed| + (if IsDestroy(l) then 1 else 0)
    && (t.destructor.Alive? <==> s.destructor.Alive? && !IsRequestStop(l))
  }

  lemma FuturesAdd(s: State, l: Label)
    requires Inv(s) && Enabled(s, l)
    ensures |Next(s, l).futures| == |s.futures| + (if IsSubmit(l) then 1 else 0)
  {
  }

  lemma HistoriesAdd(s: State, l: Label)
    requires Inv(s) && Enabled(s, l)
    ensures |Next(s, l).finished| == |s.finished| + (if IsReturn(l) then 1 else 0)
    ensures |Next(s, l).popped| == |s.popped| + (if IsPop(l) then 1 else 0)
    ensures |Next(s, l).destroyed| == |s.destroyed| + (if IsDestroy(l) then 1 else 0)
  {
    if l == Label.Pop {
      PopRemovesTheShell(s);
    }
  }

  lemma DestructorLives(s: State, l: Label)
    requires Enabled(s, l)
    ensures Next(s, l).destructor.Alive? <==> s.destructor.Alive? && !IsRequestStop(l)
  {
  }

  lemma RunAdds(run: seq<State>, labels: seq<Label>, i: nat)
    requires IsRun(run, labels, Init) && i < |labels|
    ensures Adds(run[i], labels[i], run[i + 1])
  {
    RunStep(run, labels, i);
    FuturesAdd(run[i], labels[i]);
    HistoriesAdd(run[i], labels[i]);
    DestructorLives(run[i], labels[i]);
  }

  /** The histories have one entry for every event of their kind, there is one future per submit, and the destructor
      is at work after its request. */
  lemma {:induction false} HistoriesAreEvents(run: seq<State>, labels: seq<Label>, i: nat)
    requires IsRun(run, labels, Init) && i < |run|
    ensures |run[i].futures| == Count(labels, i, IsSubmit)
    ensures |run[i].finished| == Count(labels, i, IsReturn)
    ensures |run[i].popped| == Count(labels, i, IsPop)
    ensures |run[i].destroyed| == Count(labels, i, IsDestroy)
    ensures run[i].destructor.Alive? <==> Count(labels, i, IsRequestStop) == 0
  {
    if i > 0 {
      HistoriesAreEvents(run, labels, i - 1);
      RunAdds(run, labels, i - 1);
    }
  }

  // ----- everything can happen -----

  /** The worker is idle, or not yet started, and the tasks behaved as told. */
  ghost predicate Served(s: State, fails: seq<bool>) {
    && s.queue == [] && !s.stop && s.destructor.Alive?
    && s.worker == (if fails == [] then NotStarted else AtWait)
    && |s.futures| == |fails|
    && forall id: nat :: id < |fails| ==> s.futures[id] == if fails[id] then Exception else Value
  }

  lemma Extend(run: seq<State>, labels: seq<Label>, s0: State, l: Label)
    requires IsRun(run, labels, s0) && Enabled(run[|labels|], l)
    ensures IsRun(run + [Next(run[|labels|], l)], labels + [l], s0)
  {
    var run', labels' := run + [Next(run[|labels|], l)], labels + [l];
    forall i | 0 <= i < |labels'| ensures Follows(run', labels', i) {
      if i < |labels| {
        StepOf(run, labels, s0, i);
      }
    }
  }

  lemma TakeTask(s: State, fails: seq<bool>)
    requires Inv(s) && Served(s, fails)
    ensures Enabled(s, Submit) && Enabled(Next(s, Submit), Check)
    ensures var t := Next(Next(s, Submit), Check);
      && Inv(t) && t.worker == Running(|fails|) && t.queue == [Shell] && !t.stop && t.destructor.Alive?
      && t.futures == s.futures + [Pending]
  {
    StepInv(s, Submit);
    StepInv(Next(s, Submit), Check);
    FrontIsNextTask(Next(s, Submit));
  }

  lemma FinishTask(t: State, f: bool)
    requires Inv(t) && t.worker.Running? && t.queue == [Shell] && !t.stop && t.destructor.Alive?
    requires t.worker.id < |t.futures| && t.futures[t.worker.id].Pending?
    ensures Enabled(t, Return(f)) && Enabled(Next(t, Return(f)), Label.Pop)
    ensures var u := Next(Next(t, Return(f)), Label.Pop);
      && Enabled(u, Destroy) && Enabled(Next(u, Destroy), Settle)
      && Next(Next(u, Destroy), Settle).queue == [] && Next(Next(u, Destroy), Settle).worker == AtWait
      && !Next(Next(u, Destroy), Settle).stop && Next(Next(u, Destroy), Settle).destructor.Alive?
      && Next(Next(u, Destroy), Settle).futures == t.futures[t.worker.id := if f then Exception else Value]
  {
  }

  lemma ServeOne(run: seq<State>, labels: seq<Label>, fails: seq<bool>, f: bool)
    returns (run': seq<State>, labels': seq<Label>)
    requires IsRun(run, labels, Init) && Served(run[|labels|], fails)
    ensures IsRun(run', labels', Init) && Served(run'[|labels'|], fails + [f])
  {
    InitInv();
    RunInv(run, labels, Init, |labels|);
    TakeTask(run[|labels|], fails);
    run', labels' := ExtendBy(run, labels, [Submit, Check]);
    FinishTask(run'[|labels'|], f);
    run', labels' := ExtendBy(run', labels', [Return(f), Label.Pop]);
    run', labels' := ExtendBy(run', labels', [Destroy, Settle]);
  }

  lemma ExtendBy(run: seq<State>, labels: seq<Label>, two: seq<Label>) returns (run': seq<State>, labels': seq<Label>)
    requires IsRun(run, labels, Init) && |two| == 2
    requires Enabled(run[|labels|], two[0]) && Enabled(Next(run[|labels|], two[0]), two[1])
    ensures IsRun(run', labels', Init) && run'[|labels'|] == Next(Next(run[|labels|], two[0]), two[1])
  {
    Extend(run, labels, Init, two[0]);
    run', labels' := run + [Next(run[|labels|], two[0])], labels + [two[0]];
    Extend(run', labels', Init, two[1]);
    run', labels' := run' + [Next(run'[|labels'|], two[1])], labels' + [two[1]];
  }

  lemma {:induction false} ServeAll(fails: seq<bool>) returns (run: seq<State>, labels: seq<Label>)
    ensures IsRun(run, labels, Init) && Served(run[|labels|], fails)
  {
    if fails == [] {
      run, labels := [Init], [];
    } else {
      var n := |fails| - 1;
      run, labels := ServeAll(fails[..n]);
      run, labels := ServeOne(run, labels, fails[..n], fails[n]);
      assert fails[..n] + [fails[n]] == fails;
    }
  }

  /** For tasks of any number and behaviour there is a run that serves them all and ends in a join: each future
      shows what its task was told to do. */
  lemma EveryOutcomeIsPossible(fails: seq<bool>) returns (run: seq<State>, labels: seq<Label>)
    ensures IsRun(run, labels, Init)
    ensures var s := run[|labels|];
      && s.destructor == Gone(false) && |s.futures| == |fails| && (fails != [] ==> s.worker.Exited?)
      && forall id: nat :: id < |fails| ==> s.futures[id] == if fails[id] then Exception else Value
  {
    run, labels := ServeAll(fails);
    InitInv();
    RunInv(run, labels, Init, |labels|);
    if fails == [] {
      run, labels := ExtendBy(run, labels, [RequestStop(false), JoinOrDetach]);
    } else {
      run, labels := ExtendBy(run, labels, [RequestStop(false), Check]);
      run, labels := ExtendBy(run, labels, [JoinOrDetach, JoinReturns]);
    }
  }
}
