/** Once the clients are quiet, the threads of the pipeline always get on with their
    work, even while the worker waits for a sink's thread to end, and they finish. */
module PipelineProgress {
  import opened Pipeline
  import opened PipelineLifecycle
  import opened PipelineShutdown

  /** Steps of the threads that consume queues, and of a destructor at work. */
  predicate Consumes(step: Step)
  {
    step.WorkerRun? || step.WorkerClose? || step.DestroyWorker? || step.SinkRun?
  }

  function Pending(all: seq<Sink>): nat
  {
    if all == [] then 0 else Pending(all[..|all| - 1]) + |all[|all| - 1].queue|
  }

  function PhaseWeight(st: State): nat
  {
    match st.phase
    case Closing(todo, _) =>
      2 + 3 * |todo| - (if todo != [] && !Alive(st, todo[0]) then 2 else 0)
    case Stopped => 3 + 3 * |st.sinks|
    case _ => 0
  }

  /** The work left: a job of the worker can make one job for each sink, and for
      each sink it drops a poison job and a join. */
  function Measure(st: State): nat
  {
    (4 * |st.all| + 5) * |st.queue| + Pending(st.all) + PhaseWeight(st)
  }

  lemma {:induction false} PendingUpdate(all: seq<Sink>, s: nat, k: Sink)
    requires s < |all|
    ensures Pending(all[s := k]) == Pending(all) - |all[s].queue| + |k.queue|
  {
    var n := |all| - 1;
    if s == n {
      assert all[s := k][..n] == all[..n];
    } else {
      assert all[s := k][..n] == all[..n][s := k];
      PendingUpdate(all[..n], s, k);
    }
  }

  lemma {:induction false} PendingForward(all: seq<Sink>, sinks: seq<nat>, j: SinkJob)
    ensures Pending(Forward(all, sinks, j)) <= Pending(all) + |sinks|
  {
    if sinks != [] {
      var n := |sinks| - 1;
      var before := Forward(all, sinks[..n], j);
      PendingForward(all, sinks[..n], j);
      PendingSend(before, sinks[n], j);
    }
  }

  lemma PendingSend(all: seq<Sink>, s: nat, j: SinkJob)
    ensures Pending(Send(all, s, j)) <= Pending(all) + 1
  {
    if s < |all| { PendingUpdate(all, s, all[s].(queue := all[s].queue + [j])); }
  }

  /** Distinct sinks among n are at most n. */
  lemma {:induction false} FewSinks(sinks: seq<nat>, n: nat)
    requires Increasing(sinks) && Below(sinks, n)
    ensures |sinks| <= n
  {
    if sinks != [] {
      var m := |sinks| - 1;
      assert sinks[m] in sinks;
      forall s <- sinks[..m] ensures s < sinks[m] {}
      FewSinks(sinks[..m], sinks[m]);
    }
  }

  lemma CapturedIdsFew(queue: seq<WorkerJob>)
    ensures |CapturedIds(queue)| <= |queue|
  {
  }

  lemma OneJobLess(n: nat, queue: seq<WorkerJob>)
    requires queue != []
    ensures (4 * n + 5) * |queue[1..]| == (4 * n + 5) * |queue| - (4 * n + 5)
  {
  }

  lemma RunDecreases(st: State)
    requires Lifecycle(st) && st.phase.Running? && st.queue != []
    ensures Measure(RunJob(st)) < Measure(st)
  {
    hide Forward, Without, FatalMessage, Pending, Captured, OwnedElsewhere, Sound;
    var j := st.queue[0];
    FewSinks(st.sinks, |st.all|);
    OneJobLess(|st.all|, st.queue);
    assert j in st.queue;
    match j
    case Save(m) => PendingForward(st.all, st.sinks, Deliver(m));
    case Fatal(m, l, r) => PendingForward(st.all, st.sinks, Deliver(FatalMessage(m, l, r)));
    case HotUpdate(s, c) => PendingSend(st.all, s, Updated(c));
    case _ =>
  }

  lemma CloseDecreases(st: State)
    requires CanClose(st)
    ensures Measure(CloseNext(st)) < Measure(st)
  {
    hide Pending, OwnedElsewhere;
    var todo := st.phase.todo;
    if todo != [] && CloseNext(st).phase == st.phase {
      var s := todo[0];
      PendingUpdate(st.all, s, CloseNext(st).all[s]);
    }
  }

  /** Every consumer step leaves less work. */
  lemma ConsumerStepDecreases(st: State, step: Step)
    requires Lifecycle(st) && Enabled(st, step) && Consumes(step)
    ensures Measure(Next(st, step)) < Measure(st)
  {
    hide RunJob, CloseNext, CanClose, Pending, Lifecycle;
    match step
    case WorkerRun => RunDecreases(st);
    case WorkerClose => CloseDecreases(st);
    case DestroyWorker =>
      CapturedIdsFew(st.queue);
      assert (4 * |st.all| + 5) * |st.queue| >= 5 * |st.queue| by { AtLeast(|st.all|, |st.queue|); }
    case SinkRun(s) => PendingUpdate(st.all, s, Next(st, step).all[s]);
  }

  lemma AtLeast(n: nat, q: nat)
    ensures (4 * n + 5) * q >= 5 * q
  {
    assert (4 * n + 5) * q == 4 * (n * q) + 5 * q;
  }

  /** So a run of consumer steps, in any order, has at most Measure(st) steps. */
  lemma {:induction false} ConsumersFinish(st: State, steps: seq<Step>)
    requires Lifecycle(st) && Runs(st, steps)
    requires forall i | 0 <= i < |steps| :: Consumes(steps[i])
    ensures |steps| + Measure(Final(st, steps)) <= Measure(st)
    decreases |steps|
  {
    hide Measure, Lifecycle, Enabled, Next;
    if steps != [] {
      ConsumerStepDecreases(st, steps[0]);
      LifecycleStep(st, steps[0]);
      ConsumersFinish(Next(st, steps[0]), steps[1..]);
    }
  }

  /** Nothing is left to do: the worker is idle or gone and every queue is empty. */
  predicate Quiet(st: State)
  {
    && (st.phase.Running? || st.phase.Destroyed?) && (st.phase.Running? ==> st.queue == [])
    && forall s | 0 <= s < |st.all| :: st.all[s].queue == []
  }

  /** No deadlock: while there is work some thread can take a step, also while the
      worker is blocked on the join of a sink's thread. */
  lemma Progress(st: State) returns (step: Step)
    requires Lifecycle(st) && !st.phase.Exited? && !Quiet(st)
    ensures Consumes(step) && Enabled(st, step)
  {
    hide OwnedElsewhere, Captured, Increasing, Ordered;
    if s: nat :| s < |st.all| && st.all[s].queue != [] {
      assert Sound(st.all[s], OwnedElsewhere(st, s), Head(st, s));
      if st.all[s].Stopped() { StopIsLast(st.all[s].ran, st.all[s].queue); }
      return SinkRun(s);
    }
    match st.phase
    case Running => return WorkerRun;
    case Stopped => return DestroyWorker;
    case Closing(todo, _) =>
      if todo != [] {
        assert todo[0] in Todo(st);
        assert Sound(st.all[todo[0]], OwnedElsewhere(st, todo[0]), Head(st, todo[0]));
        assert st.all[todo[0]].queue == [];
        assert st.all[todo[0]].Jobs() == st.all[todo[0]].ran;
      }
      return WorkerClose;
  }

  /** Hence every destructor's join returns: the consumers alone bring any reachable
      state to rest, or to the exit call of a fatal message. */
  lemma Settles(st: State) returns (steps: seq<Step>)
    requires Lifecycle(st)
    ensures Runs(st, steps) && (forall i | 0 <= i < |steps| :: Consumes(steps[i]))
    ensures Quiet(Final(st, steps)) || Final(st, steps).phase.Exited?
    decreases Measure(st)
  {
    hide Measure, Lifecycle, Next, Enabled, Quiet;
    if Quiet(st) || st.phase.Exited? { return []; }
    var step := Progress(st);
    ConsumerStepDecreases(st, step);
    LifecycleStep(st, step);
    var rest := Settles(Next(st, step));
    OneStep(st, step, rest);
    return [step] + rest;
  }
}
