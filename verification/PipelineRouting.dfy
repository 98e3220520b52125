/** What reaches a sink: exactly the messages whose job the worker ran while the
    sink was registered, and its hot updates between them, in the order in which
    the jobs were pushed. */
module PipelineRouting {
  import opened Pipeline
  import opened PipelineLifecycle

  /** The worker's queue, or the whole worker, is being destroyed. */
  predicate Dismantled(st: State)
  {
    st.phase.Destroyed? || (st.phase.Closing? && st.phase.after.Gone?)
  }

  predicate Exiting(st: State)
  {
    st.phase.Exited? || (st.phase.Closing? && st.phase.after.Exit?)
  }

  predicate EndsRun(j: WorkerJob) { j.Fatal? || j.Poison? }

  /** The worker runs the jobs in the order in which they were pushed; a fatal
      message or the poison job is the last one it runs. */
  predicate History(st: State)
  {
    && (if Dismantled(st) then st.executed <= st.pushed else st.executed + st.queue == st.pushed)
    && (forall i | 0 <= i < |st.executed| - 1 :: !EndsRun(st.executed[i]))
    && (Exiting(st) <==> st.executed != [] && st.executed[|st.executed| - 1].Fatal?)
    && (st.phase.Stopped? || Dismantled(st) <==> st.executed != [] && st.executed[|st.executed| - 1].Poison?)
  }

  lemma HistoryPush(st: State, j: WorkerJob, all: seq<Sink>)
    requires History(st) && !Dismantled(st)
    ensures History(PushJob(st, j).(all := all))
  {
    assert st.executed + (st.queue + [j]) == (st.executed + st.queue) + [j];
  }

  lemma HistoryRun(st: State)
    requires History(st) && st.phase.Running? && st.queue != []
    ensures History(RunJob(st))
  {
    hide Forward, Without, FatalMessage, Send;
    var t := RunJob(st);
    assert t.executed == st.executed + [st.queue[0]];
    assert t.executed + t.queue == st.executed + st.queue;
    forall i | 0 <= i < |t.executed| - 1 ensures !EndsRun(t.executed[i]) {
      assert t.executed[i] == st.executed[i];
    }
  }

  lemma HistoryClose(st: State)
    requires History(st) && CanClose(st)
    ensures History(CloseNext(st))
  {
    hide OwnedElsewhere, Close;
    assert CloseNext(st).executed == st.executed;
  }

  lemma HistoryStep(st: State, step: Step)
    requires History(st) && Enabled(st, step)
    ensures History(Next(st, step))
  {
    hide History, RunJob, CloseNext, CanClose, OwnedElsewhere, Close, Send;
    match step
    case PushSave(m) => HistoryPush(st, Save(m), st.all);
    case PushFatal(m, l, r) => HistoryPush(st, Fatal(m, l, r), st.all);
    case PushAdd => HistoryPush(st, AddSink(|st.all|), st.all + [Sink([], [], 1, Open)]);
    case PushRemove(s) => HistoryPush(st, RemoveSink(s), st.all);
    case PushClear => HistoryPush(st, ClearSinks, st.all);
    case PushHot(s, c) => HistoryPush(st, HotUpdate(s, c), st.all);
    case PushPoison => HistoryPush(st, Poison, st.all);
    case WorkerRun => HistoryRun(st);
    case WorkerClose => HistoryClose(st);
    case DestroyWorker => HistoryDestroy(st);
    case _ => HistoryFrame(st, Next(st, step).all);
  }

  lemma HistoryDestroy(st: State)
    requires History(st) && st.phase.Stopped?
    ensures History(Next(st, DestroyWorker))
  {
    assert Dismantled(Next(st, DestroyWorker));
    assert st.pushed[..|st.executed|] == st.executed;
  }

  lemma HistoryFrame(st: State, all: seq<Sink>)
    requires History(st)
    ensures History(st.(all := all))
  {
  }

  // ---------------------------------------------------------------- routing

  function JobsOf(st: State, s: nat): seq<SinkJob>
  {
    if s < |st.all| then st.all[s].Jobs() else []
  }

  /** The list of sinks is what the executed jobs made it, and every sink has got
      exactly what they routed to it. */
  ghost predicate Routing(st: State)
  {
    && (!Dismantled(st) ==> st.sinks == Registered([], st.executed))
    && (forall s: nat :: Routed(JobsOf(st, s)) == Trace([], st.executed, s))
  }

  lemma RoutedSnoc(jobs: seq<SinkJob>, j: SinkJob)
    ensures Routed(jobs + [j]) == Routed(jobs) + if j.Deliver? || j.Updated? then [j] else []
  {
    assert (jobs + [j])[..|jobs|] == jobs;
  }

  lemma TraceSnoc(start: seq<nat>, jobs: seq<WorkerJob>, j: WorkerJob, s: nat)
    ensures Trace(start, jobs + [j], s)
            == Trace(start, jobs, s) + Routes(j, Registered(start, jobs), s)
    ensures Registered(start, jobs + [j])
            == match j
               case AddSink(r) => Registered(start, jobs) + [r]
               case RemoveSink(r) => Without(Registered(start, jobs), r)
               case ClearSinks => []
               case Fatal(_, _, _) => []
               case _ => Registered(start, jobs)
  {
    assert (jobs + [j])[..|jobs|] == jobs;
  }

  lemma {:induction false} WithoutAbsent(sinks: seq<nat>, s: nat)
    requires s !in sinks
    ensures Without(sinks, s) == sinks
  {
    if sinks != [] {
      WithoutAbsent(sinks[..|sinks| - 1], s);
    }
  }

  lemma ForwardRoutes(st: State, j: SinkJob, s: nat)
    requires Lifecycle(st) && j.Deliver?
    ensures Routed(JobsOf(st.(all := Forward(st.all, st.sinks, j)), s))
            == Routed(JobsOf(st, s)) + if s in st.sinks then [j] else []
  {
    hide Forward, Routed;
    if s < |st.all| {
      ForwardExact(st.all, st.sinks, j, s);
      var k := Forward(st.all, st.sinks, j)[s];
      assert s in st.sinks ==> k.Jobs() == st.all[s].Jobs() + [j];
      RoutedSnoc(st.all[s].Jobs(), j);
    }
  }

  lemma RunRoutes(st: State, s: nat)
    requires Lifecycle(st) && Routing(st) && st.phase.Running? && st.queue != []
    ensures Routed(JobsOf(RunJob(st), s)) == Trace([], RunJob(st).executed, s)
  {
    hide Forward, Routed, Without, Trace, Registered, Captured;
    var j := st.queue[0];
    TraceSnoc([], st.executed, j, s);
    assert Routed(JobsOf(st, s)) == Trace([], st.executed, s);
    match j
    case Save(m) => ForwardRoutes(st, Deliver(m), s);
    case Fatal(m, l, r) => ForwardRoutes(st, Deliver(FatalMessage(m, l, r)), s);
    case HotUpdate(r, c) =>
      assert j in st.queue;
      if s == r {
        assert JobsOf(RunJob(st), s) == JobsOf(st, s) + [Updated(c)];
        RoutedSnoc(JobsOf(st, s), Updated(c));
      }
    case _ =>
  }

  lemma RegisteredAlive(st: State, s: nat)
    requires Lifecycle(st) && s in st.sinks
    ensures Alive(st, s)
  {
    assert OwnedElsewhere(st, s);
  }

  lemma RunRegisters(st: State)
    requires Lifecycle(st) && Routing(st) && st.phase.Running? && st.queue != []
    ensures RunJob(st).sinks == Registered([], RunJob(st).executed)
  {
    hide Forward, Routed, Without, Trace, Registered, Captured;
    var j := st.queue[0];
    TraceSnoc([], st.executed, j, 0);
    if j.RemoveSink? {
      if j.s in st.sinks { RegisteredAlive(st, j.s); } else { WithoutAbsent(st.sinks, j.s); }
    }
  }

  /** A step in which the worker runs no job: what came through it stays. */
  lemma OtherRoutes(st: State, step: Step, s: nat)
    requires Enabled(st, step) && !step.WorkerRun?
    ensures Routed(JobsOf(Next(st, step), s)) == Routed(JobsOf(st, s))
    ensures Next(st, step).executed == st.executed
    ensures !Dismantled(Next(st, step)) ==> !Dismantled(st) && Next(st, step).sinks == st.sinks
  {
    hide Routed, OwnedElsewhere, CapturedIds;
    var t := Next(st, step);
    var was, now := JobsOf(st, s), JobsOf(t, s);
    if step.SinkRun? && step.s == s {
      assert st.all[s].queue == [st.all[s].queue[0]] + st.all[s].queue[1..];
    }
    assert now == was || now == was + [Stop] || (step.CallSink? && now == was + [Direct(step.c)]);
    if now != was { RoutedSnoc(was, now[|was|]); }
  }

  lemma RoutingStep(st: State, step: Step)
    requires Lifecycle(st) && Routing(st) && Enabled(st, step)
    ensures Routing(Next(st, step))
  {
    hide Lifecycle, RunJob, Routed, Trace, Registered, JobsOf;
    var t := Next(st, step);
    if step.WorkerRun? {
      RunRegisters(st);
      forall s: nat ensures Routed(JobsOf(t, s)) == Trace([], t.executed, s) { RunRoutes(st, s); }
    } else {
      forall s: nat ensures Routed(JobsOf(t, s)) == Trace([], t.executed, s) { OtherRoutes(st, step, s); }
      OtherRoutes(st, step, 0);
    }
  }
}
