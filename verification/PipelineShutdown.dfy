/** What is guaranteed when a join returns: nothing that was accepted before the
    poison job is lost, nothing behind it is run. */
module PipelineShutdown {
  import opened Pipeline
  import opened PipelineLifecycle
  import opened PipelineRouting
  import opened PipelineTheorems

  /** The sink's thread has ended: the poison job is the last it ran, its queue is
      empty, and it has delivered everything the worker ever routed to it. */
  ghost predicate Drained(st: State, s: nat)
    requires s < |st.all|
  {
    var k := st.all[s];
    k.queue == [] && EndsWithStop(k.ran) && Routed(k.ran) == Trace([], st.executed, s)
  }

  lemma StopIsLast(ran: seq<SinkJob>, queue: seq<SinkJob>)
    requires EndsWithStop(ran + queue) && Stop in ran
    ensures queue == []
  {
    var jobs := ran + queue;
    var i :| 0 <= i < |ran| && ran[i] == Stop;
    assert jobs[i] == Stop;
    assert forall k | 0 <= k < |jobs| - 1 :: jobs[k] in jobs[..|jobs| - 1];
  }

  lemma StoppedIsDrained(st: State, s: nat)
    requires Reachable(st) && s < |st.all|
    ensures st.all[s].Stopped() <==> Drained(st, s)
  {
    hide Routed, Trace, History;
    Always(st);
    var k := st.all[s];
    assert Sound(k, OwnedElsewhere(st, s), Head(st, s));
    assert Routed(JobsOf(st, s)) == Trace([], st.executed, s);
    if k.Stopped() {
      assert Stop in k.Jobs();
      StopIsLast(k.ran, k.queue);
      assert k.Jobs() == k.ran;
    }
  }

  /** Who owns a sink while the worker is not dropping any: the list, a client, or a
      queued job that is to add it or to update it. */
  lemma OwnersOf(st: State, s: nat)
    requires s < |st.all| && !st.phase.Closing?
    ensures OwnedElsewhere(st, s) <==>
              || s in st.sinks || st.all[s].handles > 0
              || AddSink(s) in st.queue || exists c :: HotUpdate(s, c) in st.queue
  {
    if j :| j in st.queue && Captures(j, s) {
      assert j == AddSink(s) || j == HotUpdate(s, j.call);
    }
    if AddSink(s) in st.queue { assert Captures(AddSink(s), s); }
    if c :| HotUpdate(s, c) in st.queue { assert Captures(HotUpdate(s, c), s); }
  }

  /** Between jobs, once its loop has ended, and at the exit call of a fatal
      message, the worker waits for nobody: a sink is open exactly while somebody
      owns it, and every sink whose last owner was the worker is drained. */
  lemma DrainOnReturn(st: State, s: nat)
    requires Reachable(st) && s < |st.all| && !st.phase.Closing?
    ensures st.all[s].life.Open? <==>
              || s in st.sinks || st.all[s].handles > 0
              || AddSink(s) in st.queue || exists c :: HotUpdate(s, c) in st.queue
    ensures st.all[s].life.ClosedByWorker? ==> Drained(st, s)
  {
    Always(st);
    OwnersOf(st, s);
    assert Sound(st.all[s], OwnedElsewhere(st, s), Head(st, s));
    StoppedIsDrained(st, s);
  }

  /** The destructor of the worker's thread returns after every job pushed before
      the poison job, and no other, has run in the order of pushing. */
  lemma WorkerDrained(st: State)
    requires Reachable(st) && (st.phase.Stopped? || Dismantled(st))
    ensures var n := |st.executed| - 1;
            && 0 <= n < |st.pushed| && st.pushed[n].Poison? && st.executed == st.pushed[..n + 1]
            && forall i | 0 <= i < n :: !st.pushed[i].Poison?
  {
    Always(st);
    var n := |st.executed| - 1;
    assert !Dismantled(st) ==> st.pushed[..n + 1] == st.executed;
    forall i | 0 <= i < n ensures !st.pushed[i].Poison? {
      assert !EndsRun(st.executed[i]);
      assert st.executed[i] == st.pushed[i];
    }
  }

  /** Nobody but the worker's closing list owns the sink, and no client destroys it. */
  predicate Doomed(st: State, s: nat)
  {
    && s < |st.all| && st.all[s].handles == 0 && !Captured(st.queue, s) && s !in st.sinks
    && !st.all[s].life.ClosedByClient?
    && (st.all[s].life.Open? ==> s in Todo(st) && !Dismantled(st))
  }

  lemma DoomedRun(st: State, s: nat)
    requires Lifecycle(st) && Doomed(st, s) && st.phase.Running? && st.queue != []
    ensures Doomed(RunJob(st), s)
    ensures Routed(JobsOf(RunJob(st), s)) == Routed(JobsOf(st, s))
  {
    hide Routed, Forward, Without, FatalMessage, Increasing;
    var j := st.queue[0];
    CapturedByNext(st.queue, s);
    match j
    case Save(m) => ForwardExact(st.all, st.sinks, Deliver(m), s);
    case Fatal(m, l, r) => ForwardExact(st.all, st.sinks, Deliver(FatalMessage(m, l, r)), s);
    case RemoveSink(r) => WithoutExact(st.sinks, r, s);
    case _ =>
  }

  lemma DoomedClose(st: State, s: nat)
    requires Lifecycle(st) && Doomed(st, s) && CanClose(st)
    ensures Doomed(CloseNext(st), s)
  {
    Member(Todo(st), s);
    if Todo(st) != [] { Member(Todo(st)[1..], s); }
    assert Sound(st.all[s], OwnedElsewhere(st, s), Head(st, s));
  }

  lemma DoomedPush(st: State, s: nat, j: WorkerJob, more: seq<Sink>)
    requires Lifecycle(st) && Doomed(st, s) && !Captures(j, s)
    ensures Doomed(PushJob(st, j).(all := st.all + more), s)
  {
    CapturedBySnoc(st.queue, j, s);
    assert Todo(PushJob(st, j)) == Todo(st);
  }

  lemma DoomedOther(st: State, s: nat, r: nat, k: Sink)
    requires Doomed(st, s) && r < |st.all|
    requires r == s ==> k.handles == 0 && k.life == st.all[s].life
    ensures Doomed(st.(all := st.all[r := k]), s)
  {
  }

  lemma DoomedStep(st: State, step: Step, s: nat)
    requires Lifecycle(st) && Doomed(st, s) && Enabled(st, step) && step != TakeHandle(s)
    ensures Doomed(Next(st, step), s)
    ensures Routed(JobsOf(Next(st, step), s)) == Routed(JobsOf(st, s))
  {
    hide Lifecycle, Doomed, Routed, RunJob, CloseNext, CanClose, JobsOf, OwnedElsewhere, Captured;
    if !step.WorkerRun? { OtherRoutes(st, step, s); }
    assert s < |st.all| && st.all[s].handles == 0 by { DoomedFacts(st, s); }
    assert st.all + [] == st.all;
    match step
    case PushSave(m) => DoomedPush(st, s, Save(m), []);
    case PushFatal(m, l, r) => DoomedPush(st, s, Fatal(m, l, r), []);
    case PushAdd => DoomedPush(st, s, AddSink(|st.all|), [Sink([], [], 1, Open)]);
    case PushRemove(r) => DoomedPush(st, s, RemoveSink(r), []);
    case PushClear => DoomedPush(st, s, ClearSinks, []);
    case PushHot(r, c) => DoomedPush(st, s, HotUpdate(r, c), []);
    case PushPoison => DoomedPush(st, s, Poison, []);
    case WorkerRun => DoomedRun(st, s);
    case WorkerClose => DoomedClose(st, s);
    case DestroyWorker => DoomedDestroy(st, s);
    case CallSink(r, c) => DoomedOther(st, s, r, Next(st, step).all[r]);
    case TakeHandle(r) => DoomedOther(st, s, r, Next(st, step).all[r]);
    case DropHandle(r) => DropIsLocal(st, r); DoomedOther(st, s, r, Next(st, step).all[r]);
    case SinkRun(r) => DoomedOther(st, s, r, Next(st, step).all[r]);
  }

  lemma DropIsLocal(st: State, s: nat)
    requires s < |st.all| && st.all[s].handles > 0
    ensures |DropOne(st, s).all| == |st.all|
    ensures DropOne(st, s) == st.(all := st.all[s := DropOne(st, s).all[s]])
  {
  }

  lemma DoomedFacts(st: State, s: nat)
    requires Doomed(st, s)
    ensures s < |st.all| && st.all[s].handles == 0
  {
  }

  lemma DoomedDestroy(st: State, s: nat)
    requires Doomed(st, s) && st.phase.Stopped?
    ensures Doomed(Next(st, DestroyWorker), s)
  {
    assert !Captured([], s);
  }

  lemma {:induction false} DoomedSteps(st: State, steps: seq<Step>, s: nat)
    requires Lifecycle(st) && History(st) && Routing(st) && Doomed(st, s) && Runs(st, steps)
    requires TakeHandle(s) !in steps
    ensures Doomed(Final(st, steps), s)
    ensures Routed(JobsOf(Final(st, steps), s)) == Routed(JobsOf(st, s))
    decreases |steps|
  {
    hide Lifecycle, History, Routing, Doomed, Enabled, Next, Routed;
    if steps != [] {
      DoomedStep(st, steps[0], s);
      LifecycleStep(st, steps[0]);
      HistoryStep(st, steps[0]);
      RoutingStep(st, steps[0]);
      DoomedSteps(Next(st, steps[0]), steps[1..], s);
    }
  }

  predicate Drops(j: WorkerJob, s: nat)
  {
    j == RemoveSink(s) || j.ClearSinks? || j.Fatal?
  }

  lemma DropDooms(st: State, s: nat)
    requires Lifecycle(st) && st.phase.Running? && st.queue != [] && Drops(st.queue[0], s)
    requires s in st.sinks && st.all[s].handles == 0 && !Captured(st.queue, s)
    ensures Doomed(RunJob(st), s)
  {
    hide Forward, Without, FatalMessage, Increasing;
    CapturedByNext(st.queue, s);
    RegisteredAlive(st, s);
    match st.queue[0]
    case Fatal(m, l, r) => ForwardExact(st.all, st.sinks, Deliver(FatalMessage(m, l, r)), s);
    case RemoveSink(r) => WithoutExact(st.sinks, r, s);
    case _ =>
  }

  /** Drain on removal. A registered sink that no client holds and no queued job
      keeps is dropped by removeSink, removeAllSinks or a fatal message. However the
      run goes on, as long as nobody gets hold of the sink again: once the worker is
      done with that job, the sink's thread has ended after delivering all that was
      routed to it, up to and including what the dropping job itself sent. */
  lemma DroppedSinkIsFlushed(st: State, s: nat, steps: seq<Step>)
    requires Reachable(st) && st.queue != [] && Drops(st.queue[0], s)
    requires s in st.sinks && s < |st.all| && st.all[s].handles == 0 && !Captured(st.queue, s)
    requires Runs(st, steps) && steps != [] && steps[0] == WorkerRun && TakeHandle(s) !in steps
    requires !Final(st, steps).phase.Closing?
    ensures s < |Final(st, steps).all| && Drained(Final(st, steps), s)
    ensures Routed(Final(st, steps).all[s].ran) == Trace([], st.executed + [st.queue[0]], s)
  {
    hide Lifecycle, History, Routing, Routed, Trace, RunJob, Captured, Doomed, Drained;
    Always(st);
    FirstDooms(st, s);
    var end := Final(st, steps);
    assert end == Final(RunJob(st), steps[1..]);
    DoomedSteps(RunJob(st), steps[1..], s);
    DoomedEnds(end, s);
    DrainOnReturn(end, s) by { ReachableOn(st, steps); }
    DrainedJobs(end, s);
  }

  lemma DrainedJobs(st: State, s: nat)
    requires s < |st.all| && Drained(st, s)
    ensures JobsOf(st, s) == st.all[s].ran
  {
    assert st.all[s].ran + [] == st.all[s].ran;
  }

  lemma FirstDooms(st: State, s: nat)
    requires Lifecycle(st) && History(st) && Routing(st) && Enabled(st, WorkerRun)
    requires Drops(st.queue[0], s)
    requires s in st.sinks && s < |st.all| && st.all[s].handles == 0 && !Captured(st.queue, s)
    ensures Lifecycle(RunJob(st)) && History(RunJob(st)) && Routing(RunJob(st))
    ensures Doomed(RunJob(st), s)
    ensures Routed(JobsOf(RunJob(st), s)) == Trace([], st.executed + [st.queue[0]], s)
  {
    hide Lifecycle, History, Routing, Routed, Trace, RunJob, Captured, Doomed;
    DropDooms(st, s);
    LifecycleStep(st, WorkerRun);
    HistoryStep(st, WorkerRun);
    RoutingStep(st, WorkerRun);
    FirstRouted(st, s);
  }

  lemma DoomedEnds(st: State, s: nat)
    requires Doomed(st, s) && !st.phase.Closing?
    ensures s < |st.all| && st.all[s].life.ClosedByWorker?
  {
  }

  lemma FirstRouted(st: State, s: nat)
    requires st.queue != [] && Routing(RunJob(st))
    ensures Routed(JobsOf(RunJob(st), s)) == Trace([], st.executed + [st.queue[0]], s)
  {
  }

  /** For a fatal message this means: every sink that was registered and is not
      owned by anybody else has delivered all messages saved before while it was
      registered, and the fatal message last. */
  lemma FatalFlushed(st: State, s: nat, steps: seq<Step>)
    requires Reachable(st) && st.queue != [] && st.queue[0].Fatal?
    requires s in st.sinks && s < |st.all| && st.all[s].handles == 0 && !Captured(st.queue, s)
    requires Runs(st, steps) && steps != [] && steps[0] == WorkerRun && TakeHandle(s) !in steps
    requires Final(st, steps).phase.Exited?
    ensures s < |Final(st, steps).all|
    ensures Routed(Final(st, steps).all[s].ran)
            == Trace([], st.executed, s) + [Deliver(Carried(st.queue[0]))]
  {
    hide Routed, Trace, Registered, Captured, Lifecycle, Final;
    Always(st);
    DroppedSinkIsFlushed(st, s, steps);
    TraceSnoc([], st.executed, st.queue[0], s);
  }

  // ---------------------------------------------------------------- direct calls

  /** A direct call comes right behind the jobs already in the sink, for good. */
  lemma DirectCallOrder(st: State, s: nat, c: nat, more: seq<Step>)
    requires Enabled(st, CallSink(s, c)) && Runs(Next(st, CallSink(s, c)), more)
    ensures s < |Final(Next(st, CallSink(s, c)), more).all|
    ensures JobsOf(st, s) + [Direct(c)] <= JobsOf(Final(Next(st, CallSink(s, c)), more), s)
  {
    hide Runs, Final;
    JobsGrow(Next(st, CallSink(s, c)), more, s);
    assert JobsOf(Next(st, CallSink(s, c)), s) == JobsOf(st, s) + [Direct(c)];
  }

  lemma {:induction false} ExecutedGrows(st: State, steps: seq<Step>)
    requires Runs(st, steps)
    ensures st.executed <= Final(st, steps).executed
    decreases |steps|
  {
    if steps != [] {
      ExecutedStep(st, steps[0]);
      ExecutedGrows(Next(st, steps[0]), steps[1..]);
    }
  }

  lemma ExecutedStep(st: State, step: Step)
    requires Enabled(st, step)
    ensures st.executed <= Next(st, step).executed
  {
    hide Forward, Without, FatalMessage, OwnedElsewhere, CapturedIds, Close, Send;
  }

  /** Where a direct call stands, in every state and however the run goes on: behind
      exactly what the jobs run by the worker before the call routed to the sink,
      and in front of exactly what the jobs run after it route there. A message is
      ahead of the call if and only if the worker had run its save. */
  lemma DirectCallPlace(st: State, s: nat, c: nat, more: seq<Step>)
    requires Reachable(st) && Enabled(st, CallSink(s, c)) && Runs(Next(st, CallSink(s, c)), more)
    ensures var end := Final(Next(st, CallSink(s, c)), more);
            && s < |end.all| && st.executed <= end.executed
            && var jobs, n := end.all[s].Jobs(), |st.all[s].Jobs()|;
            && n < |jobs| && jobs[..n] == st.all[s].Jobs() && jobs[n] == Direct(c)
            && Routed(jobs[..n]) == Trace([], st.executed, s)
            && Routed(jobs[n + 1..])
               == Trace(Registered([], st.executed), end.executed[|st.executed|..], s)
  {
    hide Runs, Final, Routed, Trace, Registered, Lifecycle, History;
    var called := Next(st, CallSink(s, c));
    var end := Final(called, more);
    DirectCallOrder(st, s, c, more);
    ExecutedGrows(called, more);
    OneStep(st, CallSink(s, c), more);
    ReachableOn(st, [CallSink(s, c)] + more);
    Always(st);
    Always(end);
    var jobs, n, later := JobsOf(end, s), |JobsOf(st, s)|, end.executed[|st.executed|..];
    assert jobs == (JobsOf(st, s) + [Direct(c)]) + jobs[n + 1..];
    assert end.executed == st.executed + later;
    RoutedAppend(JobsOf(st, s) + [Direct(c)], jobs[n + 1..]);
    RoutedSnoc(JobsOf(st, s), Direct(c));
    TraceSplit([], st.executed, later, s);
    RoutedTail(st, end, s);
    var ahead := Trace([], st.executed, s);
    assert Routed(JobsOf(st, s) + [Direct(c)]) == ahead;
    SameRest(ahead, Routed(jobs[n + 1..]), Trace(Registered([], st.executed), later, s));
  }

  lemma SameRest(ahead: seq<SinkJob>, a: seq<SinkJob>, b: seq<SinkJob>)
    requires ahead + a == ahead + b
    ensures a == b
  {
    assert a == (ahead + a)[|ahead|..] && b == (ahead + b)[|ahead|..];
  }

  /** What both ends of a run have got through the worker. */
  lemma RoutedTail(st: State, end: State, s: nat)
    requires Routing(st) && Routing(end)
    ensures Routed(JobsOf(st, s)) == Trace([], st.executed, s)
    ensures Routed(JobsOf(end, s)) == Trace([], end.executed, s)
  {
  }

  lemma OneStep(st: State, step: Step, rest: seq<Step>)
    requires Enabled(st, step) && Runs(Next(st, step), rest)
    ensures Runs(st, [step] + rest) && Final(st, [step] + rest) == Final(Next(st, step), rest)
  {
    assert ([step] + rest)[1..] == rest;
  }

  /** So it is no barrier in message order. The shortest witness: the worker is idle,
      a message is saved, then the call is made, and the message comes behind it. */
  lemma DirectCallOvertakes(st: State, s: nat, m: Message, c: nat)
    requires Reachable(st) && st.phase.Running? && st.queue == [] && s in st.sinks
    ensures var saved := Next(st, PushSave(m));
            && Enabled(saved, CallSink(s, c))
            && Enabled(Next(saved, CallSink(s, c)), WorkerRun)
            && JobsOf(Next(Next(saved, CallSink(s, c)), WorkerRun), s)
               == JobsOf(st, s) + [Direct(c), Deliver(m)]
  {
    hide Lifecycle, History, Routing, Forward;
    Always(st);
    RegisteredAlive(st, s);
    var called := Next(Next(st, PushSave(m)), CallSink(s, c));
    LifecycleOrder(st);
    ForwardExact(called.all, st.sinks, Deliver(m), s);
    assert called.all[s] == st.all[s].(queue := st.all[s].queue + [Direct(c)]);
  }

  lemma LifecycleOrder(st: State)
    requires Lifecycle(st)
    ensures Increasing(st.sinks)
  {
  }
}
