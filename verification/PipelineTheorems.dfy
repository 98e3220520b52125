/** What the pipeline promises in every state that any interleaving can reach. */
module PipelineTheorems {
  import opened Pipeline
  import opened PipelineLifecycle
  import opened PipelineRouting

  lemma {:induction false} InvariantRun(st: State, steps: seq<Step>)
    requires Lifecycle(st) && History(st) && Routing(st) && Runs(st, steps)
    ensures Lifecycle(Final(st, steps)) && History(Final(st, steps)) && Routing(Final(st, steps))
    decreases |steps|
  {
    hide Lifecycle, History, Routing, Enabled, Next;
    if steps != [] {
      LifecycleStep(st, steps[0]);
      HistoryStep(st, steps[0]);
      RoutingStep(st, steps[0]);
      InvariantRun(Next(st, steps[0]), steps[1..]);
    }
  }

  lemma Always(st: State)
    requires Reachable(st)
    ensures Lifecycle(st) && History(st) && Routing(st)
  {
    var steps :| Runs(START, steps) && Final(START, steps) == st;
    InvariantRun(START, steps);
  }

  lemma {:induction false} RunsOn(st: State, a: seq<Step>, b: seq<Step>)
    requires Runs(st, a) && Runs(Final(st, a), b)
    ensures Runs(st, a + b) && Final(st, a + b) == Final(Final(st, a), b)
    decreases |a|
  {
    hide Next, Enabled;
    if a == [] {
      assert a + b == b;
    } else {
      RunsOn(Next(st, a[0]), a[1..], b);
      assert (a + b)[1..] == a[1..] + b;
    }
  }

  lemma ReachableOn(st: State, steps: seq<Step>)
    requires Reachable(st) && Runs(st, steps)
    ensures Reachable(Final(st, steps))
  {
    hide Runs, Final;
    var before :| Runs(START, before) && Final(START, before) == st;
    RunsOn(START, before, steps);
  }

  // ---------------------------------------------------------------- delivery

  lemma {:induction false} RoutedAppend(a: seq<SinkJob>, b: seq<SinkJob>)
    ensures Routed(a + b) == Routed(a) + Routed(b)
  {
    if b == [] {
      assert a + b == a;
    } else {
      var n := |b| - 1;
      assert (a + b)[..|a + b| - 1] == a + b[..n];
      RoutedAppend(a, b[..n]);
    }
  }

  /** No loss, no duplicate, no reordering: what a sink has run and what waits in
      its queue is exactly what the worker's executed jobs routed to it. */
  lemma DeliveredExactly(st: State, s: nat)
    requires Reachable(st) && s < |st.all|
    ensures Routed(st.all[s].ran) + Routed(st.all[s].queue) == Trace([], st.executed, s)
    ensures st.executed <= st.pushed
    ensures !Dismantled(st) ==> st.executed + st.queue == st.pushed
    ensures !Dismantled(st) ==> st.sinks == Registered([], st.executed)
  {
    Always(st);
    RoutedAppend(st.all[s].ran, st.all[s].queue);
    assert Routed(JobsOf(st, s)) == Trace([], st.executed, s);
  }

  /** The messages among the jobs of a sink. */
  function Delivered(jobs: seq<SinkJob>): seq<Message>
  {
    if jobs == [] then []
    else
      var last := jobs[|jobs| - 1];
      Delivered(jobs[..|jobs| - 1]) + if last.Deliver? then [last.m] else []
  }

  predicate Carries(j: WorkerJob) { j.Save? || j.Fatal? }

  /** The message a job forwards. */
  function Carried(j: WorkerJob): Message
    requires Carries(j)
  {
    if j.Save? then j.m else FatalMessage(j.m, j.level, j.reason)
  }

  /** The positions of the jobs that reach a sink with a message. */
  function Picks(jobs: seq<WorkerJob>, s: nat): seq<nat>
  {
    if jobs == [] then []
    else
      var n := |jobs| - 1;
      Picks(jobs[..n], s)
      + if Carries(jobs[n]) && s in Registered([], jobs[..n]) then [n] else []
  }

  lemma DeliveredSnoc(jobs: seq<SinkJob>, j: SinkJob)
    ensures Delivered(jobs + [j]) == Delivered(jobs) + if j.Deliver? then [j.m] else []
  {
    assert (jobs + [j])[..|jobs|] == jobs;
  }

  lemma {:induction false} DeliveredOfRouted(jobs: seq<SinkJob>)
    ensures Delivered(Routed(jobs)) == Delivered(jobs)
  {
    if jobs != [] {
      var n := |jobs| - 1;
      DeliveredOfRouted(jobs[..n]);
      DeliveredSnoc(Routed(jobs[..n]), jobs[n]);
      assert Routed(jobs[..n]) + [] == Routed(jobs[..n]);
    }
  }

  lemma PicksSnoc(jobs: seq<WorkerJob>, j: WorkerJob, s: nat)
    ensures Picks(jobs + [j], s)
            == Picks(jobs, s) + if Carries(j) && s in Registered([], jobs) then [|jobs|] else []
    ensures Delivered(Trace([], jobs + [j], s))
            == Delivered(Trace([], jobs, s))
               + if Carries(j) && s in Registered([], jobs) then [Carried(j)] else []
  {
    hide Delivered, Trace, Registered, FatalMessage;
    assert (jobs + [j])[..|jobs|] == jobs;
    TraceSnoc([], jobs, j, s);
    var was := Trace([], jobs, s);
    var r := Routes(j, Registered([], jobs), s);
    if r == [] { assert was + r == was; } else { DeliveredSnoc(was, r[0]); }
  }

  /** The picked positions increase, and each stands for the message delivered. */
  predicate PickedInOrder(jobs: seq<WorkerJob>, picks: seq<nat>, got: seq<Message>)
  {
    && |got| == |picks| && Increasing(picks)
    && (forall k | 0 <= k < |picks| ::
          picks[k] < |jobs| && Carries(jobs[picks[k]]) && got[k] == Carried(jobs[picks[k]]))
  }

  lemma {:induction false} PicksExact(jobs: seq<WorkerJob>, s: nat)
    ensures PickedInOrder(jobs, Picks(jobs, s), Delivered(Trace([], jobs, s)))
    ensures forall i: nat | i < |jobs| ::
              i in Picks(jobs, s) <==> Carries(jobs[i]) && s in Registered([], jobs[..i])
  {
    hide Delivered, Trace, Registered, Picks, Carried;
    if jobs == [] {
      assert Picks([], s) == [] && Trace([], [], s) == [] && Delivered([]) == [] by { Empty(s); }
    } else {
      var n := |jobs| - 1;
      var before := jobs[..n];
      PicksExact(before, s);
      PicksSnoc(before, jobs[n], s);
      assert jobs == before + [jobs[n]];
      forall i: nat | i < n ensures jobs[..i] == before[..i] {}
    }
  }

  lemma Empty(s: nat)
    ensures Picks([], s) == [] && Trace([], [], s) == [] && Delivered([]) == []
  {
  }

  /** The messages a sink gets, in the order in which it gets them, are the pushed
      ones at increasing positions: those the worker has run while the sink was
      registered, each once. So any two sinks agree on the order of the messages
      they share, and the order of every producer is kept. */
  lemma DeliveredInPushOrder(st: State, s: nat)
    requires Reachable(st) && s < |st.all|
    ensures var picks := Picks(st.executed, s);
            var got := Delivered(st.all[s].ran + st.all[s].queue);
            && PickedInOrder(st.pushed, picks, got)
            && (forall i: nat | i < |st.executed| ::
                  i in picks <==> Carries(st.executed[i]) && s in Registered([], st.executed[..i]))
  {
    hide Trace, Registered, Delivered, Routed, Lifecycle, Picks;
    Always(st);
    assert Routed(JobsOf(st, s)) == Trace([], st.executed, s);
    DeliveredOfRouted(st.all[s].Jobs());
    PicksExact(st.executed, s);
    assert forall i | 0 <= i < |st.executed| :: st.executed[i] == st.pushed[i];
  }

  // ---------------------------------------------------------------- barriers

  lemma TraceNone(start: seq<nat>, s: nat)
    ensures Trace(start, [], s) == [] && Registered(start, []) == start
  {
  }

  lemma {:induction false} TraceSplit(start: seq<nat>, a: seq<WorkerJob>, b: seq<WorkerJob>, s: nat)
    ensures Trace(start, a + b, s) == Trace(start, a, s) + Trace(Registered(start, a), b, s)
    ensures Registered(start, a + b) == Registered(Registered(start, a), b)
  {
    hide Trace, Registered, Routes, Without;
    if b == [] {
      assert a + b == a;
      TraceNone(start, s);
      TraceNone(Registered(start, a), s);
      assert Trace(start, a, s) + [] == Trace(start, a, s);
    } else {
      var n := |b| - 1;
      TraceSplit(start, a, b[..n], s);
      assert a + b == (a + b[..n]) + [b[n]] && b == b[..n] + [b[n]];
      TraceSnoc(start, a + b[..n], b[n], s);
      TraceSnoc(Registered(start, a), b[..n], b[n], s);
    }
  }

  /** A hot update stands between the messages saved before it and those saved
      after it. */
  lemma HotUpdateBarrier(st: State, before: seq<WorkerJob>, s: nat, c: nat, later: seq<WorkerJob>)
    requires Reachable(st) && s < |st.all|
    requires st.executed == before + [HotUpdate(s, c)] + later
    ensures Routed(st.all[s].Jobs())
            == Trace([], before, s) + [Updated(c)] + Trace(Registered([], before), later, s)
    ensures Delivered(Trace([], before, s)) + Delivered(Trace(Registered([], before), later, s))
            == Delivered(st.all[s].Jobs())
  {
    hide Trace, Registered, Delivered, Routed, Lifecycle, History;
    Always(st);
    assert Routed(JobsOf(st, s)) == Trace([], st.executed, s);
    TraceSnoc([], before, HotUpdate(s, c), s);
    TraceSplit([], before + [HotUpdate(s, c)], later, s);
    var x, y := Trace([], before, s), Trace(Registered([], before), later, s);
    DeliveredOfRouted(st.all[s].Jobs());
    DeliveredAppend(x + [Updated(c)], y);
    DeliveredSnoc(x, Updated(c));
  }

  lemma {:induction false} DeliveredAppend(a: seq<SinkJob>, b: seq<SinkJob>)
    ensures Delivered(a + b) == Delivered(a) + Delivered(b)
  {
    if b == [] {
      assert a + b == a;
    } else {
      var n := |b| - 1;
      assert (a + b)[..|a + b| - 1] == a + b[..n];
      DeliveredAppend(a, b[..n]);
    }
  }

  /** The messages some jobs carry. */
  function Saved(jobs: seq<WorkerJob>): seq<Message>
  {
    if jobs == [] then []
    else
      var n := |jobs| - 1;
      Saved(jobs[..n]) + if Carries(jobs[n]) then [Carried(jobs[n])] else []
  }

  predicate RegisteredThroughout(start: seq<nat>, jobs: seq<WorkerJob>, s: nat)
  {
    forall i | 0 <= i < |jobs| :: s in Registered(start, jobs[..i])
  }

  lemma {:induction false} SteadySinkGetsAll(start: seq<nat>, jobs: seq<WorkerJob>, s: nat)
    requires RegisteredThroughout(start, jobs, s)
    ensures Delivered(Trace(start, jobs, s)) == Saved(jobs)
  {
    hide Registered, FatalMessage;
    if jobs != [] {
      var n := |jobs| - 1;
      forall i | 0 <= i < n ensures jobs[..n][..i] == jobs[..i] {}
      SteadySinkGetsAll(start, jobs[..n], s);
      var was := Trace(start, jobs[..n], s);
      var r := Routes(jobs[n], Registered(start, jobs[..n]), s);
      if r == [] { assert was + r == was; } else { DeliveredSnoc(was, r[0]); }
    }
  }

  /** Two sinks registered through the same stretch of jobs get the same messages
      from it, all of them, in the same order. */
  lemma SinksAgree(st: State, before: seq<WorkerJob>, stretch: seq<WorkerJob>, s: nat, t: nat)
    requires Reachable(st) && s < |st.all| && t < |st.all|
    requires st.executed == before + stretch
    requires RegisteredThroughout(Registered([], before), stretch, s)
    requires RegisteredThroughout(Registered([], before), stretch, t)
    ensures Delivered(st.all[s].Jobs()) == Delivered(Trace([], before, s)) + Saved(stretch)
    ensures Delivered(st.all[t].Jobs()) == Delivered(Trace([], before, t)) + Saved(stretch)
  {
    hide Trace, Registered, Delivered, Routed, Lifecycle, History, RegisteredThroughout;
    Always(st);
    assert Routed(JobsOf(st, s)) == Trace([], st.executed, s);
    assert Routed(JobsOf(st, t)) == Trace([], st.executed, t);
    DeliveredOfRouted(st.all[s].Jobs());
    DeliveredOfRouted(st.all[t].Jobs());
    TraceSplit([], before, stretch, s);
    TraceSplit([], before, stretch, t);
    SteadySinkGetsAll(Registered([], before), stretch, s);
    SteadySinkGetsAll(Registered([], before), stretch, t);
    DeliveredAppend(Trace([], before, s), Trace(Registered([], before), stretch, s));
    DeliveredAppend(Trace([], before, t), Trace(Registered([], before), stretch, t));
  }

  /** A sink's own jobs only grow at the end, and so does what it has run: a direct
      call is ordered against what is already there, and against that only. */
  lemma {:induction false} JobsGrow(st: State, steps: seq<Step>, s: nat)
    requires Runs(st, steps) && s < |st.all|
    ensures s < |Final(st, steps).all|
    ensures JobsOf(st, s) <= JobsOf(Final(st, steps), s)
    ensures st.all[s].ran <= Final(st, steps).all[s].ran
    decreases |steps|
  {
    if steps != [] {
      JobsGrowStep(st, steps[0], s);
      JobsGrow(Next(st, steps[0]), steps[1..], s);
    }
  }

  lemma {:induction false} ForwardGrows(all: seq<Sink>, sinks: seq<nat>, j: SinkJob, s: nat)
    requires s < |all|
    ensures Forward(all, sinks, j)[s].ran == all[s].ran
    ensures all[s].queue <= Forward(all, sinks, j)[s].queue
  {
    if sinks != [] {
      ForwardGrows(all, sinks[..|sinks| - 1], j, s);
    }
  }

  lemma RunGrows(st: State, s: nat)
    requires st.queue != [] && s < |st.all|
    ensures s < |RunJob(st).all|
    ensures JobsOf(st, s) <= JobsOf(RunJob(st), s)
    ensures st.all[s].ran <= RunJob(st).all[s].ran
  {
    hide Forward, Without, FatalMessage;
    match st.queue[0]
    case Save(m) => ForwardGrows(st.all, st.sinks, Deliver(m), s);
    case Fatal(m, l, r) => ForwardGrows(st.all, st.sinks, Deliver(FatalMessage(m, l, r)), s);
    case _ =>
  }

  lemma JobsGrowStep(st: State, step: Step, s: nat)
    requires Enabled(st, step) && s < |st.all|
    ensures s < |Next(st, step).all|
    ensures JobsOf(st, s) <= JobsOf(Next(st, step), s)
    ensures st.all[s].ran <= Next(st, step).all[s].ran
  {
    hide OwnedElsewhere, CapturedIds, RunJob;
    if step.WorkerRun? {
      RunGrows(st, s);
    } else if step.SinkRun? && step.s == s {
      assert st.all[s].queue == [st.all[s].queue[0]] + st.all[s].queue[1..];
    }
  }

  // ---------------------------------------------------------------- texts

  predicate StandsAt(s: string, t: string, i: nat) { i <= |s| - |t| && s[i..i + |t|] == t }

  lemma Standing(a: string, t: string, b: string)
    ensures StandsAt(a + t + b, t, |a|)
  {
  }

  /** A fatal message begins with what the client wrote, and then names the level and,
      behind it, the reason. Its producer is the client's. */
  lemma FatalText(m: Message, level: string, reason: string) returns (i: nat, j: nat)
    ensures var f := FatalMessage(m, level, reason);
            && f.producer == m.producer && m.text <= f.text
            && |m.text| <= i && StandsAt(f.text, level, i)
            && i + |level| <= j && StandsAt(f.text, reason, j)
  {
    var a, b := m.text + "\nExiting after fatal event  (", "). Fatal type:  ";
    var c := "\nLog content flushed successfully to sink\n\n";
    i, j := |a|, |a + level + b|;
    Standing(a, level, b + reason + c);
    Standing(a + level + b, reason, c);
    assert FatalMessage(m, level, reason).text == a + level + (b + reason + c) == (a + level + b) + reason + c;
  }
}
